# Verified model of the SIP stack and the option parser

This project models, in Dafny, the hardest parts of the bundled eXosip SIP stack and of the
vendored cxxopts option parser, and proves what they promise: for every input, every split
of a stream into reads, every run of API calls, callbacks and timer polls. Where the code
does not keep a promise, the model keeps the code, gives an input that shows it, and states
exactly when the promise holds.

| file | what it covers |
|---|---|
| `Text`, `Numerals` | leftmost search, C strings, joining and splitting; printed numbers and their values |
| `TcpFraming`, `TcpHeaders`, `TcpStream`, `TcpRoundTrip` | SIP over TCP: framing as a function of the stream, what the text of a header block says about its length, the in-place receive buffer that refines the framing, the partial-write loop, and the way from sender to receiver |
| `WordWrap`, `WordWrapLayout` | the help text wrapper, whose cursor moves backwards; where its lines break and how the text is laid out |
| `Options`, `OptionGrammar`, `CommandLines`, `Refusals`, `Rendering`, `OptionParser` | command lines as a ledger of tokens, truthful if and only if it is the one parsing gives; the characters of a flag; what refusals say; settings written in every form and parsed back; the parser object that refines all this |
| `Integers` | the fixed-width integer parser |
| `DnsName`, `DnsNameCodec`, `SrvOrder`, `NaptrCache` | expansion of compressed names and its inverses, SRV order and fail-over, the bounded NAPTR cache |
| `Ipv6Text`, `Base64` | two text forms and their inverses |
| `NonceTable` | the table of authentication challenges as a bounded map with nonce counts |
| `Retransmission` | the pass that resends a 200 OK until its ACK arrives |
| `Transactions`, `Ownership`, `Sessions` | who owns each SIP transaction, from its creation to the end of the stack |
| `Registrations` | the chain of REGISTER requests of a registration |
| `Identifiers` | the numbers of calls, dialogs and subscriptions, and lookup by number |

A read, a write, a clock, a DNS answer, the state the transaction layer has reached, and the
success of building a message are parameters or arbitrary values. Octets of text are `char`;
octets of DNS data and of base64 input are numbers below 256.

Results that a reader of the code might not expect:

- A negative Content-Length can make the framing loop spin for ever (`TcpFraming.NegativeLengthSpins`);
  `TcpFraming.HaltsExactly` and `TcpFraming.ReturnsExactly` say exactly when it spins and when it returns.
- A zero-length write makes the send loop report success for a truncated message
  (`TcpRoundTrip.ZeroWriteTruncates`, `TcpRoundTrip.SuccessIsWholeMessage`).
- The word wrapper drops a last line of one letter (`WordWrap.LoneLetterIsLost`); `WordWrap.ContentKept`
  says exactly when.
- The integer parser refuses a zero with a minus sign for an unsigned type, which is the only numeral
  in range it refuses (`Integers.NegativeZeroRefused`, `Integers.FittingIsExact`).
- The overflow test of the integer parser misses wraps that land above the last partial value, in
  signed and unsigned types alike (`Integers.OverflowMissed`); `Integers.OverflowDetected` says which
  out-of-range numerals are refused.
- A try of the retransmission pass always carries the first dialog's 200 OK. In a forked call the
  other dialogs' answers are never resent (`Retransmission.OwnAnswerIsCarried`,
  `Retransmission.PassOverForkedCall`), and a dialog behind the
  first one is given up in the very pass of its ninth try (`Retransmission.Call.Pass`).
- Sending a REGISTER of the caller's while the registration still keeps a finished one loses the
  finished one (`Sessions.FirstRegisterIsLost`); so does refusing an INVITE that has a To tag
  (`Sessions.ProcessNewInvite`).
- A 423 answer that cannot be obeyed ends the automatic refreshes of a registration
  (`Registrations.Registration.UnobeyableIntervalStopsRefreshing`).
- A domain of 512 octets or more is cached under the cut name or, beyond 512, the empty one, and again at the next call
  (`NaptrCache.Cache.OverlongIsCachedTwice`); `NaptrCache.Cache.Naptr` says exactly when the cached
  domains stay distinct.
- A challenge for a call-id of 64 octets or more is stored under a cut name, in a further slot each
  time, and never found again (`NonceTable.AuthTable.LongIsNeverFound`, `NonceTable.AuthTable.Store`).
- When the shared counter wraps, a new call can get the number of a live one
  (`Identifiers.WrappedNumbersCollide`, `Identifiers.DistinctIffUnused`).

`_eX_dn_expand` returns the length of a name on the wire without the terminating zero octet when
the name holds no pointer; the model follows the code.

## Model

| member | source | states |
|---|---|---|
| `TcpFraming.StepIsStable` | src/eXosip/eXtl_tcp.c:371-433 | a decision taken on some bytes does not change when more bytes follow |
| `TcpFraming.FrameConcat` | src/eXosip/eXtl_tcp.c:371-433 | framing p + q is framing p, then framing what p left over followed by q |
| `TcpFraming.ChunkIndependence` | src/eXosip/eXtl_tcp.c:371-504 | any two splits of one byte stream into reads deliver the same messages and leave the same bytes, those of framing the whole stream at once |
| `TcpFraming.HaltsExactly` | src/eXosip/eXtl_tcp.c:371-433 | the loop spins for ever exactly if its cursor gets to a header block whose size and announced length cancel, and reads astray exactly if it gets to one whose length cannot be read |
| `TcpFraming.ReturnsExactly` | src/eXosip/eXtl_tcp.c:371-433 | the loop returns to wait for bytes if and only if every header block its cursor gets to has a readable length that does not cancel it |
| `TcpFraming.SaneLengthsReturn` | src/eXosip/eXtl_tcp.c:371-433 | in particular it returns when the header blocks its cursor gets to have non-negative lengths that fit; bodies may hold anything |
| `TcpHeaders.MessageWithoutLength` | src/eXosip/eXtl_tcp.c:391-433 | a head that holds no length header, in any of the four spellings and any case, makes with its blank line a message of its own, whatever follows |
| `TcpHeaders.MessageWithLength` | src/eXosip/eXtl_tcp.c:391-433 | each of the four spellings, in any case, with a colon and blanks, announces the body of the number behind it |
| `TcpHeaders.NoColonCannotBeRead` | src/eXosip/eXtl_tcp.c:396-402 | a spelling that ends in a space without a colon after it cannot be read |
| `TcpHeaders.AtoiReads` | src/eXosip/eXtl_tcp.c:413 | white space, a sign and digits are read as that number, saturated to 64 bits and cut to 32 |
| `TcpHeaders.IncompleteWaits` | src/eXosip/eXtl_tcp.c:371-433 | of a message that is not complete nothing is delivered and nothing consumed |
| `TcpHeaders.NegativeTotalWaitsForEver` | src/eXosip/eXtl_tcp.c:410-418 | a length more negative than the header block is long stops the connection, whatever comes after |
| `TcpFraming.NegativeLengthSpins` | src/eXosip/eXtl_tcp.c:410-428 | a header block of 12 octets that announces -12 makes no progress |
| `TcpStream.BufferFind` | src/eXosip/eXtl_tcp.c:344-361 | the memchr/memcmp scan returns the leftmost occurrence in the window, or none |
| `TcpStream.Stream.MakeRoom` | src/eXosip/eXtl_tcp.c:440-463 | allocation, growth by 1000 and shrinking to 8000 keep the buffered bytes and leave room for a read |
| `TcpStream.Stream.PeekMessage` | src/eXosip/eXtl_tcp.c:383-416 | the NUL written over the header terminator is undone, and the step is the one of the framing function on the bytes from `consumed` on |
| `TcpStream.Stream.HandleMessages` | src/eXosip/eXtl_tcp.c:371-433 | the in-place loop delivers exactly the messages of the framing function and stops at its rest |
| `TcpStream.Stream.Discard` | src/eXosip/eXtl_tcp.c:493-500 | the shift to the front keeps the bytes not yet consumed |
| `TcpStream.Stream.Accept` | src/eXosip/eXtl_tcp.c:484-502 | reading, delivering and shifting keep the object equal to framing all bytes ever received |
| `TcpStream.Stream.Recv` | src/eXosip/eXtl_tcp.c:435-504 | every outcome of a read (data, nothing yet, end, error) keeps the stream invariant and delivers only by appending |
| `TcpRoundTrip.SendSockinfo` | src/eXosip/eXtl_tcp.c:1013-1066 | the loop over partial writes returns and transmits what the recursive account of those writes says |
| `TcpRoundTrip.SuccessIsWholeMessage` | src/eXosip/eXtl_tcp.c:1013-1066 | a reported success means the whole message went out, if and only if the writes before a zero-length one add up to its length |
| `TcpRoundTrip.FailureIsReported` | src/eXosip/eXtl_tcp.c:1013-1066 | failure is reported if and only if an error comes up while the message is still on its way |
| `TcpRoundTrip.ZeroWriteTruncates` | src/eXosip/eXtl_tcp.c:1054-1065 | a zero-length write ends the loop with success and a truncated message |
| `TcpRoundTrip.FrameOfEncoding` | src/eXosip/eXtl_tcp.c:371-433 | framing a list of well-formed messages and keep-alives gives that list of messages and nothing left over |
| `TcpRoundTrip.WireIsEncoding` | src/eXosip/eXtl_tcp.c:1013-1066 | successful sends with any partial writes put exactly the encoding of the list on the wire |
| `TcpRoundTrip.SendReceive` | src/eXosip/eXtl_tcp.c:1013-1066 | any list of well-formed messages, sent with any partial writes and received in any chunks, arrives as that list in order |
| `TcpRoundTrip.AtoiOfPrint` | src/eXosip/eXtl_tcp.c:402-410 | a printed length reads back as itself |
| `TcpRoundTrip.ComposedIsWellFormed` | src/eXosip/eXtl_tcp.c:383-416 | plain headers with their correct Content-Length and any body form a well-formed message |
| `WordWrap.Advance` | project/sipServerImC/cxxopts.hpp:1900-1929 | one character of the loop: a break is taken exactly where the greedy cut of the line is, with the cursor moved back to it |
| `WordWrap.Wrap` | project/sipServerImC/cxxopts.hpp:1888-1964 | the loop terminates, never reads past the sentinel, and emits the greedily cut lines with their indents |
| `WordWrapLayout.CutExactly` | project/sipServerImC/cxxopts.hpp:1900-1929 | a line is cut after the newlines if one comes within `allowed` characters, else after the last space or tab among them, else after them all, and not at all if the rest fits |
| `WordWrapLayout.JoinedIsLaidOut` | project/sipServerImC/cxxopts.hpp:1931-1950 | each piece stands in the output unchanged, a newline is added behind it only if it has none, and exactly the indent precedes the next |
| `WordWrap.LinesAreNarrow` | project/sipServerImC/cxxopts.hpp:1888-1964 | no line of the output is longer than `allowed` besides its indent |
| `WordWrap.PiecesCover` | project/sipServerImC/cxxopts.hpp:1888-1964 | the emitted pieces are the text, up to its sentinel, or up to a last line that is blank in the positions the loop looks at |
| `WordWrap.ContentKept` | project/sipServerImC/cxxopts.hpp:1837-1965 | the text kept is a prefix of the description, the tail is blank after its first character, and that character is a letter exactly in the lone-letter case |
| `WordWrap.LoneLetterIsLost` | project/sipServerImC/cxxopts.hpp:1904-1962 | "ab c" at width 3 loses its last letter |
| `WordWrap.ExpandTabs` | project/sipServerImC/cxxopts.hpp:1860-1886 | the loop widens each tab to the next multiple of eight columns of its line |
| `WordWrap.ExpansionKeepsText` | project/sipServerImC/cxxopts.hpp:1860-1886 | expansion leaves no tab and changes nothing but blanks |
| `WordWrapLayout.ExpandedAdds` | project/sipServerImC/cxxopts.hpp:1860-1886 | a tab becomes one to eight spaces up to a multiple of eight columns of its line, any other character itself |
| `WordWrapLayout.DefaultIsShown` | project/sipServerImC/cxxopts.hpp:1848-1858 | the default value is shown, in quotes if empty, unless there is none or it is a flag's "false" |
| `WordWrap.FormatDescription` | project/sipServerImC/cxxopts.hpp:1837-1965 | the printed description is the wrapped, tab-expanded text with its default value |
| `CommandLines.ParsedExactly` | project/sipServerImC/cxxopts.hpp:2176-2343 | a command line is accepted with a ledger if and only if the ledger is truthful, which is said token by token without the parser; so no command line has two truthful ledgers |
| `CommandLines.RefusedExactly` | project/sipServerImC/cxxopts.hpp:2176-2343 | a command line is refused if and only if it has no truthful ledger |
| `CommandLines.GroupFollows` | project/sipServerImC/cxxopts.hpp:2222-2264 | entries that are those of the letters of a group, in order, are what parsing the group sets |
| `Options.Accounting` | project/sipServerImC/cxxopts.hpp:2176-2343 | an accepted command line is classed token by token, each exactly once: a flag sets its own option or letters, in order, to the value written in it, implied or next; a token is taken exactly when the flag before it needs it; a positional token fills the first positional option that has room; an unmatched one is an unknown flag or found no positional option with room |
| `Options.ConsumeExactly` | project/sipServerImC/cxxopts.hpp:2114-2142 | with all before `next` filled, a token goes to the first positional option with room, whatever `next` is, and is left over if and only if there is none |
| `Options.ScanKeepsLedger` | project/sipServerImC/cxxopts.hpp:2185-2303 | the main loop ends at the end of the arguments or just after `--`, with such a ledger, no flag left waiting for its value, and every positional option before the cursor filled |
| `Options.GroupEntries` | project/sipServerImC/cxxopts.hpp:2222-2264 | the entries of a group are those of its letters in order, and the next token is taken exactly when only the last letter needs a value |
| `Options.FlagEntries` | project/sipServerImC/cxxopts.hpp:2222-2298 | the entries of a flag are the ones it denotes, and whether it takes the next token can be seen from it |
| `Options.RemainingKeepsLedger` | project/sipServerImC/cxxopts.hpp:2322-2337 | after `--` each token fills the first positional option that has room, and once none has, the rest is unmatched |
| `OptionGrammar.MatchedExactly` | project/sipServerImC/cxxopts.hpp:651-699 | an argument is the flag that its characters spell: `--name`, `--name=value` with a name of two or more letters, digits, dashes and underscores, or `-abc`, and nothing else |
| `OptionGrammar.NoFlagExactly` | project/sipServerImC/cxxopts.hpp:651-699 | an argument is no flag if and only if it spells none of these |
| `Rendering.RoundTrip` | project/sipServerImC/cxxopts.hpp:2222-2298 | settings written as `--name=value`, `--name value`, `--name` with an implicit value, or groups `-abc`, `-abctext`, `-abc value`, in any mix, are accepted if and only if each value, and each default still needed, is of its type; then the values come back under their options' names, in order, and nothing is unmatched |
| `Rendering.TwoTokens` | project/sipServerImC/cxxopts.hpp:2292-2296 | `--name value` gives that value to an option without an implicit one, and leaves nothing over |
| `Rendering.GroupSets` | project/sipServerImC/cxxopts.hpp:2222-2264 | a group sets the implicit values of its letters, and the last letter to what is implied, stands behind it or comes next |
| `Rendering.RenderedFlagMeans` | project/sipServerImC/cxxopts.hpp:2265-2298 | in a truthful ledger a token `--name=value` stands for that option with that value and nothing else, and takes no further token |
| `Refusals.RefusalMeans` | project/sipServerImC/cxxopts.hpp:2185-2337 | a refused command line has an argument with the fault the error names, behind a truthful ledger of those before it, or a needed default that is not of its type |
| `Refusals.UnmatchedInOrder` | project/sipServerImC/cxxopts.hpp:2210-2216 | the leftover arguments are the unmatched ones in the order of the command line |
| `Refusals.CountIsNumber` | project/sipServerImC/cxxopts.hpp:2055-2069 | the count of an option is the number of entries that carry its hash |
| `OptionParser.ParseArgument` | project/sipServerImC/cxxopts.hpp:651-699 | the character loop recognises exactly the long and short option forms of the specification |
| `OptionParser.OptionParser.ParseOption` | project/sipServerImC/cxxopts.hpp:2055-2069 | a value is recorded once, and the count of its option grows with the sequential list |
| `OptionParser.OptionParser.CheckedParseArg` | project/sipServerImC/cxxopts.hpp:2071-2105 | the next argument is taken as the value, or the implicit value is used, or the value is missing |
| `OptionParser.OptionParser.ParseGroup` | project/sipServerImC/cxxopts.hpp:2222-2264 | a group of short options parses letter by letter, the last may take a value |
| `OptionParser.OptionParser.ConsumePositional` | project/sipServerImC/cxxopts.hpp:2114-2142 | a positional fills the next option that still has room |
| `OptionParser.OptionParser.TurnAt` | project/sipServerImC/cxxopts.hpp:2185-2303 | one turn of the loop extends the ledger as the specification does |
| `OptionParser.OptionParser.ParseRemaining` | project/sipServerImC/cxxopts.hpp:2322-2337 | the second loop refines its specification |
| `OptionParser.OptionParser.ParseDefaults` | project/sipServerImC/cxxopts.hpp:2305-2320 | every option without a value gets its default, or the first refused default is an error |
| `OptionParser.OptionParser.FinaliseAliases` | project/sipServerImC/cxxopts.hpp:2345-2358 | every name leads to the record of its option, and no other name leads anywhere |
| `OptionParser.OptionParser.Parse` | project/sipServerImC/cxxopts.hpp:2176-2343 | the result has the sequential list and the unmatched list of the ledger, each option's count is the number of its entries, and its store holds its default exactly if it has one and was given no value before `--` |
| `Integers.IntegerParser` | project/sipServerImC/cxxopts.hpp:861-916 | the accumulating loop accepts and rejects as specified, and an accepted value is in the range of its type |
| `Integers.CheckedNegate` | project/sipServerImC/cxxopts.hpp:844-852 | for u up to 2^(N-1) the result is -u and no step leaves the range |
| `Integers.SizesArePowers` | project/sipServerImC/cxxopts.hpp:810-833 | the types hold 2^8, 2^16, 2^32 and 2^64 numbers, half of them negative when signed |
| `Integers.SplitExactly` | project/sipServerImC/cxxopts.hpp:562-589 | a text is split into sign, prefix and numeral in the one way in which they make up the text |
| `Integers.AccumulatedExactly` | project/sipServerImC/cxxopts.hpp:876-904 | the digit loop refuses exactly wrong digits and digits overtaken by the carry they drop, and otherwise ends with the numeral modulo 2^N |
| `Integers.AcceptedIsCongruent` | project/sipServerImC/cxxopts.hpp:861-916 | an accepted value is congruent to the numeral modulo 2^N |
| `Integers.FittingIsExact` | project/sipServerImC/cxxopts.hpp:861-916 | a decimal or hexadecimal numeral that fits the type is accepted with its exact value, unless it has a minus sign and the type is unsigned |
| `Integers.NegativeZeroRefused` | project/sipServerImC/cxxopts.hpp:854-859 | "-0" is refused for an unsigned type, although its value is in range, and accepted for a signed one |
| `Integers.ParseUndoesPrint` | project/sipServerImC/cxxopts.hpp:562-589 | every value of every type, printed in either radix, parses back to itself |
| `Integers.OverflowDetected` | project/sipServerImC/cxxopts.hpp:897-906 | for every type, a numeral outside it is refused if and only if one of its digits adds less than the carry it drops, or its sign leaves the type no room for the final residue; otherwise it is accepted with a wrong value |
| `Integers.OverflowMissed` | project/sipServerImC/cxxopts.hpp:897-903 | 300 is accepted as 44, by the unsigned and by the signed 8-bit type |
| `DnsName.Expand` | src/eXosip/eXutils.c:2273-2335 | the loop ends on every input, succeeds exactly when the budgeted expansion exists and fits, and writes its escaped text, a NUL, and nothing outside the buffer |
| `DnsName.NameIsDenoted` | src/eXosip/eXutils.c:2273-2335 | an expansion follows labels and compression pointers as section 4.1.4 of RFC 1035 says |
| `DnsName.DenotedIsName` | src/eXosip/eXutils.c:2286-2328 | a name the message denotes is the one expanded if and only if it has no pointer or the octets gone through up to its last pointer are fewer than the message has |
| `DnsName.DenotesIsUnique` | src/eXosip/eXutils.c:2273-2335 | a position of the message denotes at most one name |
| `DnsNameCodec.PointerDenotes` | src/eXosip/eXutils.c:2316-2325 | a pointer holds fourteen bits of offset, the high ones first: the name there is the one at the offset, one hop further |
| `DnsNameCodec.PlainRoundTrip` | src/eXosip/eXutils.c:2273-2335 | a name written label by label expands to its labels |
| `DnsNameCodec.CompressedRoundTrip` | src/eXosip/eXutils.c:2273-2335 | labels followed by a pointer expand to them and the labels it leads to, unless the octets up to the last pointer reach the size of the message |
| `DnsNameCodec.SuffixRoundTrip` | src/eXosip/eXutils.c:2273-2335 | a name compressed against a whole one before it always expands |
| `DnsNameCodec.TextRoundTrip` | src/eXosip/eXutils.c:2293-2314 | the labels can be read back from the text, whatever octets they hold |
| `DnsName.CyclesAreRefused` | src/eXosip/eXutils.c:2318-2327 | a name that leads back to itself is refused |
| `SrvOrder.RecordSort` | src/eXosip/eXutils.c:794-816 | the bubble sort ends and leaves the entries in priority order, stably reordered, the rest of the array untouched |
| `SrvOrder.SortedNeighbours` | src/eXosip/eXutils.c:794-816 | the order is reached exactly when no neighbours stand the wrong way round, the condition the passes end on |
| `SrvOrder.Pass` | src/eXosip/eXutils.c:800-814 | a pass removes as many inversions as it swaps, and none left means sorted |
| `SrvOrder.SwapUndoesInversion` | src/eXosip/eXutils.c:803-811 | swapping two neighbours out of order removes exactly one inversion |
| `SrvOrder.StableIsPermutation` | src/eXosip/eXutils.c:794-816 | a stable reordering is a permutation |
| `SrvOrder.SrvRecord.Rotate` | src/eXosip/eXutils.c:922-936 | the index moves to the next entry, wrapping, and the number of other entries is returned |
| `SrvOrder.SrvRecord.RotateThroughAll` | src/eXosip/eXutils.c:922-936 | n rotations over n entries visit each once and come back |
| `SrvOrder.EachEntryOnce` | src/eXosip/eXutils.c:922-936 | each entry is the index after exactly one of n rotations |
| `NaptrCache.Cache.Naptr` | src/eXosip/eXutils.c:3188-3319 | a lookup returns the first cached record of the domain or a new one; one that only consults the cache gets that record unless it is to be retried or not supported; a record with an answer is not touched, one to be retried is asked again; a new one is cached only while there are fewer than ten, keeps the flags right, and keeps the domains distinct if and only if the name the field holds is not cached already, which takes a domain of 512 octets or more |
| `NaptrCache.Cache.CacheMeans` | src/eXosip/eXutils.c:3188-3319 | in every run at most ten records, each one once and flagged, no domain twice unless it was cut or refused |
| `NaptrCache.Cache.ProcessAll` | src/eXosip/eXutils.c:3223-3238 | the SRV queries of every cached record are made exactly if they are pending |
| `NaptrCache.Ask` | src/eXosip/eXutils.c:3293-3318 | one NAPTR query, then the SRV queries if it succeeded and its answer calls for them |
| `NaptrCache.Cache.FoundByLetters` | src/eXosip/eXutils.c:3201-3221 | the record found is the first whose domain differs only in the case of letters |
| `NaptrCache.Cache.OverlongIsCachedTwice` | src/eXosip/eXutils.c:2995-2998 | a domain of 512 octets or more is cached at each of two calls, under the 511 octets or nothing that the field keeps |
| `NaptrCache.Cache.Refresh` | src/eXosip/eXutils.c:3293-3318 | a cached record is asked again in place |
| `NaptrCache.Cache.Add` | src/eXosip/eXutils.c:3264-3319 | a new record joins the list exactly when asked for and there is room, and loses its flag otherwise |
| `NaptrCache.Cache.Release` | src/eXosip/eXutils.c:3327-3335 | a cached record is never freed, any other is |
| `Ipv6Text.FindElided` | src/eXosip/inet_ntop.c:188-212 | the two-run loop finds the leftmost longest run of two or more zero groups (sections 4.2.2 and 4.2.3 of RFC 5952) |
| `Ipv6Text.ElidedIsUnique` | src/eXosip/inet_ntop.c:188-212 | there is only one such run |
| `Ipv6Text.NothingElided` | src/eXosip/inet_ntop.c:185-212 | no run is elided exactly if no two neighbouring words are zero |
| `Ipv6Text.ElidedIsLongest` | src/eXosip/inet_ntop.c:185-212 | the run elided is all zeros, none is longer and none as long comes before it |
| `Ipv6Text.EmbeddedExactly` | src/eXosip/inet_ntop.c:228-233 | the dotted form is used exactly for six leading zero words before a nonzero one, or five and ffff |
| `Ipv6Text.RoundTrip` | src/eXosip/inet_ntop.c:160-254 | a separate parser reads the 16 octets back from the text of every address |
| `Ipv6Text.Ipv4RoundTrip` | src/eXosip/inet_ntop.c:133-153 | a separate parser reads the 4 octets back from the dotted text |
| `Ipv6Text.Ntop6` | src/eXosip/inet_ntop.c:160-254 | the local buffer always suffices, the result is that text or, when the caller's buffer is too small, nothing |
| `Base64.TableByCode` | src/eXosip/jauth.c:373-421 | the characters stand for 0 to 63 as in table 1 of RFC 4648 |
| `Base64.BlockIsNumber` | src/eXosip/jauth.c:423-500 | four characters and three octets are one number of 24 bits |
| `Base64.OctetsAreNumber` | src/eXosip/jauth.c:373-421 | the same for decoding |
| `Base64.DecodeUndoesEncode` | src/eXosip/jauth.c:373-500 | decoding the encoding of any octets gives them back, and the encoding has the promised length |
| `Base64.PaddingActsAsOnes` | src/eXosip/jauth.c:373-421 | padding before the last block counts as six one bits |
| `Base64.EncodedIsCanonical` | src/eXosip/jauth.c:423-500 | every encoding is canonical: whole blocks, padding only at the end, unused bits zero |
| `Base64.EncodeUndoesDecode` | src/eXosip/jauth.c:373-500 | encoding the decoding of a canonical text gives it back |
| `Base64.DecodeString` | src/eXosip/jauth.c:373-421 | the loop stays inside its allocation, terminates it and returns the decoded octets and their number |
| `Base64.EncodeString` | src/eXosip/jauth.c:423-500 | the same for the encoder |
| `NonceTable.AuthTable.Store` | src/eXosip/jauth.c:836-876 | a store puts the challenge with count 1 into the entry of its key or into a free slot, fails exactly when the key is absent and the table full, and touches no other key; a call-id of 64 octets or more is cut and gets a further slot each time; with all keys distinct, a store duplicates one if and only if the call-id is that long and its cut key is held |
| `NonceTable.AuthTable.LongIsNeverFound` | src/eXosip/jauth.c:843-863 | no entry is ever found under a call-id that does not fit its field |
| `NonceTable.SameKeyByLetters` | src/eXosip/jauth.c:847-849 | two keys are one if call-ids and realms differ only in the case of letters and the realms are both there or both missing |
| `NonceTable.AuthTable.Delete` | src/eXosip/jauth.c:878-896 | one entry of the call-id goes, or there is none |
| `NonceTable.SameCallIdByLetters` | src/eXosip/eXosip.c:1246-1250 | the entries used are those whose call-id differs only in the case of letters |
| `NonceTable.AuthTable.UseCached` | src/eXosip/eXosip.c:1239-1280 | the loop raises the count of every entry of the call-id and reports the counts used; a pass that fails has done so for the slots before the one it stops at and leaves the later ones alone |
| `NonceTable.UpdateLookup` | src/eXosip/jauth.c:836-896 | writing a slot changes the map at its key and at the key it had, and keeps keys distinct |
| `NonceTable.WriteAgrees` | src/eXosip/jauth.c:836-896 | each write keeps the table in agreement with the history of stores, uses and deletions |
| `NonceTable.NonceCounts` | src/eXosip/eXosip.c:1239-1280 | between two stores to a key its uses carry the counts 2, 3, 4 and so on (nc-value, section 3.2.2 of RFC 2617) |
| `Retransmission.Dialog.Set200Ok` | src/eXosip/jdialog.c:91-106 | storing a 200 OK starts a new series of tries |
| `Retransmission.Dialog.ProcessAck` | src/eXosip/udp.c:208-211 | the ACK ends it |
| `Retransmission.TriesKeepSchedule` | src/eXosip/eXosip.c:680-692 | every try is at most the ninth of its 200 OK; the first comes after the armed timer, the second more than 1 second after the first, the third more than 2 after that, every further one more than 4 after the one before |
| `Retransmission.TimerInNumbers` | src/eXosip/eXosip.c:680-692 | the first try sets the timer 1 second ahead, the second 2, each further one 4 |
| `Retransmission.TryIsInOrder` | src/eXosip/eXosip.c:661-692 | a try is in order exactly when the timer has run out and at most eight came before it, giving up exactly after nine |
| `Retransmission.NineTriesBeforeGivingUp` | src/eXosip/eXosip.c:671-701 | in any history a 200 OK is given up only after exactly nine tries, each after the delay 1, 1, 2, 4, 4 and so on set before it |
| `Retransmission.AtMostNineTries` | src/eXosip/eXosip.c:671-701 | no 200 OK is tried more than nine times |
| `Retransmission.Call.Pass` | src/eXosip/eXosip.c:669-702 | the pass ends although the cursor jumps back, and does to each dialog exactly what its state and its place in the list call for |
| `Retransmission.NothingLeftDue` | src/eXosip/eXosip.c:669-702 | after the pass no dialog waits past its timer with tries left |
| `Retransmission.DueIsTried` | src/eXosip/eXosip.c:684-697 | the first thing a pass logs for a due dialog is its try, carrying the first dialog's answer unless that was dropped |
| `Retransmission.OwnAnswerIsCarried` | src/eXosip/eXosip.c:695-697 | in the log a pass leaves, the try of a due dialog carries its own 200 OK if and only if the dialog is first or the first one's answer is the same and not dropped |
| `Retransmission.SecondAnswerIsNotResent` | src/eXosip/eXosip.c:695-697 | whatever a pass makes of a forked call, the try for the second dialog carries the first dialog's answer |
| `Retransmission.PassOverForkedCall` | src/eXosip/eXosip.c:669-702 | that call, built by the code's own steps, and the log its pass leaves |
| `Retransmission.LoneDialogResendsItsOwn` | src/eXosip/eXosip.c:695-697 | in a call with one dialog every try carries its own 200 OK (section 13.3.1.4 of RFC 3261) |
| `Retransmission.RetransmitLost200Ok` | src/eXosip/eXosip.c:661-705 | every call with an identifier and a dialog gets its pass, the others are left alone |
| `Ownership.Context.EachInOnePlace` | src/eXosip/eXconf.c:208-262 | each transaction created is held by exactly one owner, or was freed once, or was lost once |
| `Ownership.Context.DialogFree` | src/eXosip/jdialog.c:212-243 | both lists are drained to the garbage list and nothing else changes hands |
| `Ownership.Context.CallFree` | src/eXosip/jcall.c:97-123 | the dialogs and both slots of a call end up in the garbage list |
| `Ownership.Context.FreeReg` | src/eXosip/jreg.c:125-151 | a registration's transaction goes to the garbage list with it |
| `Ownership.Context.FreePub` | src/eXosip/jpublish.c:123-133 | the same for a publication |
| `Sessions.SendInitialInvite` | src/eXosip/eXcall_api.c:240-279 | a new call owns its INVITE |
| `Sessions.CreateTransaction` | src/eXosip/eXcall_api.c:40-67 | the transaction joins the dialog, and is lost exactly when there is none |
| `Sessions.CreateOutsideDialog` | src/eXosip/eXcall_api.c:69-92 | a CANCEL or MESSAGE goes straight to the garbage list |
| `Sessions.SendRequest` | src/eXosip/eXcall_api.c:494-574 | a request joins its dialog unless the dialog is unknown or a request is pending |
| `Sessions.RetryRequest` | src/eXosip/eXcall_api.c:1359-1392 | the retry of the call's INVITE replaces it and frees the dialog, any other joins the dialog, and nothing is lost |
| `Sessions.Terminate` | src/eXosip/eXcall_api.c:895-989 | which of CANCEL, 603, BYE and refusal a call gets; the new transaction of a CANCEL or BYE is owned, and a 603 or a refusal creates none |
| `Sessions.ProcessNewInvite` | src/eXosip/udp.c:413-497 | an INVITE gets a call and a dialog; one with a To tag is lost exactly when its refusal could be built |
| `Sessions.ProcessInDialog` | src/eXosip/udp.c:128-169 | a request inside a dialog joins it or the garbage list |
| `Sessions.RemoveFromCall` | src/eXosip/misc.c:37-81 | the search in four places finds a transaction exactly when the call holds it, and takes out that one |
| `Sessions.ExpireTransaction` | src/eXosip/udp.c:1621-1632 | a broken transaction moves from its call to the garbage list |
| `Sessions.ReleaseFinished` | src/eXosip/udp.c:1703-1769 | a finished transaction moves from its dialog to the garbage list |
| `Sessions.ReleaseCall` | src/eXosip/udp.c:1800-1807 | a released call leaves its transactions to the garbage list |
| `Sessions.PurgeGarbage` | src/eXosip/udp.c:1995-2019 | the clean-up frees exactly the finished transactions of the list, each once, and leaves the others in order |
| `Sessions.BuildRegister` | src/eXosip/eXregister_api.c:104-125 | a finished REGISTER is discarded before the new one is built, even when building fails |
| `Sessions.SendRegister` | src/eXosip/eXregister_api.c:324-375 | the registration owns the new REGISTER; one it still kept is lost exactly when the caller supplied the new one |
| `Sessions.SendBuiltRegister` | src/eXosip/eXregister_api.c:343-364 | supplying a REGISTER to a registration that keeps none loses nothing |
| `Sessions.FirstRegisterIsLost` | src/eXosip/eXregister_api.c:364 | two REGISTERs of the caller's in a row lose the first |
| `Sessions.Publish` | src/eXosip/eXpublish_api.c:157-174 | the publication owns the new transaction and the old one goes to the garbage list |
| `Sessions.Quit` | src/eXosip/eXconf.c:208-262 | the teardown leaves nothing held: every transaction created was freed or had been lost |
| `Sessions.FreedOnce` | src/eXosip/eXconf.c:243-262 | a run that lost nothing has freed each transaction it created exactly once |
| `Registrations.Registration.OneUnfinished` | src/eXosip/eXregister_api.c:343-364 | a registration has at most one unfinished REGISTER (section 10.2 of RFC 3261) |
| `Registrations.Registration.ChainCounts` | src/eXosip/eXregister_api.c:130-156 | along rebuilt REGISTERs the CSeq counts up by one under one Call-ID |
| `Registrations.Registration.Build` | src/eXosip/eXregister_api.c:93-223 | refused while one is unfinished; otherwise the last one is given up and the next has CSeq one higher and the right Expires, unless a 423 lacks its headers |
| `Registrations.Registration.BuildFor` | src/eXosip/eXregister_api.c:226-322 | the period asked for is zero or at least 30 and is the Expires of the REGISTER built |
| `Registrations.Registration.Send` | src/eXosip/eXregister_api.c:324-375 | a REGISTER is sent only when none is unfinished, and one built from the last one continues the chain |
| `Registrations.Registration.AutomaticAction` | src/eXosip/eXosip.c:991-1014 | the timer sends exactly when a refresh or a challenge is due and the last REGISTER is finished and can be rebuilt, at most three times for challenges |
| `Registrations.Registration.MarkExpired` | src/eXosip/eXosip.c:1413-1428 | when a connection is lost the kept REGISTER is made one period older, and is then due for a refresh |
| `Registrations.Registration.RefreshAfterLoss` | src/eXosip/eXosip.c:991-1014 | after that the next turn of the timer sends the successor of a finished REGISTER that can be rebuilt |
| `Registrations.RefreshInNumbers` | src/eXosip/eXosip.c:991-1004 | a refresh is due after 900 seconds, when more than nine tenths of the period or all but six seconds of it are over, or after 120 seconds without a 2xx |
| `Registrations.ChallengeInNumbers` | src/eXosip/eXosip.c:1005-1013 | a 401, 407 or 423 is answered within 120 seconds when no refresh is due, three times at most |
| `Registrations.Registration.RetryRegister` | src/eXosip/eXosip.c:396-414 | after three tries without a success the retry is refused |
| `Registrations.Registration.Answered` | src/eXosip/jcallback.c:975-999 | the period becomes the server's value exactly when that is more than 15 seconds shorter, then the contact's own exactly when that is so or longer; the retries start again |
| `Registrations.Registration.UnobeyableIntervalStopsRefreshing` | src/eXosip/eXregister_api.c:158-181 | when a refresh or a challenge is due, a 423 without its headers leaves the registration with nothing to refresh, then and later |
| `Registrations.NextNumberFits` | src/eXosip/eXregister_api.c:147-155 | the next CSeq always fits the buffer of the old length plus two |
| `Identifiers.Numbering.Update` | src/eXosip/eXosip.c:1049-1116 | the nested loops number calls, subscriptions, notifications and dialogs in list order from the counter, wrapping it only when it stands at 32767 |
| `Identifiers.Numbering.UpdateBeforeWrap` | src/eXosip/eXosip.c:1049-1116 | without the wrap all positive numbers stay distinct, the living keep theirs and all get one |
| `Identifiers.Numbering.UpdateAtWrap` | src/eXosip/eXosip.c:1061-1062 | the wrap keeps numbers distinct if and only if it hands out none in use |
| `Identifiers.Numbering.AddSession` | src/eXosip/jcall.c:58-68 | a new call, subscription or notification has no number yet and disturbs none |
| `Identifiers.Numbering.AddDialog` | src/eXosip/jdialog.c:162-209 | the same for a new dialog of any of them |
| `Identifiers.Numbering.EndDialog` | src/eXosip/eXcall_api.c:985-987 | a dialog that is over keeps its number until the next update |
| `Identifiers.Numbering.RemoveDialog` | src/eXosip/udp.c:1791-1793 | a dialog that leaves its list disturbs no number |
| `Identifiers.Numbering.RemoveSession` | src/eXosip/udp.c:1800-1807 | the same for a call, subscription or notification with its dialogs |
| `Identifiers.DistinctIffUnused` | src/eXosip/eXosip.c:1064-1113 | numbers given from any start stay distinct exactly when none of them is in use |
| `Identifiers.NumbersInOrder` | src/eXosip/eXosip.c:1064-1113 | holders that wait get the start and the numbers after it, in list order |
| `Identifiers.NumberingIsStable` | src/eXosip/eXosip.c:1064-1079 | the living keep their number, the others lose it |
| `Identifiers.WrappedNumbersCollide` | src/eXosip/eXosip.c:1061-1067 | after the wrap an old call and a new one can share number 1 |
| `Identifiers.Numbering.Unambiguous` | src/eXosip/jdialog.c:35-87 | at most one call, dialog or subscription has a positive number |
| `Identifiers.Numbering.CallFind` | src/eXosip/jcall.c:35-50 | lookup finds the call with the number, if there is one, and nothing else has that number |
| `Identifiers.Numbering.CallDialogFind` | src/eXosip/jdialog.c:35-51 | the same for a dialog |

## Left out

- TLS, DTLS, sockets, select, certificate stores, c-ares and Windows DNS calls: I/O and foreign libraries; a read, write or answer is an arbitrary value.
- The copy of the framing loop in `eXtl_tls.c`: it repeats the TCP one.
- The transaction state machines, the message parser and the list library of osip: a list is a sequence, and a transaction only moves forward.
- MD5, Milenage and the digest values: opaque.
- Subscriptions and notifications outside `Identifiers`: their teardown would repeat the one of calls.
- Allocation failures, tracing, locking and wake-up pipes.
- TcpFraming.ChunkIndependence: atoi is modelled as glibc's, which saturates to a long and then keeps the low 32 bits; sums of lengths are not bounded to 32 bits.
- TcpRoundTrip.ComposedIsWellFormed: the other headers must hold no NUL, no blank line and no other length header.
- WordWrap.Wrap: the width is at least one; every caller passes at least ten.
- DnsName.Expand: the two octets after the end of the message must be readable, since the code may look at them.
- SrvOrder.SrvRecord.Rotate: the ten-entry array must have an empty slot after the last entry, as the code assumes.
- NonceTable.NonceCounts: about call-ids no longer one was cut to; entries that share a cut name are counted one by one and not as one key.
- OptionParser.OptionParser.Parse: distinct options have distinct hashes; a typed value is a predicate that says which texts are accepted; the regular-expression matchers and the text of the exceptions are not part of this model.
- Integers.IntegerParser: the numeral is split by the hand-written matcher, not by the regular expression.
- Retransmission.Call.Pass: dialogs that are alive already have an identifier, as every caller of `_eXosip_update` ensures; the BYE sent when a call is given up is an arbitrary success or failure.
- Sessions.CreateTransaction: its only caller always passes a dialog, so the loss without one does not arise from the calls in the repository.
- Sessions.Quit: it ends where the garbage list is empty; the stack then also frees what osip still lists (src/eXosip/eXconf.c:264-267), the lost transactions among it.
- Sessions.RetryRequest: the body that edits the message before the new transaction is created only decides whether there is one.
- Sessions.Publish: the publication exists already; creating one is `Ownership.Context.AddPub`.
- Ownership.Context: a registration and a publication are the same kind of keeper, and a transaction is its number; the pointers back from a transaction to its call and dialog are not part of this model.
- Registrations.Registration.Build: CSeq and Expires are unbounded numbers; the truncation of an Expires text beyond eight characters is not modelled.
- Identifiers.Numbering.Update: the counter is unbounded, so its overflow past 32 bits is not modelled.
- OptionParser.OptionParser.ParseOption: records of options are values; the model does not capture two names sharing one mutable record, only their common hash.
