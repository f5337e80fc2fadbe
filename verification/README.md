# Verified model of the CycloneTCP protocol code

This project models the parts of the repository whose behaviour is hardest to see from the code, and
proves what they promise. `dafny verify dfyconfig.toml` checks everything.

**CoAP messages** (RFC 7252). A message lives in one flat buffer: a header with a token, a
delta-encoded option list, and nothing or `0xFF` and a payload. `OptionCodec` is the option format,
`MessageFormat` the whole message. `Message` (in `CoapMessage`) is the class with the buffer; its
methods edit the bytes in place with memory moves, as the C code does. `View()` decodes the buffer to
an abstract message, so each method is stated as an edit of a list of (number, value) pairs, and
`OptionList` says what such an edit means for the values of each option number. `MessageParse` says
which bytes are accepted, `PayloadRuns` adds runs of payload calls, and `UriOptions` and
`UriRoundTrip` the URI path and query.

**Block-wise transfer** (RFC 7959). `Reader` and `Writer` are the client of `coapClientReadBody` and
`coapClientWriteBody`. All transfer state is in the Block1/Block2 option of the request message, and
every step goes through the message methods above. The server may answer anything; what an honest one,
which picks a block size per response, achieves is proved on top.

**CoAP client requests** (RFC 7252, RFC 7641). `ClientRequest` is the request as a state machine over
its API calls, timer events, received messages and callbacks; `RequestRuns` proves what holds in every
run, `RequestSteps` which event leads where, and `RequestHandle` is the object that the code updates in place, each method refining one step and
`Drive` any sequence of them. `Observe` is the freshness test of notifications on a 24-bit counter and a
32-bit clock, and `ObserveRuns` what it achieves over runs of the request.

**TCP connection states** (section 3.9 of RFC 793). `TcpFsm` has the handlers, the user calls and the
timers as steps, `TcpRuns` what holds in every run, `TcpSteps` which segment leads where and what is
answered, and `TcpSocket` the code as it updates a socket with
early returns, with the run results stated on the object.

**DTLS sessions, calendar, paths.** `DtlsSessions` is the server's session table, `Calendar` the date
conversions, `PathCanonicalize` the two-pass in-place canonicalizer (specified by `PathSpec`,
`PathParts` and `PathReduced`) and `PathMatch` the glob matcher.

Where the code does not keep what one would expect, the model follows the code and the exact condition
is proved:

- A failed replacement in `coapSetOption` has already removed the old option, and the options behind
  it then decode to smaller numbers (`OptionEdits.FailedReplace`, `CoapMessage.FailedReplaceExample`).
- `coapSetOption` checks the size before it encodes the following option again, so it refuses some
  insertions that fit (`CoapMessage.RefusedInVain`, `CoapMessage.RefusedInVainExample`).
- The 16-bit sum in `coapParseOption` wraps; re-formatting a parsed option gives its bytes back exactly
  when the delta itself fits in 16 bits (`OptionCodec.FormatOfParse`).
- `coapClientWriteBody` advances by the reduced block size when a server shrinks it, so the positions
  are right exactly when no earlier acknowledgement shrank the blocks (`BlockWrite.PositionsAreRight`,
  `BlockWrite.ShrunkExample`).
- `coapClientMatchResponse` recognises a Reset for a confirmable request by the message code. RESET is
  entered exactly on a Reset with code 3 and the right identifier (`RequestRuns.ResetEntered`), so with
  real Resets, which are Empty messages, never (`RequestRuns.EmptyResetIgnored`).
- `coapClientCheckSequenceNumber` tests freshness in the OBSERVE state only, and a request leaves that
  state whenever it registers again. A delayed notification is dropped exactly as long as the request has
  not left OBSERVE (`ObserveRuns.NoticeTaken`, `ObserveRuns.RenewalExample`).
- `coapJoinRepeatableOption` drops separators silently when only empty values follow a full buffer
  (`UriOptions.JoinRepeatable`, `UriOptions.LostSeparator`).
- `coapParseMessage` accepts option numbers that wrap (`MessageParse.AcceptedIff`).
- `pathCanonicalize` compares two characters when it looks for a previous "..", so a path is reduced
  completely exactly when no ".." follows a name that merely starts with two dots
  (`PathCanonicalize.Canonicalize`, `PathReduced.BlockedPaths`).
- `tcpShutdown` chooses its branch, waits for the send buffer to drain, and does not look at the state
  again before it sends its FIN. If the peer's FIN arrives during the wait, the connection goes from
  CLOSE-WAIT, or after a reset from CLOSED, to FIN-WAIT-1 and a second FIN can be consumed
  (`TcpRuns.StaleShutdown`, `TcpRuns.ResetShutdownRun`). If the socket is given up during the wait, a
  connection without socket, or a socket that nobody releases, is left (`TcpSteps.NextAccounted`).

Conventions: lengths and indices are unbounded; fixed-width fields wrap explicitly. The message buffer
has one spare byte for the terminator that is written behind a payload. `hide` statements at the top of
a proof only name the definitions that it does not need.

## Model

| member | source | states |
|---|---|---|
| OptionCodec.ParseOfFormat | src/cyclone_tcp/coap/coap_option.c:262-375 | parsing a formatted option, whatever follows it, returns that option and consumes exactly the bytes written |
| OptionCodec.FormatOfParse | src/cyclone_tcp/coap/coap_option.c:133-250 | re-formatting a parsed option reproduces its bytes if and only if its delta is below 2^16 |
| OptionCodec.WrappedDeltaExample | src/cyclone_tcp/coap/coap_option.c:241-243 | bytes whose delta wraps and that re-format differently |
| OptionCodec.FieldLayout | src/cyclone_tcp/coap/coap_option.c:262-375 | the nibble and extension bytes of a delta or length: the value itself below 13, one byte with 13 subtracted, or two bytes in network order with 269 subtracted |
| OptionCodec.OptionLayout | src/cyclone_tcp/coap/coap_option.c:262-375 | an option is the two nibbles, the extension of the delta, the extension of the length and the value, in this order |
| OptionCodec.Format | src/cyclone_tcp/coap/coap_option.c:262-375 | the size is that of header and value, and the first byte is never the payload marker |
| OptionCodec.Parse | src/cyclone_tcp/coap/coap_option.c:133-250 | a parsed option lies inside the input and makes progress |
| OptionCodec.DecodeOfEncode | src/cyclone_tcp/coap/coap_option.c:81-120 | every ascending option list, followed by nothing or a payload, decodes back from its encoding |
| OptionCodec.EncodeOfDecode | src/cyclone_tcp/coap/coap_option.c:81-120 | whatever decodes is ascending and re-encodes to exactly the same bytes |
| OptionCodec.EncodingIsUnique | src/cyclone_tcp/coap/coap_option.c:81-120 | two option lists with the same encoding are equal, and so are their tails |
| OptionCodec.EncodeAppend | src/cyclone_tcp/coap/coap_option.c:81-120 | encodings concatenate when the second list starts from the last number of the first |
| MessageFormat.ParseHeader | src/cyclone_tcp/coap/coap_message.c:112-141 | an accepted header with its token lies inside the message; which headers are accepted is stated by the next five rows |
| MessageFormat.HeaderParses | src/cyclone_tcp/coap/coap_message.c:112-141 | the header built from version 1, a type, a code, an identifier and a token of up to 8 bytes is accepted whatever follows, and ends behind its token |
| MessageFormat.HeaderOfParsed | src/cyclone_tcp/coap/coap_message.c:112-141 | every accepted prefix is the header of a type, code, identifier and token |
| MessageFormat.HeaderUnique | src/cyclone_tcp/coap/coap_message.c:112-141 | of one such tuple only |
| MessageFormat.HeaderErrors | src/cyclone_tcp/coap/coap_message.c:112-141 | any other version is an invalid version, and a token length of 9 to 15 or a missing token an invalid header |
| MessageFormat.ShortHeader | src/cyclone_tcp/coap/coap_message.c:112-120 | fewer than four bytes are an invalid header |
| MessageFormat.DecodeOfEncodeMsg | src/cyclone_tcp/coap/coap_message.c:51-101 | a well-formed message decodes back from its bytes |
| MessageFormat.EncodeOfDecodeMsg | src/cyclone_tcp/coap/coap_message.c:51-101 | bytes that decode are the encoding of a well-formed message |
| OptionList.LocateMeaning | src/cyclone_tcp/coap/coap_option.c:411-460 | where the search stops: at the idx-th occurrence if there is one, else behind all smaller or equal numbers |
| OptionList.SetMeaning | src/cyclone_tcp/coap/coap_option.c:388-531 | setting keeps the list ascending, changes exactly the idx-th value of that number or appends one, and leaves the values of every other number alone |
| OptionList.DeleteMeaning | src/cyclone_tcp/coap/coap_option.c:688-810 | deleting keeps the list ascending, removes exactly the idx-th value of that number if it exists, and leaves every other number alone |
| OptionList.ValuesDetermineList | src/cyclone_tcp/coap/coap_option.c:571-639 | two ascending lists with the same values for every number are the same list |
| OptionEditor.FindOption | src/cyclone_tcp/coap/coap_option.c:411-460 | the byte-level search loop finds the spot of the recursive scan, or its parse error |
| OptionEditor.ScanLocates | src/cyclone_tcp/coap/coap_option.c:411-460 | on a well-formed message the byte offset found is that of the abstract position, and the option there has the reported size |
| OptionEditor.FormatInto | src/cyclone_tcp/coap/coap_option.c:262-375 | formatting into the buffer writes exactly the encoding, also when the value is moved from a place that overlaps it |
| OptionEdits.RefitShrinks | src/cyclone_tcp/coap/coap_option.c:504-527 | after an insertion the next option's header is never longer than it was |
| OptionEdits.RefitGrows | src/cyclone_tcp/coap/coap_option.c:772-805 | after a deletion the next option's header is never shorter, and by how much it grows |
| OptionEdits.GrowthBounded | src/cyclone_tcp/coap/coap_option.c:765-805 | that growth is at most the header of the deleted option |
| OptionEdits.SetDecodes | src/cyclone_tcp/coap/coap_option.c:388-531 | the edited bytes decode to the message with the option set and everything else kept |
| OptionEdits.DeleteDecodes | src/cyclone_tcp/coap/coap_option.c:688-810 | the edited bytes decode to the message without the option and everything else kept |
| OptionEdits.SetSize | src/cyclone_tcp/coap/coap_option.c:480-488 | the size that is compared with the buffer size, in terms of the abstract message |
| OptionEdits.SetSizeExact | src/cyclone_tcp/coap/coap_option.c:480-527 | that size exceeds the size of the result by what the header of the following option shrinks, 0 to 2 bytes: nothing for a replacement or at the end of the list |
| OptionEdits.FailedReplace | src/cyclone_tcp/coap/coap_option.c:462-488 | what a replacement that overflows leaves behind: the old option gone and later numbers shifted down; it equals a clean deletion if and only if the shift is zero or nothing follows |
| CoapMessage.Message.SetOption | src/cyclone_tcp/coap/coap_option.c:388-531 | the in-place edit sets the option in the abstract list, keeps header, other options and payload, and stays within the buffer; it is refused exactly when the message, with the following option as it was, would exceed the buffer, and what then is left |
| CoapMessage.RefusedInVain | src/cyclone_tcp/coap/coap_option.c:480-527 | an edit whose result fits is refused if and only if the result and what the following header shrinks exceed the buffer; only insertions in front of another option |
| CoapMessage.RefusedInVainExample | src/cyclone_tcp/coap/coap_option.c:480-527 | inserting option 290 before option 300 in a message with a payload of 1142 bytes, refused although the result has 1151 of 1152 bytes |
| CoapMessage.FailedReplaceExample | src/cyclone_tcp/coap/coap_option.c:462-488 | a message with options 1, 3 and 5 in which every too long value for option 3 fails and turns option 5 into option 3 |
| CoapMessage.Message.DeleteOption | src/cyclone_tcp/coap/coap_option.c:688-810 | the in-place edit deletes exactly the idx-th occurrence and never makes the message longer |
| CoapMessage.Message.RefitShrink | src/cyclone_tcp/coap/coap_option.c:504-527 | re-encodes the neighbour after an insertion and closes the gap |
| CoapMessage.Message.RefitGrow | src/cyclone_tcp/coap/coap_option.c:772-805 | re-encodes the neighbour after a deletion, making room where its header grows |
| CoapMessage.Message.GetOption | src/cyclone_tcp/coap/coap_option.c:571-639 | returns the idx-th value of the number, or NotFound exactly when there are fewer |
| CoapMessage.GetFromMeaning | src/cyclone_tcp/coap/coap_option.c:571-639 | the byte-level search agrees with the values of the abstract list |
| CoapMessage.Message.GetUintOption | src/cyclone_tcp/coap/coap_option.c:651-677 | the value of the idx-th occurrence as an unsigned integer |
| CoapMessage.Message.SetUintOption | src/cyclone_tcp/coap/coap_option.c:543-558 | stores the shortest big-endian form; refused exactly when setting that value is |
| CoapMessage.ToBytes | src/cyclone_tcp/coap/coap_option.c:543-558 | the loop that drops leading zero bytes computes the shortest form |
| CoapMessage.FromBytes | src/cyclone_tcp/coap/coap_option.c:651-677 | the loop that accumulates bytes computes the 32-bit value |
| CoapMessage.UintRoundTrip | src/cyclone_tcp/coap/coap_option.c:543-677 | every 32-bit value is read back from its form, which has no leading zero byte |
| CoapMessage.BigEndian | src/cyclone_tcp/coap/coap_option.c:651-677 | a byte behind the others is the lowest one of the number, modulo 2^32 |
| CoapMessage.SkipOptions | src/cyclone_tcp/coap/coap_option.c:81-120 | the parse loop stops at the payload marker or the end, or with the error of the first option that does not parse; on a well-formed message it splits header and options from the tail |
| CoapMessage.Message.ParseMessage | src/cyclone_tcp/coap/coap_message.c:51-101 | accepts exactly the bytes whose header and options all parse and whose payload marker has a payload; otherwise the first parse error, or a format error |
| MessageParse.AcceptedIff | src/cyclone_tcp/coap/coap_message.c:51-101 | the accepted bytes in which no option number wraps are exactly the encodings of well-formed messages whose marker has a payload |
| MessageParse.ListDecodes | src/cyclone_tcp/coap/coap_option.c:81-120 | options decode if and only if they all parse and no option number passes 65535 |
| MessageParse.WrappingExample | src/cyclone_tcp/coap/coap_option.c:241-243 | bytes that are accepted although an option number wraps |
| CoapMessage.Message.GetCode | src/cyclone_tcp/coap/coap_message.c:226-241 | the code byte of a well-formed message |
| CoapMessage.Message.GetPayload | src/cyclone_tcp/coap/coap_message.c:324-375 | the payload of a well-formed message |
| CoapMessage.Message.SetPayload | src/cyclone_tcp/coap/coap_message.c:252-313 | replaces the payload and nothing else; a payload that does not fit is an overflow and leaves none |
| CoapMessage.Message.WritePayload | src/cyclone_tcp/coap/coap_message.c:386-456 | appends to the payload and nothing else, or overflows and changes nothing |
| CoapMessage.Message.ReadPayload | src/cyclone_tcp/coap/coap_message.c:468-537 | the next bytes at the read position, as many as fit; end of stream exactly at the end |
| PayloadRuns.WriteAll | src/cyclone_tcp/coap/coap_message.c:386-456 | after any series of writes the payload is what it was followed by the data of the successful calls, with header and options unchanged |
| PayloadRuns.ReadAll | src/cyclone_tcp/coap/coap_message.c:468-537 | any series of reads from the start returns the payload once and in order; end of stream is reported by the first read after the last byte and no earlier one |
| UriOptions.SplitRepeatable | src/cyclone_tcp/coap/coap_option.c:822-864 | stores the non-empty segments over the option's first occurrences, leaves all other options alone, fails exactly when a segment finds no room, and the exact bytes that are left in either case |
| UriOptions.FailedSplit | src/cyclone_tcp/coap/coap_option.c:822-864 | on a message without the option, a failed split leaves exactly the segments in front of the first one without room |
| UriOptions.JoinRepeatable | src/cyclone_tcp/coap/coap_option.c:877-941 | overflows if and only if the joined text up to the last non-empty value does not fit; otherwise returns as much of the joined text as fits, which loses separators silently exactly when the whole text does not fit |
| UriOptions.LostSeparator | src/cyclone_tcp/coap/coap_option.c:899-920 | the path values "a" and "" and a buffer of two characters, where a separator is lost without an error |
| UriOptions.JoinedPath | src/cyclone_tcp/coap/coap_option.c:877-941 | a path is its values with a separator in front of each |
| UriOptions.JoinedQuery | src/cyclone_tcp/coap/coap_option.c:877-941 | a query whose first value is not empty is its values with a "&" between them, and none in front |
| UriOptions.SplitOfJoin | src/cyclone_tcp/coap/coap_option.c:822-941 | splitting a joined list of segments returns the list |
| UriOptions.JoinOfSplit | src/cyclone_tcp/coap/coap_option.c:822-941 | joining a split text drops only empty segments: same segments, same characters, and doing it again changes nothing |
| UriRoundTrip.SplitJoinSplit | src/cyclone_tcp/coap/coap_option.c:822-941 | on one message without the option: split, join and split again; the joined text is the input without empty segments, the second split succeeds and changes nothing, and every other option is unchanged |
| BlockOption.BlockRoundTrip | src/cyclone_tcp/coap/coap_option.h:61-78 | position, M bit and size exponent are read back from the option value for every aligned 32-bit position, so the shift into NUM loses no bits |
| BlockOption.BlockSizeDoubles | src/cyclone_tcp/coap/coap_option.h:76 | block sizes start at 16 and double with each size exponent |
| BlockOption.SmallerDivides | src/cyclone_tcp/coap/coap_client_block.c:467-485 | positions stay aligned when blocks are added or the block size is reduced |
| BlockOption.StoredBlock | src/cyclone_tcp/coap/coap_client_block.c:487-489 | setting one block option makes it the value read back and leaves the other block option, all other options and the header alone |
| BlockOption.StaysRoomy | src/cyclone_tcp/coap/coap_client_block.c:487-489 | a request with room for any value of a block option has it again after one was set |
| BlockOption.StaysAmple | src/cyclone_tcp/coap/coap_client_block.c:205-341 | a request with room for any values of Block1 and Block2, set in any order, keeps it when one of them is set |
| BlockOption.AmpleSize | src/cyclone_tcp/coap/coap_client_block.c:205-341 | 14 spare bytes are enough for that |
| BlockRead.Reader.ReadBody | src/cyclone_tcp/coap/coap_client_block.c:359-545 | with any server: a read appends its data to what was received, a short read or end of stream means that the last block was read to its end, and a Failure that a response was neither a full block at its position nor the last one. With an honest server: the bytes received are the beginning of the body, and all of it after a short read or end of stream; as long as all exchanges succeed and the request has room for the option, a read returns exactly as many bytes as asked for or left |
| BlockRead.Reader.NextBlock | src/cyclone_tcp/coap/coap_client_block.c:398-526 | end of stream exactly when the response is the last block, refused exactly when it is neither that nor a full block of a valid size at this position; otherwise it asks for the position behind it, in the smaller of both block sizes, overflows exactly when that value finds no room in the request, and fails otherwise only after a failed exchange or a response code that is not success |
| BlockRead.Reader.Inspect | src/cyclone_tcp/coap/coap_client_block.c:398-473 | what each response leads to, whatever the server sent: next block, end of stream or refusal; the next position is behind the response and aligned for the next block size |
| BlockRead.Reader.ReadMany | src/cyclone_tcp/coap/coap_client_block.c:359-545 | any series of reads from the start: at end of stream, with any server, the data are the payloads of full blocks one behind the other and of a last one; an honest server's body is delivered as a prefix, whole at end of stream, and with successful exchanges and room exactly as much as the sizes add up to |
| BlockRead.HonestJudged | src/cyclone_tcp/coap/coap_client_block.c:419-455 | an honest response is a full block exactly when more of the body follows it, and the last one exactly when nothing does |
| BlockRead.ProgressNext | src/cyclone_tcp/coap/coap_client_block.c:467-526 | the response to the next request continues the chain of blocks, and the beginning of the body if the server is honest |
| BlockRead.WrapAligned | src/cyclone_tcp/coap/coap_client_block.c:470-476 | a position stays aligned when it passes 2^32 |
| BlockRead.HonestSlice | src/cyclone_tcp/coap/coap_client_block.c:386-397 | a slice of an honest response is the slice of the body at its position |
| BlockRead.AskedMeaning | src/cyclone_tcp/coap/coap_client_block.c:467-489 | the Block2 value of the next request: the position, M clear, and the smaller of both block sizes |
| BlockWrite.Writer.WriteBody | src/cyclone_tcp/coap/coap_client_block.c:144-347 | takes all data or reports an error; a transfer stays open until the last call, which finishes it and clears Block1 and payload. Success means that every request was taken: answered with success and, for a block, with its position and a valid size. With room in the request nothing but a request that is not taken can fail it, with the error of that request |
| BlockWrite.Writer.WriteAll | src/cyclone_tcp/coap/coap_client_block.c:144-347 | for every chunking of a body: the sent payloads concatenate to it, every block but the last is full with M=1, the last has M=0 and announces the preferred size of the response, a single block carries no Block1, every request was taken, and all other options are those of the original request |
| BlockWrite.Writer.SendBlock | src/cyclone_tcp/coap/coap_client_block.c:205-341 | one exchange adds one request to the log and keeps the transfer open or finishes it; it is reported as the server answered it, and overflows only when the request has no room |
| BlockWrite.Writer.Acknowledged | src/cyclone_tcp/coap/coap_client_block.c:261-312 | succeeds if and only if the request was taken; a failed exchange, a code that is not success, a missing Block1 and a wrong position or reserved size each have their own error |
| BlockWrite.Outcome | src/cyclone_tcp/coap/coap_client_block.c:261-305 | no error if and only if the request was taken |
| BlockWrite.Writer.Prepare | src/cyclone_tcp/coap/coap_client_block.c:205-252 | the request that leaves names position, size and M of its block, Block1 only in a transfer of several blocks, and in the last request the preferred size of the response; everything else is kept |
| BlockWrite.MiddleStep | src/cyclone_tcp/coap/coap_client_block.c:280-330 | an acknowledged block moves the cursor and keeps every claim about the log |
| BlockWrite.FinalStep | src/cyclone_tcp/coap/coap_client_block.c:205-341 | the last block completes the log of a finished transfer |
| BlockWrite.PositionsAreRight | src/cyclone_tcp/coap/coap_client_block.c:306-320 | each block's position is the number of bytes sent before it if and only if no earlier acknowledgement shrank the block size, which then stays as configured |
| BlockWrite.ShrunkExample | src/cyclone_tcp/coap/coap_client_block.c:306-320 | a finished transfer with a shrinking acknowledgement in which byte 32 of the body is sent as byte 16 |
| Observe.TwoBranches | src/cyclone_tcp/coap/coap_client_observe.c:133-183 | the two comparisons together say that the new counter is ahead by less than 2^23 modulo 2^24 |
| Observe.ClockTest | src/common/os_port.h:42 | the wrapping clock comparison detects 128 s of silence even across a wrap |
| Observe.AcceptsNewer | src/cyclone_tcp/coap/coap_client_observe.c:133-183 | a client that holds the freshest notification of a regular run finds the next one fresh if and only if its counter is larger, whether or not counter or clock wrap |
| Observe.AcceptsAfterSilence | src/cyclone_tcp/coap/coap_client_observe.c:133-183 | after 128 s of silence any notification is accepted |
| ObserveRuns.HoldsMaximum | src/cyclone_tcp/coap/coap_client_observe.c:54-183 | over every run of the request state machine with regular notifications: from its first notification on, and as long as it does not leave OBSERVE, the request holds the freshest of all notifications received |
| ObserveRuns.ObservesIff | src/cyclone_tcp/coap/coap_client_misc.c:286-312 | a request stays in OBSERVE if and only if no re-registration timer runs out, no call edits, cancels or deletes it, no callback does more than change its time limit, and no response without Observe option arrives |
| ObserveRuns.NoticeTaken | src/cyclone_tcp/coap/coap_client_observe.c:133-183 | a regular notification is passed on if and only if it is newer than all before it or the request is not in OBSERVE; so one that is not newer gets through exactly when the request has left OBSERVE |
| ObserveRuns.AcceptedIncrease | src/cyclone_tcp/coap/coap_client_observe.c:54-183 | in a run in OBSERVE the notifications passed on strictly increase |
| ObserveRuns.ReRegistered | src/cyclone_tcp/coap/coap_client_misc.c:286-312 | in every observation, once the re-registration timer has run out, the next notification is taken however old it is |
| ObserveRuns.RenewalExample | src/cyclone_tcp/coap/coap_client_misc.c:286-312 | a run from a new request with two regular notifications that ends holding the older one |
| RequestRuns.RunInv | src/cyclone_tcp/coap/coap_client_misc.c:195-329 | the transmission counts and timeouts stay consistent with the datagrams sent, in every run |
| RequestRuns.RetransmissionLimits | src/cyclone_tcp/coap/coap_client_misc.c:195-329 | in RECEIVE the timeout is T0 doubled once per retransmission, T0 in the configured range; each message identifier is sent at most COAP_CLIENT_MAX_RETRANSMIT times, a non-confirmable one exactly once |
| RequestRuns.OnlyOwnResponses | src/cyclone_tcp/coap/coap_client_misc.c:429-645 | DONE and OBSERVE are entered only on a message with the request's token (and message identifier, for an acknowledgement); CANCELED on such a message, an API call or a callback that cancels |
| RequestRuns.ResetEntered | src/cyclone_tcp/coap/coap_client_misc.c:429-645 | in every state, a step enters RESET if and only if a message of type Reset arrives in RECEIVE with the identifier of the request and, for a confirmable request, code 3 |
| RequestRuns.ResetInRun | src/cyclone_tcp/coap/coap_client_misc.c:429-645 | over every run, RESET was entered if and only if some step took such a Reset |
| RequestRuns.EmptyResetIgnored | src/cyclone_tcp/coap/coap_client_misc.c:487 | over every run in which all Reset messages are Empty, a confirmable request never enters RESET |
| RequestRuns.SilentWhileSeparate | src/cyclone_tcp/coap/coap_client_misc.c:195-645 | in SEPARATE nothing is sent until the response, the timeout or an API call ends the wait |
| RequestSteps.ElapsedMeaning | src/common/os_port.h:42 | a timer has run out exactly when its true end is reached, whether or not the clock wrapped |
| RequestSteps.TickInReceive | src/cyclone_tcp/coap/coap_client_misc.c:252-291 | TRANSMIT is entered if and only if the request is confirmable, its timer but not its time limit has run out and fewer than four were sent; EXPIRED if and only if the limit is reached or the timer of the last transmission runs out; otherwise nothing changes |
| RequestSteps.TickInSeparate | src/cyclone_tcp/coap/coap_client_misc.c:292-300 | EXPIRED if and only if the time limit is reached; otherwise nothing changes |
| RequestSteps.TickInObserving | src/cyclone_tcp/coap/coap_client_misc.c:301-320 | the request registers again, under a new identifier and with a fresh count, if and only if its timer has run out |
| RequestSteps.TickInTransmit | src/cyclone_tcp/coap/coap_client_misc.c:214-251 | every tick in TRANSMIT sends exactly one datagram and waits for the response; the first timeout is in the configured range, any further one is the last one doubled |
| RequestSteps.Retransmits | src/cyclone_tcp/coap/coap_client_misc.c:214-274 | a confirmable request whose timer runs out is sent once more, under the same identifier, with the next tick |
| RequestSteps.OneDatagram | src/cyclone_tcp/coap/coap_client_misc.c:195-329 | in every step, a datagram is sent if and only if a tick finds the request in TRANSMIT, and then exactly one |
| RequestSteps.ExpiredEarly | src/cyclone_tcp/coap/coap_client_misc.c:265-285 | over every run, a confirmable request that expires before its time limit was sent exactly COAP_CLIENT_MAX_RETRANSMIT times |
| RequestSteps.MessageIds | src/cyclone_tcp/coap/coap_client_misc.c:765-774 | over every run in which the context draws at most 2^16 identifiers, transmissions with the same identifier repeat the same message |
| RequestSteps.MatchesIff | src/cyclone_tcp/coap/coap_client_misc.c:429-558 | the messages that belong to a request: by token, by identifier and token, or by identifier, depending on type and state |
| RequestSteps.DoneEntered | src/cyclone_tcp/coap/coap_client_misc.c:567-645 | a step enters DONE if and only if a matching response that is not Empty arrives for a request without Observe |
| RequestSteps.SeparateEntered | src/cyclone_tcp/coap/coap_client_misc.c:567-645 | a step enters SEPARATE if and only if a matching Empty acknowledgement arrives |
| RequestSteps.ObserveEntered | src/cyclone_tcp/coap/coap_client_observe.c:54-121 | a step enters OBSERVE if and only if a matching response to a registration arrives that has no Observe option or is news |
| RequestSteps.CanceledEntered | src/cyclone_tcp/coap/coap_client_misc.c:567-645 | unless the application cancels, a step enters CANCELED if and only if a matching response arrives that has no Observe option or answers a cancellation |
| RequestSteps.CancelMeaning | src/cyclone_tcp/coap/coap_client_request.c:275-341 | a cancellation that fits leaves the request about to be sent with Observe 1, the same token and a new identifier; any other one releases it |
| RequestSteps.SendMeaning | src/cyclone_tcp/coap/coap_client_request.c:181-198 | a request that was started goes out with the next tick, once, under a new identifier |
| RequestSteps.NoticeTimer | src/cyclone_tcp/coap/coap_client_observe.c:72-110 | a notification that is news sets the timer of the next registration to Max-Age, by default 60 s, and 5 to 15 s more |
| RequestSteps.ReleaseMeaning | src/cyclone_tcp/coap/coap_client_misc.c:361-414 | a request that ends is released after its callback, unless the callback started it again; without a callback it stays in its final state |
| RequestSteps.StartedAgain | src/cyclone_tcp/coap/coap_client_misc.c:396-414 | a callback that starts the request again keeps it, under a new identifier and with its changes |
| RequestSteps.RunSettled | src/cyclone_tcp/coap/coap_client_misc.c:361-414 | over every run, a request with a callback is in no final state between two events |
| RequestSteps.EditMeaning | src/cyclone_tcp/coap/coap_client_request.c:371-405 | the message can be changed before a request starts, while it is observed and when it is over, and in no other state |
| RequestSteps.CreateMeaning | src/cyclone_tcp/coap/coap_client_request.c:67-113 | a free entry becomes a confirmable request without callback; one in use is not touched |
| RequestHandle.Handle.ChangeRequestState | src/cyclone_tcp/coap/coap_client_misc.c:339-418 | the in-place update with its callback is the state-change step |
| RequestHandle.Handle.ProcessRequestEvents | src/cyclone_tcp/coap/coap_client_misc.c:195-329 | the in-place update is the timer step (send, retransmit, expire or re-register) and keeps the transmission invariant |
| RequestHandle.Handle.SendDatagram | src/cyclone_tcp/coap/coap_client_misc.c:214-251 | a transmission keeps counter, log and timeout in step: the identifier was sent as often as the counter says, at most COAP_CLIENT_MAX_RETRANSMIT times, and the timeout is T0 doubled once per retransmission |
| RequestHandle.Handle.ProcessAnswer | src/cyclone_tcp/coap/coap_client_misc.c:567-645 | the in-place update is the response step |
| RequestHandle.Handle.ProcessNotice | src/cyclone_tcp/coap/coap_client_observe.c:54-121 | the in-place update is the notification step |
| RequestHandle.Handle.SendRequest | src/cyclone_tcp/coap/coap_client_request.c:181-198 | only an INIT request is started, with a new message identifier |
| RequestHandle.Handle.CancelRequest | src/cyclone_tcp/coap/coap_client_request.c:275-341 | the in-place update is the cancellation step: re-register with Observe 1, or release |
| RequestHandle.Handle.GenerateMessageId | src/cyclone_tcp/coap/coap_client_misc.c:765-774 | nothing was sent yet under the new identifier, and the limits on all older ones stay |
| RequestHandle.Handle.MatchResponse | src/cyclone_tcp/coap/coap_client_misc.c:429-558 | the nested decision computes the matching relation |
| RequestHandle.Handle.Step | src/cyclone_tcp/coap/coap_client_misc.c:57-188 | any event or call on the object is one step of the state machine and keeps the transmission invariant |
| RequestHandle.Handle.Drive | src/cyclone_tcp/coap/coap_client_misc.c:57-188 | after any sequence of events and calls on a new entry: no identifier was sent more than COAP_CLIENT_MAX_RETRANSMIT times, a non-confirmable one exactly once, the timeout in RECEIVE is T0 doubled, and RESET was entered exactly when a Reset was taken |
| DtlsSessions.SessionTable.Demultiplex | src/cyclone_tcp/coap/coap_server_transport.c:190-303 | delivers to the one matching session if there is one, else takes the first free slot, else evicts the first one of greatest age on the wrapping clock; no two live sessions share addresses and port |
| DtlsSessions.SessionTable.Accept | src/cyclone_tcp/coap/coap_server_transport.c:69-181 | the new session takes the slot, and sessions stay distinct |
| DtlsSessions.SessionTable.Delete | src/cyclone_tcp/coap/coap_server_transport.c:311-323 | exactly one slot becomes free |
| DtlsSessions.SessionTable.Tick | src/cyclone_tcp/coap/coap_server_misc.c:52-103 | exactly the sessions that timed out or failed become free |
| DtlsSessions.AgeMeaning | src/cyclone_tcp/coap/coap_server_transport.c:190-303 | the age on the wrapping clock is the true age, for ages below 2^32 ms |
| DtlsSessions.ExpiryMeaning | src/cyclone_tcp/coap/coap_server_misc.c:52-103 | a session times out exactly when 60 s have passed since its last datagram, in true time |
| Calendar.FromUnixMeaning | src/common/date_time.c:198-249 | every 32-bit time converts to a valid Gregorian date and time that lies exactly that many seconds after 1970, with no overflow that matters |
| Calendar.NegativeTime | src/common/date_time.c:198-208 | a negative time converts to the date of 0 |
| Calendar.CivilMeaning | src/common/date_time.c:222-245 | the closed-form year, month and day are the date whose day number, counted year by year and month by month, is the given one |
| Calendar.ClosedForm | src/common/date_time.c:272-284 | counting days by years and months equals the closed formula |
| Calendar.ToUnixMeaning | src/common/date_time.c:258-292 | the conversion back counts the seconds since 1970 for every valid date below 2^32 |
| Calendar.UnixRoundTrip | src/common/date_time.c:198-292 | time to date to time is the identity on all 32-bit times |
| Calendar.DateRoundTrip | src/common/date_time.c:198-292 | date to time to date is the identity on valid dates without milliseconds |
| Calendar.CompareMeaning | src/common/date_time.c:302-340 | comparing valid dates field by field is negative, zero or positive exactly when the first lies before, at or after the second in milliseconds since 1970 |
| Calendar.CompareConverted | src/common/date_time.c:302-340 | converted dates compare below, equal or above exactly as their timestamps do |
| Calendar.DayOfWeekMeaning | src/common/date_time.c:351-374 | Zeller's congruence agrees with counting days from Thursday 1970-01-01 for every date since |
| Calendar.ConvertedDayOfWeek | src/common/date_time.c:198-249 | the converted day of week is (t / 86400 + 3) mod 7 + 1 |
| PathCanonicalize.Canonicalize | src/common/path.c:112-265 | the result leads to the same place as the input, is never longer, touches nothing behind it, and is the reduced text of that place if and only if no ".." is blocked |
| PathCanonicalize.SqueezeInPlace | src/common/path.c:118-138 | the first pass writes the path with single '/' separators |
| PathCanonicalize.ResolveInPlace | src/common/path.c:140-264 | the second pass writes components that lead to the place of the input, never past the read index |
| PathCanonicalize.TakeComponent | src/common/path.c:148-254 | one component changes the written text as it changes the list of components |
| PathSpec.WalkSqueeze | src/common/path.c:118-138 | squeezing separators does not change where a path leads |
| PathParts.TakeMeaning | src/common/path.c:148-254 | taking in a component moves the place reached by exactly that component, also where ".." is kept |
| PathParts.LocateFinal | src/common/path.c:140-264 | the written text leads where its components lead |
| PathReduced.SettledText | src/common/path.c:199 | the final text is that of the place reached if and only if the path reduces |
| PathReduced.BlockedPaths | src/common/path.c:199 | every "/..x/.." leads to the root and is left unreduced |
| PathReduced.ReducesSqueeze | src/common/path.c:118-138 | squeezing separators does not change whether a path reduces |
| PathMatch.MatchPath | src/common/path.c:370-434 | terminates and returns true if and only if the path matches the pattern's meaning, without case |
| PathMatch.ToLowerMeaning | src/common/path.c:370-434 | two characters are equal without case exactly when they are the same letter in either case or the same character |
| TcpRuns.RunInv | klee/fin_wait_1/fin_wait_1.c:9-78 | in every run each state says which FINs were consumed, sent and acknowledged, and SND.UNA never passes SND.NXT; if tcpShutdown sends no FIN of an open connection after the peer's FIN was consumed, then with at most one FIN consumed |
| TcpRuns.FinTakenOnce | klee/established/established.c:45-59 | in every undisturbed run, RCV.NXT is advanced over the peer's FIN at most once per connection, and never moves again after that |
| TcpRuns.RunFrozen | klee/closing/closing.c:9-45 | in every undisturbed run, however a connection goes on after the peer's FIN, RCV.NXT keeps its value |
| TcpRuns.TimeWaitMeaning | klee/closing/closing.c:34-44 | in every run, TIME-WAIT is reached only after a FIN of the peer was consumed, with RCV.NXT right behind it, and a segment that arrived after our FIN acknowledged it; nothing is outstanding |
| TcpRuns.FinLimits | klee/fin_wait_1/fin_wait_1.c:49-77 | in every run a connection consumes at most two FINs, and at most one if tcpShutdown is undisturbed |
| TcpRuns.FinWait2Leads | klee/fin_wait_2/fin_wait_2.c:38-57 | in every run, from FIN-WAIT-2 a connection reaches only TIME-WAIT and CLOSED, in any number of steps; never CLOSING |
| TcpRuns.HandleMoves | klee/fin_wait_1/fin_wait_1.c:137-143 | every handler moves along the state diagram only, and a reset is recorded |
| TcpRuns.CheckAckGoes | src/cyclone_tcp/core/tcp_misc.c:650-830 | an accepted acknowledgement moves SND.UNA forward on the circle and never past SND.NXT |
| TcpRuns.StaleShutdown | src/cyclone_tcp/core/tcp.c:738-764 | in every state, a reset connection included, the FIN of tcpShutdown is safe for every next segment if and only if the peer's FIN was not consumed during the wait; as long as the connection is open, if and only if the state is still one of the branch that was chosen |
| TcpRuns.StaleShutdownRun | src/cyclone_tcp/core/tcp.c:738-764 | in every open connection, the peer's FIN during the wait leads to a second consumed FIN |
| TcpRuns.ResetShutdownRun | src/cyclone_tcp/core/tcp.c:738-764 | when the peer's FIN and then a reset arrive during the wait, tcpShutdown opens the closed connection again in FIN-WAIT-1 and a second FIN is consumed |
| TcpRuns.StaleShutdownExample | src/cyclone_tcp/core/tcp.c:738-764 | from every new socket some run consumes two FINs in one connection |
| TcpSteps.CmpSeqMeaning | src/cyclone_tcp/core/tcp.h:219 | sequence numbers less than 2^31 apart compare as they would without wrapping |
| TcpSteps.AcceptableIff | src/cyclone_tcp/core/tcp_misc.c:547-605 | a segment is acceptable if and only if its first or last number is less than the window ahead of RCV.NXT; an empty one also at RCV.NXT itself |
| TcpSteps.CheckAckIff | src/cyclone_tcp/core/tcp_misc.c:650-830 | an acknowledgement passes if and only if it is old or covers nothing unsent; it then moves SND.UNA to itself or not at all, and otherwise is answered |
| TcpSteps.TextInOrder | src/cyclone_tcp/core/tcp_misc.c:1085-1145 | text that starts at or before RCV.NXT and ends in the window moves RCV.NXT exactly behind it, shrinks the window by what was new and is acknowledged |
| TcpSteps.TextBeyond | src/cyclone_tcp/core/tcp_misc.c:1085-1145 | text behind a gap changes nothing and is answered with RCV.NXT |
| TcpSteps.TextClipped | src/cyclone_tcp/core/tcp_misc.c:1085-1145 | text that passes the window is taken up to its end |
| TcpSteps.FinInOrder | src/cyclone_tcp/core/tcp_fsm.c:811-827 | without queued blocks, a segment whose text is in order and fits into the window brings its FIN with it |
| TcpSteps.ScreenIff | src/cyclone_tcp/core/tcp_misc.c:547-640 | which segments pass the checks of sequence number, RST and SYN |
| TcpSteps.EstablishedLeads | klee/established/established.c:8-70 | ESTABLISHED leads to CLOSE-WAIT if and only if a segment that passes all checks brings the FIN, and to CLOSED if and only if an acceptable reset arrives |
| TcpSteps.SynReceivedLeads | klee/syn_received/syn_received.c:73-130 | SYN-RECEIVED leads to ESTABLISHED, or with the FIN to CLOSE-WAIT, if and only if a segment that passes the checks acknowledges our SYN, and to CLOSED if and only if an acceptable reset arrives |
| TcpSteps.SynSentLeads | klee/syn_sent/syn_sent.c:9-118 | where SYN-SENT leads, by the SYN, the acknowledgement of ours and a reset |
| TcpSteps.FinWait1Leads | klee/fin_wait_1/fin_wait_1.c:9-78 | FIN-WAIT-1 leads to FIN-WAIT-2, TIME-WAIT or CLOSING by whether a segment that passes all checks acknowledges our FIN and whether it brings the FIN of the peer |
| TcpSteps.FinWait2Goes | klee/fin_wait_2/fin_wait_2.c:9-58 | FIN-WAIT-2 leads to TIME-WAIT if and only if a segment that passes all checks brings the FIN |
| TcpSteps.ClosingLeads | klee/closing/closing.c:9-45 | CLOSING leads to TIME-WAIT if and only if a segment that passes the checks acknowledges our FIN |
| TcpSteps.LastAckLeads | klee/last_ack/last_ack.c:8-40 | LAST-ACK leads to CLOSED if and only if an acceptable reset or the acknowledgement of our FIN arrives |
| TcpSteps.WaitingLeads | klee/close_wait/close_wait.c:9-51 | CLOSE-WAIT and TIME-WAIT are left on an acceptable reset only |
| TcpSteps.LastAckMeaning | klee/last_ack/last_ack.c:8-40 | in every run, a segment that closes a connection in LAST-ACK is an acceptable reset or acknowledges our FIN, which was sent before |
| TcpSteps.Unacceptable | src/cyclone_tcp/core/tcp_misc.c:585-605 | in every synchronized state an unacceptable segment changes nothing and is answered with an acknowledgement, unless it is a reset |
| TcpSteps.SynInWindow | src/cyclone_tcp/core/tcp_misc.c:616-640 | in every synchronized state a SYN in the window changes nothing and is answered with a reset |
| TcpSteps.WrongAck | klee/syn_received/syn_received.c:101-112 | during the handshake a segment that acknowledges anything but our SYN is answered with a reset and otherwise ignored |
| TcpSteps.FinAnswered | klee/established/established.c:45-59 | consuming the FIN moves RCV.NXT behind it, and the new value is acknowledged |
| TcpSteps.FinAnsweredAgain | klee/time_wait/time_wait.c:10-54 | in TIME-WAIT a FIN is acknowledged again, and nothing else is |
| TcpSteps.TextSent | src/cyclone_tcp/core/tcp.c:449-563 | text is sent in ESTABLISHED and CLOSE-WAIT only, as long as what is outstanding fits into the send buffer |
| TcpSteps.ActiveOpen | src/cyclone_tcp/core/tcp.c:115-224 | connecting to a peer that answers with SYN and ACK establishes the connection, with the segments sent |
| TcpSteps.PassiveOpen | src/cyclone_tcp/core/tcp.c:324-420 | accepting a connection whose peer acknowledges our SYN establishes it |
| TcpSteps.ActiveCloseRun | src/cyclone_tcp/core/tcp.c:738-764 | our FIN, its acknowledgement and the FIN of the peer lead through FIN-WAIT-1 and FIN-WAIT-2 to TIME-WAIT and a proper close |
| TcpSteps.PassiveCloseRun | src/cyclone_tcp/core/tcp.c:776-802 | after the FIN of the peer, our FIN and its acknowledgement lead through LAST-ACK to a proper close |
| TcpSteps.CloseFlags | src/cyclone_tcp/core/tcp_misc.c:1764-1790 | a connection that ends in LAST-ACK or TIME-WAIT was closed, any other one reset |
| TcpSteps.AbortMeaning | src/cyclone_tcp/core/tcp.c:873-928 | an abort tells the peers that are still in the connection and releases the socket; in TIME-WAIT it only gives up the ownership |
| TcpSteps.NextAccounted | src/cyclone_tcp/core/tcp.c:873-928 | an event leaves a connection without a socket, or a socket that nobody will release, if and only if it is the FIN of a tcpShutdown whose socket was given up during the wait |
| TcpSteps.RunAccounted | src/cyclone_tcp/core/tcp.c:873-928 | so in every run without such an event, every connection has a socket, and a socket without owner is in TIME-WAIT |
| TcpSteps.AbortedShutdown | src/cyclone_tcp/core/tcp.c:738-764 | an abort during the wait of tcpShutdown leaves FIN-WAIT-1 without a socket |
| TcpSteps.TimeWaitEnds | src/cyclone_tcp/core/tcp_timer.c:244-264 | the end of TIME-WAIT, by its timer or a reset, releases the socket exactly when its user gave it up |
| TcpSteps.OthersGiveUp | src/cyclone_tcp/core/tcp_timer.c:58-241 | in any other state a timer that gives up closes the connection and leaves the socket to its user |
| TcpSocket.Socket.StateSynSent | klee/syn_sent/syn_sent.c:9-118 | the in-place handler is the SYN-SENT step |
| TcpSocket.Socket.StateSynReceived | klee/syn_received/syn_received.c:73-130 | the in-place handler is the SYN-RECEIVED step, which goes on with the same segment in ESTABLISHED |
| TcpSocket.Socket.StateEstablished | klee/established/established.c:8-70 | the in-place handler is the ESTABLISHED step |
| TcpSocket.Socket.StateCloseWait | klee/close_wait/close_wait.c:9-51 | the in-place handler is the CLOSE-WAIT step |
| TcpSocket.Socket.StateLastAck | klee/last_ack/last_ack.c:8-40 | the in-place handler is the LAST-ACK step |
| TcpSocket.Socket.StateFinWait1 | klee/fin_wait_1/fin_wait_1.c:9-78 | the in-place handler is the FIN-WAIT-1 step |
| TcpSocket.Socket.StateFinWait2 | klee/fin_wait_2/fin_wait_2.c:9-58 | the in-place handler is the FIN-WAIT-2 step |
| TcpSocket.Socket.StateClosing | klee/closing/closing.c:9-45 | the in-place handler is the CLOSING step |
| TcpSocket.Socket.StateTimeWait | klee/time_wait/time_wait.c:10-54 | the in-place handler is the TIME-WAIT step |
| TcpSocket.Socket.CheckSequenceNumber | src/cyclone_tcp/core/tcp_misc.c:547-605 | the in-place check is the acceptability test; an unacceptable segment is answered unless it is a reset |
| TcpSocket.Socket.CheckAckField | src/cyclone_tcp/core/tcp_misc.c:650-830 | the in-place check is the acknowledgement step |
| TcpSocket.Socket.ProcessSegment | src/cyclone_tcp/core/tcp_fsm.c:303-381 | the dispatch on the state is one arrival step; it keeps the invariants, moves along the state diagram, and while at most one FIN was consumed leaves RCV.NXT alone after it |
| TcpSocket.Socket.Drive | src/cyclone_tcp/core/tcp_fsm.c:303-381 | after any sequence of segments, calls and timers on a new socket: TIME-WAIT means that a FIN of the peer was consumed last and that a later segment acknowledged ours, and no connection consumed a third FIN |
| TcpSocket.Socket.DriveUndisturbed | src/cyclone_tcp/core/tcp_fsm.c:303-381 | after any undisturbed sequence on a new socket at most one FIN of the peer was consumed in the connection and RCV.NXT is right behind it |
| TcpSocket.Socket.DriveOn | klee/established/established.c:45-59 | after the peer's FIN, any undisturbed sequence of segments, calls and timers in the connection leaves RCV.NXT alone |

## Left out

- CoapMessage.Message.SetOption: on bytes that are not a well-formed message only the bounds and the error cases are stated.
- BlockRead.Reader.ReadBody: a transfer is not resumed after an error. Responses are well-formed messages, of any content.
- BlockWrite.Writer.WriteBody: the claims about the log hold up to the first error, after which the transfer is not resumed.
- BlockWrite.Writer.WriteAll: bodies are below 2^32 bytes, the range of the 32-bit block position.
- ObserveRuns.HoldsMaximum: regular notifications are those the freshness test is designed for, with counters that span less than 2^23 and no arrival more than 128 s after the freshest one; Observe options are 24-bit values.
- RequestRuns.RunInv: a callback makes any calls on its own request, one after the other, but does not block in one and does not touch another request. Other requests of the context appear only through the shared message identifier counter. Message types other than confirmable and non-confirmable are not given to a request.
- TcpRuns.RunInv: how a segment merges with blocks that are already queued and the amount that the Nagle algorithm sends are inputs; there is one `tcpShutdown` call at a time per socket.
- Request and response accessors gated by the request state are not part of the block transfer model: each exchange is one step.
- The acknowledgements and Resets that the client sends for received messages (`coapClientSendAck`, `coapClientRejectResponse`): easy members.
- Header construction (`coapClientInitRequest`, `coapSetType`, `coapSetCode`), the resource handlers of the server and the thin wrappers around the message functions: easy members.
- Sockets, DTLS records and cookies, random numbers, clocks, mutexes and tracing: inputs, or not modelled. Each locked call is one step.
- The LISTEN state, the SYN queue, retransmission queue, congestion control and timers of TCP: `TimerGivesUp` stands for any timer that closes the connection.
- `pathAddSlash`, `pathRemoveSlash`, `pathCombine`, date formatting: easy members.
- Board, driver, file system and RTOS port files.
