# Verified model of the Rialto conformance suite's algorithms

The conformance suite is mostly test cases. Three of its parts compute something or speak a
protocol, and this project models those three in Dafny and proves what they promise:

* **The Clear Key CDM** (`backends/opencdm/clearkey/open_cdm.cpp`): the base64url codec of
  section 5 of RFC 4648, the string-search JSON scanner, the license-request printer, and the
  session calls construct, update, remove, close, status and has_key_id of the Clear Key exchange
  (sections 9.1.3 and 9.1.4 of Encrypted Media Extensions; the response is a JWK Set, section 5 of
  RFC 7517).
* **The feeding client** (`FeedingMediaPipelineClient` in `src/common/MediaFeed.cpp`): the
  need-data / have-data protocol with oversupply, starve, withhold, corruption, rewinds and the
  retention of frames the server had no space for.
* **The replay feeds and the release gate** (`src/common/MseSinkFeed.cpp`,
  `src/common/MseVideoSinkFeed.cpp`, `include/conformance/RialtoRelease.h`): the endless replay time
  line with the generators' frame stamps, and the ordering of dotted releases.

## How it is built

`BitStrings` says what RFC 4648 says: bytes and base64 text are two groupings of one bit string.
`Base64Url` specifies the codec by it and proves the two loops over 32-bit words against that
specification. `JsonScan` holds the scanner: its loops, a position-based reading of them, soundness
on arbitrary text, and the fact that it only looks forwards. `ScanLaws` says what is read from a text
by its shape, with every text having one of the shapes. `ClearKeyMessages` prints the three
messages and computes what the scanner reads back from each; a license response may list the members
of a key in any order, hold further members, and have blanks behind its colons, and a kid list may have
blanks behind its colon. `ClearKeyExchange` treats sessions as
values (key ids read, pairs stored, any sequence of calls), and `ClearKeySession` is the C interface
with its mutable session objects, each call proved against those values.

`FeedMachine` cuts the feeding client into steps: each lock section of the need-data callback with
the pipeline call next to it is one step, each call of the application's thread is another. The
server's callbacks are serialized, so one round is in flight at most; application steps fall
anywhere. `FeedSafety`, `FeedRetention`, `FeedRounds` and `FeedAccounts` prove properties of every run
of that machine against a server that answers OK, NO_SPACE or ERROR as it likes. `FeedDelivery` closes
the loop with a server that has a byte capacity, and shows that the closed loop is one of those runs.
`Twos` is arithmetic: when a power of two divides a product. `FeedingClient` is the object itself: its fields,
its lock sections as methods, and the callback as their sequence with arbitrary interference in the
gaps; its ghost history is a run of the machine, so the run theorems hold of the object.

Modelling choices:

* A message is a `string` with one character per byte; buffers whose length parameter has 16 or 8
  bits are types of at most 65535 characters or 255 bytes.
* `(a << 16) | (b << 8) | c` and `(acc << 6) | v` combine bits that do not overlap, so they are written
  as sums; the shift of the 32-bit accumulator drops bits modulo 2 to the 32. `kAlphabet` is used by
  its four ranges, which `CharValueIsPlace` proves to be the table.
* The casts `static_cast<uint16_t>(request.size())` and `static_cast<uint8_t>(kid.size())` are modelled:
  the application receives the shortened request or key id. The lemmas `ChallengeCompleteIff` and
  `ReportedCompleteIff` say when nothing is lost.
* `frameCount * m_oversupply` wraps modulo 2 to the 64.
* Callbacks into the application are a sequence of events on the session, each carrying the key map
  the application would see at that moment.
* A pipeline call is recorded with the stream position its segment was built from. The server's
  answers and the application's interference are parameters of the callback.

Where the code and its comments differ, the model follows the code:

* `rewindSource` is documented as rewinding to the first frame. A round in flight still adds the frames
  it accepts to the cursor the rewind has just reset. `RewindInFlightSkips` is a run that goes on at
  frame 2; `RewindRestartsIff` says when the next request is sure to start over at frame 0: exactly
  when no round in flight at the call has accepted, or may still accept, a frame of that source.
* The replay's loop offset is said to keep time stamps monotonic. It does exactly when the list itself
  does not go back and spans no more than its summed durations (`ReplayMonotonicIff`);
  `ReorderedReplayGoesBack` is a list for which it does not.
* The license request fed back as init data is not always a fixed point: a key id that encodes to
  `kids` is taken for the field name, and the text `temporary` becomes one more key id
  (`RequestIsFixedPoint`).

## Model

| member | source | states |
|---|---|---|
| BitStrings.UnpackPack | backends/opencdm/clearkey/open_cdm.cpp:84-151 | grouping a bit string and writing the groups out gives it back followed by fewer zero bits than a group |
| BitStrings.PackUnpack | backends/opencdm/clearkey/open_cdm.cpp:84-151 | groups written out and grouped again are the same groups, and grouping goes on with the bits that follow |
| Base64Url.CharValueIsPlace | backends/opencdm/clearkey/open_cdm.cpp:86-128 | the value of a character is its place in the alphabet table, and -1 exactly for a character outside it |
| Base64Url.SextetChar | backends/opencdm/clearkey/open_cdm.cpp:86 | the table entry of a sextet has that sextet as its value |
| Base64Url.Base64UrlEncode | backends/opencdm/clearkey/open_cdm.cpp:84-113 | the loop over 24-bit words and its two tail cases yield the RFC's regrouping of the bit string |
| Base64Url.EncodeUnique | backends/opencdm/clearkey/open_cdm.cpp:84-113 | the encoding is the only text over the alphabet whose bits are the data's bits and under six zero bits |
| Base64Url.EncodeBits | backends/opencdm/clearkey/open_cdm.cpp:84-113 | the text's bits are the data's bits padded with under six zeros, which also fixes its length |
| Base64Url.WrapKeepsPending | backends/opencdm/clearkey/open_cdm.cpp:142-143 | the 32-bit wrap of the accumulator never touches the bits not yet emitted |
| Base64Url.EmitSplits | backends/opencdm/clearkey/open_cdm.cpp:144-148 | the octet taken at `bits` and the low bits left are together all pending bits |
| Base64Url.Base64UrlDecode | backends/opencdm/clearkey/open_cdm.cpp:130-151 | with the wrapping accumulator, the output is the unbounded bit-string specification; on failure it is the decoding of the longest decodable prefix |
| Base64Url.DecodeInvertsEncode | backends/opencdm/clearkey/open_cdm.cpp:84-151 | decoding undoes encoding for all data, with `=` inserted anywhere |
| Base64Url.DecodeEncode | backends/opencdm/clearkey/open_cdm.cpp:84-151 | decoding undoes encoding |
| Base64Url.EncodeInjective | backends/opencdm/clearkey/open_cdm.cpp:84-113 | different data have different texts |
| Base64Url.DecodeOutcome | backends/opencdm/clearkey/open_cdm.cpp:130-151 | decoding fails exactly on a character outside the alphabet and `=`; otherwise 6k/8 octets come out for k other characters |
| Base64Url.DecodeBits | backends/opencdm/clearkey/open_cdm.cpp:130-151 | the octets decoded from any text, canonical or not, are its bits up to the last whole octet |
| Base64Url.EncodeInvertsDecodeIffCanonical | backends/opencdm/clearkey/open_cdm.cpp:84-151 | re-encoding gives a text back exactly when it is pad-free over the alphabet, its length is not 1 modulo 4 and its unused trailing bits are zero |
| Base64Url.EncodeImage | backends/opencdm/clearkey/open_cdm.cpp:84-113 | the canonical texts are exactly the encoder's outputs |
| StdString.FindFirst | backends/opencdm/clearkey/open_cdm.cpp:163-193 | `find` returns the first occurrence from a position on, or none when there is none |
| JsonScan.ArrayMembers | backends/opencdm/clearkey/open_cdm.cpp:173-189 | the inner loop collects the quoted strings up to the first that opens behind the closing bracket; `ScanLaws.MembersRead` says which these are |
| JsonScan.JsonStringValues | backends/opencdm/clearkey/open_cdm.cpp:158-201 | the nested loops terminate and compute the field values read from position 0; the laws below say which these are |
| ScanLaws.NoField | backends/opencdm/clearkey/open_cdm.cpp:163 | a text without the quoted key yields nothing |
| ScanLaws.FieldWithoutColon | backends/opencdm/clearkey/open_cdm.cpp:167-169 | a field name without a colon behind it ends the scan |
| ScanLaws.FieldOfString | backends/opencdm/clearkey/open_cdm.cpp:170-198 | behind the first place of the key, a colon and any blanks (space, tab, newline), a quoted value is read, and the scan goes on behind it |
| ScanLaws.FieldUnclosed | backends/opencdm/clearkey/open_cdm.cpp:191-195 | a value without closing quote ends the scan |
| ScanLaws.FieldOfArray | backends/opencdm/clearkey/open_cdm.cpp:173-189 | an array behind a colon and any blanks yields its members, and the scan goes on right behind the field name |
| ScanLaws.FieldOfOther | backends/opencdm/clearkey/open_cdm.cpp:170-199 | a value that is neither quoted nor an array is passed over |
| ScanLaws.MembersRead | backends/opencdm/clearkey/open_cdm.cpp:173-189 | each member stands between the next quote and the one behind it, begun before the first closing bracket, if there is one; and no further member is left |
| ScanLaws.TextShape | backends/opencdm/clearkey/open_cdm.cpp:163 | a text lacks the quoted key or has a first place of it |
| ScanLaws.ValueShape | backends/opencdm/clearkey/open_cdm.cpp:167-172 | the text behind lacks a colon or is a colon, blanks and something that is no blank |
| JsonScan.MembersSound | backends/opencdm/clearkey/open_cdm.cpp:173-189 | every array member is quote-free text between two quotes of the input |
| JsonScan.ScanSound | backends/opencdm/clearkey/open_cdm.cpp:158-201 | on any text, every value is quote-free, stands between two quotes, behind a colon, behind an occurrence of the quoted key |
| JsonScan.ScanDrop | backends/opencdm/clearkey/open_cdm.cpp:158-201 | the scanner only looks forwards: text before its position does not matter |
| ClearKeyMessages.NeverAFieldName | backends/opencdm/clearkey/open_cdm.cpp:84-113 | no encoding is the text `k` or `kid` |
| ClearKeyMessages.SkipQuoted | backends/opencdm/clearkey/open_cdm.cpp:163-199 | quoted text other than the key is passed over |
| ClearKeyMessages.ScanInvertsJwkPrint | backends/opencdm/clearkey/open_cdm.cpp:402-408 | scanning a printed JWK Set for `kid` and for `k` yields exactly its kids and its keys in order, for every list of pairs, any order of a key's members, any further string members whose value is not a field name, and any blanks behind the colons |
| ClearKeyMessages.KeyObjectsDescribe | src/L1_function/native/KeysSessionTests.cpp:70-72 | the plain response of kty, kid and k is one of those layouts, because no encoding is a field name |
| ClearKeyMessages.ListMembers | backends/opencdm/clearkey/open_cdm.cpp:173-189 | the members read from a printed list are the list, and what is quoted behind the bracket is not read |
| ClearKeyMessages.ScanKidsMessage | backends/opencdm/clearkey/open_cdm.cpp:158-201 | scanning a kid list, with any blanks behind its colon, yields its texts, and in addition `temporary` exactly when a text is `kids` and the type member is present |
| ClearKeyMessages.RequestHasType | backends/opencdm/clearkey/open_cdm.cpp:370 | scanning a license request for `type` yields `temporary`, whatever its key ids |
| ClearKeyMessages.MessageText | backends/opencdm/clearkey/open_cdm.cpp:363-370 | the license request and the init data, character by character around the list of key ids |
| ClearKeyMessages.ListTextJoins | backends/opencdm/clearkey/open_cdm.cpp:364-369 | the list of one key id is its quoted encoding, and lists are joined by a comma |
| ClearKeyMessages.RequestLength | backends/opencdm/clearkey/open_cdm.cpp:363-370 | the license request is 19 characters longer than plain init data for the same key ids |
| Decimal.ValueOfPrint | include/conformance/RialtoRelease.h:59-70 | collecting the digits of a printed number gives the number |
| Decimal.PrintUnique | backends/opencdm/clearkey/open_cdm.cpp:352 | digits without a leading zero are the printed form of the number they spell |
| Decimal.NoLeadingZero | backends/opencdm/clearkey/open_cdm.cpp:352 | a number is printed in digits only, without a leading zero |
| Decimal.ValueGrows | include/conformance/RialtoRelease.h:59-70 | a digit is appended to the number read so far, any other character leaves it |
| Decimal.OthersIgnored | include/conformance/RialtoRelease.h:59-70 | a character that is no digit does not change the number, wherever it stands |
| Decimal.ValueOfPadded | include/conformance/RialtoRelease.h:59-70 | leading zeros do not change it |
| ClearKeyExchange.ReadInvertsPrint | backends/opencdm/clearkey/open_cdm.cpp:330-373 | the key ids read from a printed kid list, with any blanks behind its colon, are those printed, followed by the decoding of `temporary` in the one exceptional case |
| ClearKeyExchange.DecodableKidsAre | backends/opencdm/clearkey/open_cdm.cpp:332-340 | from any texts, the kids taken are what the texts decode to, in order; a text left out does not decode or decodes to nothing |
| ClearKeyExchange.RequestIsFixedPoint | backends/opencdm/clearkey/open_cdm.cpp:330-373 | a request fed back as init data rebuilds the same key ids, and the same request, if and only if the three bytes encoding to `kids` are not among them |
| ClearKeyExchange.ValidPairs | backends/opencdm/clearkey/open_cdm.cpp:414-425 | the decoded pairs up to the first undecodable or empty kid or key, all non-empty |
| ClearKeyExchange.StoreMeaning | backends/opencdm/clearkey/open_cdm.cpp:423 | the stored map is the old one overridden by each kid's last pair |
| ClearKeyExchange.UpdateStores | backends/opencdm/clearkey/open_cdm.cpp:409-425 | a response without kids or with unequal counts changes nothing; any other stores its valid pairs, and is accepted if and only if all are valid |
| ClearKeyExchange.UpdateInvertsJwkPrint | backends/opencdm/clearkey/open_cdm.cpp:402-425 | every printed response with non-empty kids and keys, in any of those layouts, is accepted and stores its own pairs |
| ClearKeyExchange.HeldIff | backends/opencdm/clearkey/open_cdm.cpp:390-476 | after any calls a key id is held if and only if an update before the first close and after the last remove stored it; the session is closed iff a close occurred |
| ClearKeyExchange.HeldKey | backends/opencdm/clearkey/open_cdm.cpp:390-456 | the key held is the last pair for the kid in the last such update |
| ClearKeyExchange.NoEmptyHeld | backends/opencdm/clearkey/open_cdm.cpp:419-423 | no empty kid or key is ever held |
| ClearKeySession.DecodeKids | backends/opencdm/clearkey/open_cdm.cpp:332-340 | the loop keeps exactly the decodable non-empty key ids, in order: their texts stand at increasing positions, and every other text yields nothing |
| ClearKeySession.PrintRequest | backends/opencdm/clearkey/open_cdm.cpp:363-370 | the printing loop yields the kid list message with the type member |
| ClearKeySession.Backend.ConstructSession | backends/opencdm/clearkey/open_cdm.cpp:308-376 | the exact condition of each outcome, failing allocation included; on success a fresh open session with the key ids its texts decode to, undecodable ones passed over, the next session id and, given a callback, the request delivered once |
| ClearKeySession.StoreKeys | backends/opencdm/clearkey/open_cdm.cpp:414-425 | the map becomes the old one with the valid prefix of pairs stored, and success is that prefix being everything |
| ClearKeySession.NotifyUpdated | backends/opencdm/clearkey/open_cdm.cpp:429-443 | one key update per pair in response order, with the kid itself up to 255 bytes, then one batch event, all seeing the full map; a missing callback drops its own events only |
| ClearKeySession.UpdateEventsTell | backends/opencdm/clearkey/open_cdm.cpp:429-443 | the same of the events as a value |
| ClearKeySession.SessionUpdate | backends/opencdm/clearkey/open_cdm.cpp:390-445 | the error of each case; without kids or with unequal counts the map stays, else it is overridden by exactly the pairs before the first invalid one; callbacks fire only on success, after all stores, the batch event last |
| ClearKeySession.SessionRemove | backends/opencdm/clearkey/open_cdm.cpp:447-456 | all keys are dropped, also after close, and nothing else changes |
| ClearKeySession.SessionClose | backends/opencdm/clearkey/open_cdm.cpp:458-466 | the session is closed, its keys stay |
| ClearKeySession.SessionStatus | backends/opencdm/clearkey/open_cdm.cpp:468-492 | internal error exactly without session, kid or length; usable exactly when has_key_id answers 1 |
| ClearKeySession.SessionHasKeyId | backends/opencdm/clearkey/open_cdm.cpp:484-492 | 1 for a key id held, 0 for one not held or without session, kid or length |
| ClearKeySession.SessionIdInjective | backends/opencdm/clearkey/open_cdm.cpp:346-352 | session ids differ as long as the counter does |
| ClearKeySession.SessionIdText | backends/opencdm/clearkey/open_cdm.cpp:352 | a session id is the fixed prefix and the counter in decimal digits without leading zeros |
| ClearKeySession.ChallengeCompleteIff | backends/opencdm/clearkey/open_cdm.cpp:371-373 | the challenge for printed init data arrives complete exactly when the init data is shorter than 65517 characters |
| ClearKeySession.ReportedCompleteIff | backends/opencdm/clearkey/open_cdm.cpp:433-437 | a key update names the stored key id exactly when that has at most 255 bytes |
| ClearKeySession.Play | backends/opencdm/clearkey/open_cdm.cpp:390-476 | any sequence of update, remove and close calls ends in the state of the run; each call reports the error of its case; the callbacks are those of the successful updates, one after the other in call order; usable means stored and in force |
| ClearKeySession.Exchange | backends/opencdm/clearkey/open_cdm.cpp:308-476 | constructed from `{"kids":[...]}`, with any blanks behind the colon, and updated with a printed JWK Set of any layout, a session makes exactly the requested key ids usable, and every other non-empty one is pending |
| FeedMachine.BatchSize | src/common/MediaFeed.cpp:334-335 | a batch stays within the limit and the stream, falls short of the limit only at the end of the stream, and is empty behind it |
| FeedMachine.BuildBatch | src/common/MediaFeed.cpp:335-355 | the batch has that size; its k-th segment has the stamps of the k-th frame behind the cursor, the format of its stream, and its bytes, or as many bytes 0xA5 exactly when its number among all segments built is a multiple of the corruption step |
| FeedSafety.RunsAreSafe | src/common/MediaFeed.cpp:271-426 | over every run, rewinds anywhere, the accepted positions of a source are a prefix, the cursor is at most its length, which is at most the frame count |
| FeedSafety.PrefixOfTrace | src/common/MediaFeed.cpp:375-426 | at every point of every run the accepted positions are a prefix |
| FeedSafety.EosOnlyAfterEveryFrame | src/common/MediaFeed.cpp:413-425 | when EOS is answered, the accepted positions are exactly all frames of the source |
| FeedSafety.SegmentsAreFaithful | src/common/MediaFeed.cpp:335-355 | over every run, each segment sent has the time stamp and duration of the frame at its position, the rate and channels of its stream, and the frame's bytes or equally many bytes 0xA5 |
| FeedRetention.RunsAreInOrder | src/common/MediaFeed.cpp:327-423 | without rewinds the accepted positions are 0, 1, 2, ... up to the position, no gap and no duplicate |
| FeedRetention.DeliveredExactlyOnceInOrder | src/common/MediaFeed.cpp:327-423 | without rewinds or corruption, when no batch is being offered, the accepted segments are the stream's first `nextFrame` frames, field by field |
| FeedRetention.PositionCountsAccepted | src/common/MediaFeed.cpp:375-423 | between rewinds the position moves by exactly the frames accepted |
| FeedRetention.RewindRestartsIff | src/common/MediaFeed.cpp:271-279 | whatever happens until the source is next requested, that request starts over at frame 0, if and only if at the call no round in flight has accepted or may still accept a frame of the source |
| FeedRetention.StaysAtFirstRun | src/common/MediaFeed.cpp:271-279 | in that case the cursor stays at 0 at every step of the way |
| FeedRetention.WayPastMoves | src/common/MediaFeed.cpp:375-425 | otherwise at most two offers, an advance and an answer leave the cursor past 0 |
| FeedRetention.RewindInFlightSkips | src/common/MediaFeed.cpp:271-279 | a run in which a rewind between two offers leaves the cursor at 2 |
| FeedRetention.RetentionHolds | src/common/MediaFeed.cpp:381-411 | over every run a retained frame exists and is neither behind the cursor nor passed by the round in flight |
| FeedRetention.RetainedIsNextHolds | src/common/MediaFeed.cpp:381-411 | without rewinds the retained frame is the next one offered |
| FeedRetention.ResendFlagIff | src/common/MediaFeed.cpp:381-409 | over every run, even with rewinds, the resend flag holds if and only if a frame was rejected with NO_SPACE and the same frame accepted later |
| FeedRetention.FirstAcceptanceIsResend | src/common/MediaFeed.cpp:399-409 | without rewinds the first acceptance after a rejection sets the flag |
| FeedRounds.RoundsAreShaped | src/common/MediaFeed.cpp:293-426 | since the last request the trace holds its offers at consecutive positions, the whole batch or up to the first status not OK, each carrying its frame and corrupted by its number only, then exactly one haveData with its id, OK if starved; withheld and unknown requests send nothing |
| FeedRounds.RejectionsAreAnsweredNext | src/common/MediaFeed.cpp:378-397 | a segment not accepted is directly followed by the round's haveData, so a later acceptance is in a later round |
| FeedRounds.RoundsEnd | src/common/MediaFeed.cpp:375-425 | a round in flight can always go on, whatever the status, main-thread steps do not hold it up, and it ends |
| FeedRounds.OverlapsAreDetected | src/common/MediaFeed.cpp:312-319 | the overlap flag is set if and only if a request met one of its source that was neither answered nor cancelled |
| FeedAccounts.CountersAccountForCalls | src/common/MediaFeed.cpp:381-401 | the three counters are the calls by status and add up to all calls; the all-accepted flag is both failure counters being zero |
| FeedAccounts.OfferedAccountsForSegments | src/common/MediaFeed.cpp:335-378 | segments built are those sent, those of withheld, starved or cut-short batches, and the rest of the round in flight |
| FeedAccounts.RequestsAreLogged | src/common/MediaFeed.cpp:310-311 | every request is logged as it came, and every cancellation counted with its source |
| FeedAccounts.CursorsAddUp | src/common/MediaFeed.cpp:413-420 | without rewinds the cursors of all sources and the round in flight add up to the accepted segments |
| FeedDelivery.RequestGains | src/common/MediaFeed.cpp:293-426 | against a buffer that fits each frame, a request moves the cursor on unless the stream is done, and is answered EOS iff it is |
| FeedDelivery.WholeStreamIsDelivered | src/L4_e2e/playback/DataFaultTests.cpp:166-182 | within max(1, n) requests EOS is answered, all n frames are accepted once and in order, no ERROR occurs, and after any NO_SPACE a rejected segment was resent and accepted |
| FeedDelivery.ClosedLoopIsRun | src/common/MediaFeed.cpp:293-426 | what the closed loop reaches is reached by a legal run without rewinds, so the theorems about runs hold of it |
| FeedDelivery.StreamArrivesIntact | src/L4_e2e/playback/DataFaultTests.cpp:166-182 | without corruption the segments accepted in the closed loop are the frames of the stream, field by field |
| FeedDelivery.LimitPositive | src/common/MediaFeed.cpp:334 | a request offers nothing exactly when the count and the multiple hold 64 factors of two between them; below 2 to the 64 a request for at least one frame offers at least one |
| FeedDelivery.LimitIsProduct | src/common/MediaFeed.cpp:334 | the limit is the requested count times the multiple, less whole multiples of 2 to the 64 |
| FeedingPipelineClient.FeedingClient.AddAudioSource | src/common/MediaFeed.cpp:265-269 | the source is registered with its cursor at 0 |
| FeedingPipelineClient.FeedingClient.RewindSource | src/common/MediaFeed.cpp:271-279 | only that source's cursor changes, to 0, and an unknown source changes nothing |
| FeedingPipelineClient.FeedingClient.NotifyCancelNeedMediaData | src/common/MediaFeed.cpp:533-544 | only the cancelled source loses its pending request; the cancellation is counted and its source noted |
| FeedingPipelineClient.FeedingClient.SetOversupplyMultiple | src/common/MediaFeed.cpp:440-444 | the multiple is set, 1 in place of 0, and no other field changes |
| FeedingPipelineClient.FeedingClient.SetWithholding | src/common/MediaFeed.cpp:446-450 | the withhold flag is set and no other field changes |
| FeedingPipelineClient.FeedingClient.SetStarving | src/common/MediaFeed.cpp:616-620 | the starve flag is set and no other field changes |
| FeedingPipelineClient.FeedingClient.SetCorruption | src/common/MediaFeed.cpp:452-456 | the corruption step is set and no other field changes |
| FeedingPipelineClient.FeedingClient.NoteRequest | src/common/MediaFeed.cpp:310-317 | the request is logged and pending, and an overlap with a pending one is flagged |
| FeedingPipelineClient.FeedingClient.BuildSegments | src/common/MediaFeed.cpp:335-355 | the batch loop builds the machine's batch, frame by frame with its stamps and bytes, up to the limit or the end of the stream, and counts each segment |
| FeedingPipelineClient.FeedingClient.BeginRound | src/common/MediaFeed.cpp:310-361 | the first lock section is the machine's request step; what follows depends on pipeline, source, withhold and starve |
| FeedingPipelineClient.FeedingClient.NoteAccepted | src/common/MediaFeed.cpp:398-409 | an acceptance counts, and clears the retained frame and sets the flag when it is that frame |
| FeedingPipelineClient.FeedingClient.NoteRejected | src/common/MediaFeed.cpp:383-395 | a rejection counts by its kind and on NO_SPACE retains the frame |
| FeedingPipelineClient.FeedingClient.MoveCursor | src/common/MediaFeed.cpp:413-423 | the cursor moves by the accepted segments and the source is no longer pending; end of stream is the cursor reaching the frame count |
| FeedingPipelineClient.FeedingClient.OfferBatch | src/common/MediaFeed.cpp:377-411 | the offering loop goes up to the first status that is not OK, under interference |
| FeedingPipelineClient.FeedingClient.NotifyNeedMediaData | src/common/MediaFeed.cpp:293-426 | under any interference between its lock sections the callback is a run of the machine, its calls got the server's answers, and they have the shape of a round, each segment carrying its frame |
| FeedingPipelineClient.FeedingClient.SawNoSpaceSegmentAccepted | src/common/MediaFeed.cpp:476-480 | true exactly when a frame was rejected with NO_SPACE and accepted later |
| FeedingPipelineClient.FeedingClient.SawOverlappingNeedData | src/common/MediaFeed.cpp:598-602 | true exactly when two requests of one source overlapped |
| FeedingPipelineClient.FeedingClient.AllSegmentsAccepted | src/common/MediaFeed.cpp:604-608 | true exactly when every addSegment returned OK |
| MediaStream.TotalDurationNs | src/common/MediaFeed.cpp:60-69 | the sum of the positive durations |
| MediaStream.DurationIsSum | src/common/MediaFeed.cpp:60-69 | that sum is additive, and a single frame counts with its duration if that is positive |
| MediaStream.StampFrames | src/common/MediaFeed.cpp:107-130 | frame i has the bytes of the i-th mapped buffer and, each on its own, the buffer's time stamp and duration or the nominal ones; without any, the list is stamped by the nominal duration throughout |
| MediaStream.MappedAre | src/common/MediaFeed.cpp:107-112 | the mapped buffers are exactly the samples with data, in order |
| Replay.SinkFeed.PushNextFrame | src/common/MseSinkFeed.cpp:105-129 | the k-th push has the bytes and the duration of frame k mod n and its time stamp moved by k div n stream durations; nothing after EOS or for an empty stream |
| Replay.SinkFeed.SignalEos | src/common/MseVideoSinkFeed.cpp:136-143 | end of stream is signalled once at most, and only with an appsrc |
| Replay.ReplayMonotonicIff | src/common/MseSinkFeed.cpp:110-120 | time stamps never go back, however long the replay runs, if and only if the list does not and spans at most its duration |
| Replay.GapFreeReplayMonotonic | src/common/MseVideoSinkFeed.cpp:115-125 | a list whose frames start no later than their predecessors end is replayed monotonically |
| Replay.ReorderedReplayGoesBack | src/common/MseVideoSinkFeed.cpp:115-125 | a reordered list is not |
| Replay.FallbackReplayUniform | src/common/MediaFeed.cpp:103-124 | frames stamped by the fallback replay at exactly k times the frame duration |
| Replay.NominalTimeLines | src/common/MediaFeed.cpp:103-121 | three times an AAC time stamp is 64000000 k - k; a video time stamp is 40000000 k |
| Release.Parse | include/conformance/RialtoRelease.h:55-71 | the parsing loop leaves the three components of the text cut at its dots |
| Release.ReleaseAtLeast | include/conformance/RialtoRelease.h:53-83 | the comparison loop answers true exactly when the first unequal component is larger, or all are equal |
| Release.AtLeastIsTotalPreorder | include/conformance/RialtoRelease.h:53-83 | reflexive, total and transitive on all texts; ties are exactly equal components |
| Release.ParseInvertsPrint | include/conformance/RialtoRelease.h:46-71 | reading inverts printing, with or without `v` or `V`, with leading zeros, with components left out |
| Release.ParseReadsPieces | include/conformance/RialtoRelease.h:55-71 | on any text, component k is the number collected from the k-th piece between the dots, narrowed to 32 bits, behind a leading `v` or `V` if there is one |
| Release.ComponentSurvivesIff | include/conformance/RialtoRelease.h:63 | a component survives the cast to int exactly below 2 to the 31 |
| Release.PrintedOrder | include/conformance/RialtoRelease.h:46-83 | printed releases compare like their numbers, the first component weighing most |

## Left out

- FeedSafety.RunsAreSafe: assumes each source is registered once. Registering a source again replaces its stream under a round in flight, and the segments of that round then point into freed frames.
- FeedMachine: binding a null pipeline is not a step; the client's documentation requires the pipeline to outlive the feeding. One `addSegment` and the lock section behind it are one step, since the call touches no client field. Counters do not wrap.
- FeedDelivery.WholeStreamIsDelivered: asks that each request's limit is at least one frame; `LimitPositive` says when the product `frameCount * m_oversupply` wraps to 0 and offers nothing.
- Replay.SinkFeed.PushNextFrame: time stamps are unbounded integers; the 64-bit overflow of an endless replay is not modelled.
- Release.Parse: the digits of a component are collected in an unbounded integer; an overflow of `long` has no defined value in the source.
- ClearKeySession.Backend.ConstructSession: object lifetime and an init data pointer of null are not modelled.
- The reading of a kid list is computed for the printed shapes; on other text only soundness of the scanner is stated, since it is not a JSON parser.
- GStreamer, the encoders, pads and events, Rialto's IPC and the clocks and timeouts of the waiting calls: library behaviour that is not part of this model; streams are frame lists and the server is its answers.
- Playback state, error, position, QoS, network state, underflow and flush notifications of the client: recorded and read back.
- The remaining CDM entry points (system creation, key system check, version, drm time, server certificate, robustness, metrics, load, drm header, system error) return constants.
- `SimControl`, `RegistrationProbe`, the scope, tier and capability gates, `main.cpp`, the test bodies, scripts and YAML.
