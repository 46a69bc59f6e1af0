# ValgACE multi-unit link, modelled in Dafny

A model of the core of `extras/ace.py`, the Klipper extension that drives up to four
Anycubic ACE Pro filament units over serial links. It covers:

- **Device link (`ACEDevice`).** The CRC-16 of the wire format and the framing of
  outbound packets. The receive-side frame extraction of `_process_messages`. The
  outbound request queue with its overflow rule and the request-id counter that wraps
  at 300000. The writer loop's dequeue step. The callback table, and how replies
  and disconnects fail or answer each callback. The device-info snapshot. The
  counter-based ("traditional") parking session: its observer, progress query,
  completion and start.
- **Slot router (`ValgAce`).** The dense global-slot numbering built by
  `_build_slot_mapping`, its two lookups, and the arithmetic helpers
  `global_to_local` / `local_to_global`.
- **Infinity spool.** Validation and saving of the slot order, the lookup of the
  current slot's position in it, and the wrap-around search for the next ready slot.

Modules, one per file:

| module | file | form |
|---|---|---|
| `Wrappers` | `wrappers.dfy` | `Option` and `Result` datatypes |
| `Crc16` | `crc16.dfy` | the CRC as a function on a 16-bit register; the source's loop as a method |
| `Frame` | `frame.dfy` | wire format; the decoder as a specification function `Decode` with its properties |
| `Protocol` | `protocol.dfy` | decoded JSON values, requests, callbacks, replies, the callback-invocation record |
| `Parking` | `parking.dfy` | the parking session as pure transitions |
| `Device` | `device.dfy` | class `AceDevice`, whose methods update the device's fields in place |
| `Router` | `router.dfy` | class `ValgAce` holding the two slot tables |
| `InfinitySpool` | `infinity.dfy` | order validation, saved-order round trip, position lookup, next-ready search |
| `Sets` | `sets.dfy` | finite-set facts (least element, size of `0 .. n-1`) |

Modelling choices:

- **Bytes.** Bytes are integers 0..255, as Python sees them. The CRC register is kept
  in 16 bits. `Crc16.MaskDropsNothing` shows that Python's unmasked update never
  reaches above bit 15, so the 16-bit register computes what the source computes.
- **Decoder.** `Frame.Decode(buf, incomplete)` states what one call of
  `_process_messages` does: the payloads handed on, the bytes left in the buffer, and
  how many times the reconnect fired. `AceDevice.ProcessMessages` is the loop itself,
  proved against `Decode`. The loop's per-candidate bookkeeping sits in
  `Frame.Tally`. The account invariant is carried by `Frame.AccountStep`.
- **Callbacks.** Callbacks are opaque names. Every call goes through
  `AceDevice.Call`. It appends the call to the device's `invocations` record, with the
  request id and the reply. It also applies the call's effect on the parking session
  (`Device.Effect`, and `Device.Effects` for a run of calls). Only the
  `start_feed_assist` callback of a park has such an effect: it stops the session or
  sets the baseline counter, through `AceDevice.OnStartFeedAssistReply`. This happens
  wherever the source calls callbacks: on queue overflow, on a disconnect, on a refused
  request, and on a response, before the response's result is merged and observed. The
  status callback's `update` is repeated by the merge that follows it
  (`Device.StatusCallbackAbsorbed`). The stop callback does nothing.
- **Environment as parameters.** Time (milliseconds) and the writer's transmission
  outcome are parameters. Whether a slot is ready is a set of global slots. JSON
  text is not modelled: a decoded object is a map.

Behaviour of the code that the model keeps, and that a reader might not expect:

- **Incomplete candidates are consumed.** The loop of `_process_messages` cuts each
  candidate (the bytes up to the next 0xFE) off the buffer before it examines it. An
  incomplete candidate, shorter than its length field announces, is therefore
  dropped, not kept for the next read (`extras/ace.py:409-422`).
- **A failed write requeues at the back.** `_writer_loop` puts a request whose write
  failed back with `queue.put`, at the tail of the queue (`extras/ace.py:449-451`).
- **Unchanged counters, not rising ones, complete a park.** `_handle_parking_response`
  counts a hit only for a ready poll whose feed-assist counter equals the last one, and
  resets the hits whenever the counter changes. A counter that changes on every poll
  therefore never completes the park (`Parking.ChangingCountsNeverComplete`). The
  start callback makes the counter in its reply the baseline, so a reply and polls that
  all report the same counter never set "increased", and the park fails after 3 s
  (`Parking.StartReplyBaselineStalls`, and `Device.StartReplyAnswered` for the
  device's response handling).
- **Global slots follow device order, not device id.** `_build_slot_mapping` numbers
  global slots `4 * (position of the device id in sorted order) + local slot`. Its own
  docstring says `device_id * 4 + local_slot` (`extras/ace.py:712-715`), and that is
  what `global_to_local` and `local_to_global` compute. The two agree exactly when the
  configured ids are 0 .. k-1 (`Router.ValgAce.ArithmeticAgreesIff`).
- **A status poll uses two request ids.** `_request_status` draws one id for the
  request's own `id` key, and `send_request` then overwrites it with another
  (`extras/ace.py:461-464`).
- **Queue overflow resets a park's baseline.** When `send_request` finds the queue
  full, it calls every queued callback with `{'error': 'Queue overflow'}`. A queued
  `start_feed_assist` callback reads the missing `result` as a counter of 0, so the
  baseline drops to 0 (`Device.OverflowResetsBaseline`).

## Model

| member | source | states |
|---|---|---|
| Crc16.Mix | extras/ace.py:293-295 | the register update on bits: the byte is mixed with the register's low byte and its low nibble; `MaskDropsNothing` states that it is Python's update |
| Crc16.CrcUpdate | extras/ace.py:293-295 | one step of the loop, folding a byte into the register; `RegisterAppend` relates it to whole buffers |
| Crc16.Register | extras/ace.py:291-295 | the register after the loop over a buffer, seeded with 0xFFFF, first byte first; `CalcCrc` is proved equal to it |
| Crc16.Crc | extras/ace.py:282-296 | the CRC of any buffer is a 16-bit value (below 0x10000) |
| Crc16.CalcCrc | extras/ace.py:291-296 | the loop of `_calc_crc`, folding the bytes into the register seeded with 0xFFFF first byte first, returns exactly `Crc(buffer)` |
| Crc16.MaskDropsNothing | extras/ace.py:293-295 | for every 16-bit register and byte, Python's update before its `& 0xffff` is already at most 0xFFFF and equals the 16-bit update, so the mask inside the loop drops nothing |
| Crc16.RegisterAppend | extras/ace.py:292-295 | appending one byte to a buffer advances its register by exactly one update step |
| Crc16.CrcReferenceValues | extras/ace.py:291-296 | reference values of the algorithm: the empty buffer gives 0xFFFF, one zero byte 0x0F87, the bytes of `{}` 0x4CB6 |
| Frame.U16RoundTrip | extras/ace.py:366 | packing a value below 0x10000 little-endian into two bytes and unpacking them gives the value back |
| Frame.U16Distinct | extras/ace.py:425-426 | two 16-bit fields that differ in a byte read as different values, so a changed CRC byte is always noticed |
| Frame.EncodeFrame | extras/ace.py:363-370 | a packet exists exactly when the payload fits the 16-bit length field; it is 7 bytes longer than the payload, starts with 0xFF 0xAA, carries the length, the payload, the payload's CRC, and ends with 0xFE |
| Frame.Find | extras/ace.py:406 | `bytearray.find`: -1 exactly when the byte is absent; otherwise the index of its first occurrence |
| Frame.Next | extras/ace.py:405-410 | the loop stops exactly when no 0xFE is left; otherwise the candidate and the rest concatenate back to the buffer and the buffer shrinks |
| Frame.TakeCandidate | extras/ace.py:405-410 | the slicing the loop does computes `Next` |
| Frame.CheckCandidate | extras/ace.py:411-427 | the checks the loop applies, in its order (header, length, CRC), classify the candidate as `Classify` does |
| Frame.Classify | extras/ace.py:411-427 | what the loop makes of one candidate: dropped when short or headerless, incomplete when shorter than its length field announces, otherwise good or a CRC mismatch; a good candidate's payload fits inside it |
| Frame.NextOfCandidate | extras/ace.py:406-410 | a candidate ending at its only 0xFE, followed by any bytes, is cut off exactly there |
| Frame.Decode | extras/ace.py:401-430 | one call of `_process_messages` on a buffer and a counter carried in: payloads handed on, bytes left, reconnects fired; its properties are the lemmas below |
| Frame.Examine | extras/ace.py:409-430 | one iteration on a cut candidate: a CRC mismatch ends the call with the rest kept, anything else carries on with the rest |
| Frame.CrcVerdict | extras/ace.py:425-427 | a candidate that holds its whole payload is good exactly when the CRC field equals the payload's CRC, and is a CRC mismatch otherwise |
| Frame.After | extras/ace.py:415-423 | the local incomplete counter stays at most 10 after any candidate, or is left unchanged by a dropped one |
| Frame.Merge | extras/ace.py:415-430 | a candidate adds payloads or reconnects to the rest of the call but never changes what is left in the buffer |
| Frame.DecodeStep | extras/ace.py:405-427 | one unfolding of the loop: a CRC mismatch ends the call leaving the rest; anything else carries on with the rest and the updated counter |
| Frame.AccountDone | extras/ace.py:405-408 | once no 0xFE is left, the call ends with the buffer untouched |
| Frame.AccountDropped | extras/ace.py:411-412 | a short or headerless candidate is consumed and changes nothing else |
| Frame.AccountIncomplete | extras/ace.py:415-422 | an incomplete candidate, up to the tenth in a row, is consumed and bumps the counter |
| Frame.AccountReconnect | extras/ace.py:417-422 | the eleventh incomplete candidate in a row fires one reconnect and resets the counter |
| Frame.AccountBadCrc | extras/ace.py:426-427 | a CRC mismatch ends the call with the bytes behind the candidate left in the buffer |
| Frame.AccountGood | extras/ace.py:423-430 | a good candidate hands its payload on, after those already handed on, and resets the counter |
| Frame.AccountStep | extras/ace.py:409-430 | any candidate other than a CRC mismatch moves the whole-call account forward by what it hands on, the reconnects it fires and the counter it leaves |
| Frame.Tally | extras/ace.py:415-424 | the loop's bookkeeping for one candidate produces exactly the payloads, reconnect count and counter that `AccountStep` accounts for |
| Device.AceDevice.ProcessMessages | extras/ace.py:401-434 | one call of `_process_messages` leaves the buffer, hands on the payloads and fires the reconnects that `Decode` of the old buffer gives |
| Device.AceDevice.OnBytesReceived | extras/ace.py:392-395 | an empty read changes nothing; otherwise the bytes are appended and the whole buffer is decoded once |
| Frame.NoTerminatorKept | extras/ace.py:405-408 | a buffer holding no 0xFE is left exactly as it is and nothing is delivered |
| Frame.DecodeFrameThen | extras/ace.py:409-430 | a clean frame at the head of the buffer is delivered first and decoding continues behind it with the counter reset |
| Frame.FrameRoundTrip | extras/ace.py:363-370 | round trip: decoding the packet of a clean payload delivers that payload once, fires no reconnect and empties the buffer |
| Frame.DecodeFrames | extras/ace.py:401-430 | any stream of clean frames back to back is delivered completely, in order, with nothing left |
| Frame.CorruptedCrcIsBad | extras/ace.py:425-427 | changing either CRC byte of a packet makes it a CRC mismatch |
| Frame.CorruptedCrcStops | extras/ace.py:425-427 | a packet with a corrupted CRC byte delivers nothing and stops the call: everything behind it stays in the buffer |
| Frame.TerminatorInLengthLosesFrame | extras/ace.py:406-412 | a packet whose length field has 0xFE as its low byte (e.g. a 254-byte payload) is cut after its third byte and delivers nothing |
| Frame.DecodeLeavesSuffix | extras/ace.py:409-410 | whatever one call leaves behind is a suffix of the buffer |
| Frame.DecodeStopsOnlyAtBadCrc | extras/ace.py:405-427 | if what is left still contains a 0xFE, the call was stopped by a candidate in the buffer whose CRC did not match |
| Frame.ResetsNeedIncompletes | extras/ace.py:415-422 | each reconnect accounts for eleven incomplete candidates: eleven times the reconnects is at most the incomplete candidates examined plus those counted earlier |
| Frame.Flatten | extras/ace.py:392-395 | the bytes of successive reads, joined in order |
| Frame.Feed | extras/ace.py:387-395 | successive reads: each non-empty one is appended and decoded once; results accumulate |
| Frame.FeedEmptyChunks | extras/ace.py:392-395 | reads that bring no bytes deliver nothing and leave the buffer empty |
| Frame.FeedPartialChunk | extras/ace.py:392-408 | a read that stops short of a frame's 0xFE leaves all the bytes in the buffer |
| Frame.FeedLastChunk | extras/ace.py:392-395 | the read that completes a frame delivers what decoding the whole frame delivers |
| Frame.FeedFrameFrom | extras/ace.py:387-408 | reads that complete a buffer with a single 0xFE at its end deliver what one call on that buffer delivers |
| Frame.ChunkedFrameDelivered | extras/ace.py:387-430 | a clean frame split across any number of reads, at any points, is delivered exactly once and the buffer ends empty |
| Device.NextRequestId | extras/ace.py:348-353 | from any counter value in -1..299999 the next id lies in 0..299999 and is the counter plus one modulo 300000 |
| Device.ResidueStep | extras/ace.py:349-352 | drawing one more id moves the counter's residue modulo 300000 on by one, wrapping to 0 |
| Device.IdsCycle | extras/ace.py:348-353 | after k draws the counter is (start + k) mod 300000 |
| Device.IdsDistinct | extras/ace.py:348-353 | any 300000 consecutive ids are pairwise different |
| Device.DefaultInfo | extras/ace.py:104-126 | the default snapshot is disconnected, has a feed-assist count of 0 and four slot entries |
| Device.AceDevice.constructor | extras/ace.py:43-100 | a new device is disconnected, with counter 0, empty queue, callback table and read buffer, the default snapshot and an idle session |
| Device.AceDevice.GetNextRequestId | extras/ace.py:348-353 | the counter advances by `NextRequestId` and the id returned is the new counter, in 0..299999 |
| Device.EffectsAppend | extras/ace.py:247-256 | the effect of two runs of calls is the effect of the first, then the second |
| Device.Enqueue | extras/ace.py:306-316 | the new entry ends the new queue, and follows the old queue unchanged when there was room |
| Device.OverflowResetsBaseline | extras/ace.py:308-314 | failing a queue with "Queue overflow" sets the session's baseline to 0 exactly when a `start_feed_assist` callback was queued, and changes nothing else |
| Device.LostCallThenAbort | extras/ace.py:247-269 | one callback failed with "Connection lost" changes nothing that the abort after it keeps |
| Device.LostCallsThenAbort | extras/ace.py:244-269 | all the callbacks failed on a disconnect, in any number and order, change nothing that the abort after them keeps |
| Device.Answered | extras/ace.py:471-475 | a response calls at most one callback: the one under its id, with the response itself |
| Device.StartReplyAnswered | extras/ace.py:471-475 | a response to a park's `start_feed_assist` request carrying counter c makes c the session's baseline |
| Device.StatusCallbackAbsorbed | extras/ace.py:456-458 | the status callback's `update` with a result, followed by the merge of the normalised result, leaves what the merge alone leaves |
| Device.AceDevice.Call | extras/ace.py:471-475 | a callback call is logged once, and the session becomes the call's `Effect` |
| Device.AceDevice.FailQueued | extras/ace.py:308-314 | the queue is emptied, each queued callback is called with the reply in queue order (`None` callbacks are skipped), and the session takes the effect of those calls in that order |
| Device.AceDevice.SendRequest | extras/ace.py:298-316 | on overflow every queued callback gets "Queue overflow", the session takes their effect, and the queue holds only the new request; otherwise the request is appended to the unchanged queue and nothing is called; either way it carries the next id and the queue bound and id range are kept |
| Device.AceDevice.SendRequestSafe | extras/ace.py:318-336 | a disconnected device refuses, leaves queue and counter alone, and calls the callback once with "not connected", whose effect the session takes; a connected one does exactly what `send_request` does |
| Device.AceDevice.RequestStatus | extras/ace.py:454-464 | a status poll advances the counter twice and does what `send_request` does with `get_status`, stamped with the second id |
| Device.AceDevice.ClearPendingOperations | extras/ace.py:244-269 | the queue and callback table end empty; queued callbacks are failed in queue order, then every pending callback exactly once; the session is aborted with error set and feed assist cleared |
| Device.AceDevice.Disconnect | extras/ace.py:211-240 | a disconnected device is unchanged; a connected one is marked disconnected in its snapshot and every waiting callback is failed once as above |
| Device.AceDevice.WriterStep | extras/ace.py:436-451 | the head request moves into the callback table; a sent or unencodable request changes nothing else, and an unencodable one goes back at the tail; a failed write disconnects (snapshot marked disconnected, feed assist cleared, session aborted), failing every waiting callback including this one, and leaves it alone in the queue |
| Device.AceDevice.HandleResponse | extras/ace.py:469-488 | the callback for the response's id, if any, is removed and called exactly once, and its effect on the session comes first; a `result` object is then normalised and merged into the snapshot and, if the session is still active, observed |
| Device.AceDevice.AnswerCallback | extras/ace.py:471-475 | the callback under the response's id is removed from the table and called once with the response; the session takes the call's effect |
| Device.AceDevice.HandleParkingResponse | extras/ace.py:490-516 | the session becomes exactly `Observe` of the old session and the poll |
| Device.AceDevice.CheckParkingProgress | extras/ace.py:584-607 | the answer is `CheckProgress` of the session; the dwell flag is set exactly when the park is still running or was already set |
| Device.AceDevice.OnDwellElapsed | extras/ace.py:604-605 | the dwell's timer clears the flag |
| Device.AceDevice.CompleteParking | extras/ace.py:520-537 | with no active park nothing changes; otherwise `stop_feed_assist` for the parked slot is sent as `send_request` does, the session, after the effect of any overflow, returns to idle without error, and feed assist is cleared when asked |
| Device.AceDevice.StartParking | extras/ace.py:1537-1556 | the session is armed for the slot at the given time, then `start_feed_assist` for that slot is sent as `send_request` does; an overflow's calls act on the armed session |
| Device.AceDevice.OnStartFeedAssistReply | extras/ace.py:1546-1554 | the session becomes `OnStartReply` of the reply the callback receives |
| Protocol.Notices | extras/ace.py:247-256 | failing a queue makes at most one invocation per entry, all with the same reply, and one for every entry with a callback |
| Protocol.NoticesComeFromEntries | extras/ace.py:247-256 | every invocation made is the one of some queued entry with a callback |
| Protocol.NoticesOnePerEntry | extras/ace.py:247-256 | when every entry has a callback, exactly one invocation per entry, the i-th for the i-th entry |
| Protocol.NoticesAppend | extras/ace.py:247-256 | failing two queues one after the other calls the first one's callbacks first: the queue order is kept |
| Protocol.ResponseId | extras/ace.py:471-472 | the integer `id` of a response, when it has one |
| Protocol.ResponseResult | extras/ace.py:476 | the `result` of a response, when it is an object |
| Protocol.ReportsReady | extras/ace.py:492 | `status` is `ready` |
| Protocol.AssistCount | extras/ace.py:493 | the reported `feed_assist_count`, 0 when absent |
| Protocol.NormaliseResult | extras/ace.py:478-483 | a `dryer_status` object is also published under `dryer`; every other key and value is kept |
| Protocol.MergeInfo | extras/ace.py:484 | `dict.update`: the keys are the union; the result's values win; the snapshot's other values stay |
| Parking.PollOf | extras/ace.py:492-494 | what the observer reads from a result: readiness, counter, time |
| Parking.ReplyObject | extras/ace.py:252-331 | the dictionary each kind of reply hands to a callback: "Connection lost" with code -100 (line 252), "Queue overflow" (line 312), "not connected" with code -1 (line 331), or the response |
| Parking.ObserveAll | extras/ace.py:487-488 | results arriving one after another, observed only while the session is active |
| Parking.Observe | extras/ace.py:500-516 | a poll that is not ready changes nothing; a changed counter becomes the baseline and resets the hits; an unchanged one adds a hit; "increased" is set exactly by a changed positive counter; the session fails only on an unchanged counter past 3 s without an increase |
| Parking.CheckProgress | extras/ace.py:584-607 | the three answers are mutually exclusive; completed exactly when active, no error, enough hits and the counter increased; error exactly when the error flag is set |
| Parking.Start | extras/ace.py:1537-1542 | arming gives an active session with no error, the slot, the start time, no hits and no increase; the last counter stays |
| Parking.OnStartReply | extras/ace.py:1546-1552 | a non-zero code stops the session; otherwise the reply's counter (0 when absent) becomes the baseline; slot, error and increase are never touched |
| Parking.Complete | extras/ace.py:520-537 | completion of an active session leaves it idle without error and with no slot; an idle one is unchanged |
| Parking.Abort | extras/ace.py:266-269 | the disconnect reset leaves no active session, with the error flag set |
| Parking.TransitionsKeepConsistency | extras/ace.py:490-537 | every transition keeps an active session error-free and on a local slot 0..3 |
| Parking.ObserveAllKeepsConsistency | extras/ace.py:487-516 | any run of polls keeps the session well formed |
| Parking.IncreaseNeedsPositiveCount | extras/ace.py:501-505 | "increased" is only ever set by a ready poll with a positive counter |
| Parking.NoCompletionWithoutPositiveCount | extras/ace.py:599-600 | a session that never sees a positive counter never completes |
| Parking.SteadyPollsCountHits | extras/ace.py:507-508 | after an increase, each ready poll with the counter unchanged adds exactly one hit and changes nothing else |
| Parking.SteadyPollsComplete | extras/ace.py:599-600 | after an increase, enough unchanged ready polls complete the park |
| Parking.SteadyPollsStall | extras/ace.py:507-516 | before an increase, unchanged ready polls lead to a failed, inactive session once a poll comes after the 3 s deadline |
| Parking.NotActiveIgnoresPolls | extras/ace.py:487-488 | an inactive session ignores every poll |
| Parking.ChangingCountsNeverComplete | extras/ace.py:501-505 | ready polls whose counter changes every time keep the hits at 0; the park stays in progress and never completes |
| Parking.StartReplySetsBaseline | extras/ace.py:1537-1552 | a start reply reporting counter c arms a fresh session with c as its baseline |
| Parking.StartReplyBaselineStalls | extras/ace.py:1546-1552 | when the start reply and every later poll report the same counter, the park ends in error, never completed |
| Router.RankMonotone | extras/ace.py:720 | a smaller configured id is numbered before a larger one |
| Router.RankBound | extras/ace.py:720 | every configured id's position is below the number of devices |
| Router.DenseIsArithmeticIff | extras/ace.py:714-724 | the dense numbering equals `4 * id` for every device exactly when the ids are 0 .. k-1 |
| Router.GapShiftsNumbering | extras/ace.py:719-724 | with unit 1 configured alone, its first slot is global slot 0 |
| Router.CoverStep | extras/ace.py:721-724 | entering one more local slot under the next number keeps the two tables inverse and dense |
| Router.ValgAce.constructor | extras/ace.py:626-659 | a router over a set of ids starts with both tables built |
| Router.ValgAce.BuildSlotMapping | extras/ace.py:711-726 | the total is 4 × devices; the slot table's keys are exactly 0 .. total-1; both tables cover every slot of every device, are mutual inverses, and number slots by device order |
| Router.ValgAce.MapDevice | extras/ace.py:721-724 | one device's four slots receive the next four consecutive global slots |
| Router.ValgAce.GetDeviceAndSlot | extras/ace.py:729-750 | `(None, -1)` exactly for a slot outside the table or of an unconfigured device; otherwise the table's placement |
| Router.ValgAce.GetGlobalSlot | extras/ace.py:752-762 | -1 for a pair that is not in the table |
| Router.ValgAce.GlobalToLocal | extras/ace.py:764-775 | defined exactly for 0 .. total-1, and then `4 * device + local` is the slot with local in 0..3 |
| Router.ValgAce.LocalToGlobal | extras/ace.py:777-791 | defined exactly for a configured device and local slot 0..3, and then divides back into that device and slot |
| Router.ValgAce.SlotLeadsBack | extras/ace.py:729-762 | every global slot in range leads to a configured device and local slot, and back to itself |
| Router.ValgAce.PlacementLeadsBack | extras/ace.py:729-762 | every slot of a configured device has a global slot in range, numbered densely, that leads back to it |
| Router.ValgAce.UnknownKeys | extras/ace.py:738-762 | lookups of unknown keys answer `(None, -1)` and -1 instead of raising |
| Router.ValgAce.ArithmeticAgreesIff | extras/ace.py:711-791 | `local_to_global` agrees with the table on every configured slot exactly when the configured ids are 0 .. k-1 |
| Router.ValgAce.GapBreaksArithmetic | extras/ace.py:711-791 | with unit 1 alone, the table numbers its first slot 0 while `local_to_global` says 4, a slot `global_to_local` rejects and the table does not know |
| InfinitySpool.CheckItems | extras/ace.py:1834-1847 | item-by-item validation from a position: the entries, or the first refusal; `CheckItemsOk` and `CheckItemsErr` state both sides |
| InfinitySpool.ValidateOrder | extras/ace.py:1816-1847 | what `ACE_SET_INFINITY_SPOOL_ORDER` makes of the items; `ValidateOrderOk` and `ValidateOrderErr` state both sides |
| InfinitySpool.ReadOrder | extras/ace.py:1873-1890 | reading the saved order back: nothing for an unset order or an item that is not a number |
| InfinitySpool.ReadItems | extras/ace.py:1880-1886 | reading the items back one by one; `ReadSavedItems` is its round trip with the save |
| InfinitySpool.SetOrder | extras/ace.py:1816-1847 | the validation loop returns exactly `ValidateOrder` of the items |
| InfinitySpool.CheckItemsOk | extras/ace.py:1834-1847 | validation from a position succeeds exactly when every later item is `none` or a slot in range, and then maps each item to its entry |
| InfinitySpool.CheckItemsErr | extras/ace.py:1834-1847 | a refusal names the first unacceptable item at its 1-based position: an out-of-range slot with its number, or an invalid item |
| InfinitySpool.ValidateOrderOk | extras/ace.py:1816-1847 | an order is accepted exactly when it is non-empty, no longer than the slot count and every item is acceptable; the entries follow the items one for one |
| InfinitySpool.ValidateOrderErr | extras/ace.py:1818-1831 | "missing" exactly for an empty ORDER; "too many" exactly for more items than slots |
| InfinitySpool.SavedTokens | extras/ace.py:1850 | the saved text has one item per entry |
| InfinitySpool.ReadSavedItems | extras/ace.py:1850-1886 | reading the saved items back gives the entries back |
| InfinitySpool.SavedOrderReadsBack | extras/ace.py:1850-1886 | round trip: an accepted order, once saved, reads back in `ACE_INFINITY_SPOOL` as the same order |
| InfinitySpool.FindPosition | extras/ace.py:1893-1912 | -1 exactly when the current slot is not in the order; otherwise a position holding it: the saved position when that matches, else the first one |
| InfinitySpool.NextReady | extras/ace.py:1918-1930 | a found slot is ready and at a position reached after every earlier position in the wrap-around scan was not ready; none found exactly when no position holds a ready slot |
| InfinitySpool.VisitCovers | extras/ace.py:1918-1919 | the wrap-around scan visits every position |
| InfinitySpool.CurrentOnlyAsLastResort | extras/ace.py:1918-1930 | the scan lands on the current position only when no other position holds a ready slot |
| Sets.HasMinimum | extras/ace.py:720 | a non-empty set of ids has a least element, the first of `sorted(...)` |
| Sets.BelowSize | extras/ace.py:720-724 | the ids 0 .. n-1 are n ids |

## Left out

- Serial I/O: opening, reading and writing the port, and `connect`/`reconnect` themselves. A read is a parameter of `OnBytesReceived`; a write's outcome is a parameter of `WriterStep`.
- Device.AceDevice.ProcessMessages: a reconnect fired inside the decoder is counted in `resets`. Its effect on the rest of the device (failing the callbacks, aborting a park) is not applied within the call, because the reconnect happens through the serial layer, which is not part of this model.
- Device.AceDevice.WriterStep: after a failed write the source's `reconnect` also calls `connect`. The model leaves the link disconnected, because opening the port is not modelled.
- Device.AceDevice.RequestStatus: the 0.2 s / 1.0 s cadence test and `_last_status_request` are not modelled, because they depend on the reactor's clock. The method is the request the test lets through.
- Reactor timers and the poll cadence of the reader and writer loops are not modelled. The dwell armed by `check_parking_progress` is the `dwellScheduled` flag, cleared by `OnDwellElapsed`.
- JSON encoding and decoding are not modelled. A payload is opaque bytes, and a decoded message is a map. A JSON or UTF-8 error on a good frame is not modelled; the frame's payload is handed on either way.
- Device.AceDevice.HandleResponse: only an integer `id` is matched against the callback table. Python would also match `5.0` or `True` to an integer key.
- Parking.OnStartReply: a `feed_assist_count` that is not an integer is read as 0 (`Protocol.AssistCount`); Python would store the value as it is.
- Parking.Observe: likewise, a polled `feed_assist_count` that is not an integer is read as 0 through `Parking.PollOf`; Python would compare the value as it is.
- Parking.ReplyObject: the "not connected" reply's error text omits the device number. No modelled callback reads the text.
- Frame.EncodeFrame: a payload over 0xFFFF bytes has no packet. In the source `struct.pack` raises outside any `try`, so the exception leaves `_writer_loop`; the model does not follow an exception out of the reactor's timer.
- The effects of callbacks outside this model are not modelled: the `info_callback` of `connect` and the G-code command callbacks. The status callback's `update` with a result that is not an object is left out too.
- Device.AceDevice.SendRequestSafe: the `queue.Full` and other-exception branches are not modelled. `send_request` empties a full queue before it puts, so `queue.Full` cannot occur.
- Sensor-based ("aggressive") parking, the tool-change sequence with its busy-wait, and the 30 s infinity-spool parking timeout are not modelled.
- G-code command parsing and output, `save_variables` persistence and the status aggregation for the printer's web interface are not modelled. The order text is represented by tokens (`none`, a number, or text that is not a number).
- Python dictionary iteration order when failing pending callbacks is not modelled. `ClearPendingOperations` states that each pending callback is called exactly once, in some order.
