# OmniSMS, its core verified in Dafny

OmniSMS receives SMS messages through a modem, puts long ones together, keeps them in a small store,
forwards them to push channels and email, and serves a web page. Its portable core is a set of state
machines and codecs without input or output. This project models that core, and the parts of the Linux
and ESP-IDF ports that keep it safe, and proves what the code promises about them.

A `std::string` is `Text.Bytes`, a sequence of bytes. Time is an argument. Each stateful part exists
twice: as functions on values, about which the laws are proved, and as a class (or a method with loops)
that works in place as the source does and is proved to do exactly what the functions say.
What the functions say is told once more without them: bytes, numbers and names as literals, formats as
grammars that hold in both directions (`ConcatTexts`, `ConcatSteps`, `SegmentCharacters`, `JsonTrees`,
`ConfigMeaning`, `ConfigText`, `ConfigFields`, `ImportFields`, `SnapshotFormat`, `Sha256Constants`, `Sha256Example`).

| files | part |
|---|---|
| `Concat`, `Assembler`, `ConcatRuns`, `ConcatOrder`, `ConcatDelivery`, `ConcatTexts`, `ConcatSteps`, `ConcatExamples` | reassembly of long messages: five slots, ten parts, eviction and expiry, the texts handed out |
| `CodePoints` | UTF-8, told by the value of its bytes |
| `Segment`, `SegmentCharacters`, `EndToEnd` | cutting a text into parts of whole characters, and the whole way through both |
| `Queue`, `Delivery`, `DeliveryProgress`, `DeliveryLegs`, `PushWorkers` | forwarding: retry queue, completion counting, dispatcher and worker as atomic steps |
| `Store`, `MessageStores` | the message store: rings with deletion holes, refining a list |
| `Lines`, `Base64`, `Snapshot`, `SnapshotFormat`, `StoreSnapshots` | its text snapshot |
| `Blob`, `Nvs`, `Reload`, `IdfInboxes` | its copy in flash, one blob for each message, and start-up |
| `JsonText`, `JsonStrings`, `JsonTrees`, `JsonParsers` | the JSON parser, and the grammar that it accepts |
| `ConfigSchema`, `ConfigParse`, `ConfigText`, `ConfigMeaning`, `ConfigFields` | the configuration: tables of members, parsing and serializing, what an accepted text means |
| `ConfigRoundTrip`, `ConfigRanges`, `Locality`, `ForwardCompat`, `Import`, `ImportFields`, `ImportLimit`, `ImportDefault` | its round trip, ranges, forward compatibility, redacted export and import |
| `Sha256`, `Sha256Constants`, `Sha256Example`, `Sha256Contexts` | SHA-256 and HMAC: the constants, the published example, streaming against one-shot |
| `Tlvs`, `TlvParser` | BER-TLV and swapped-nibble digits |
| `LogRing`, `LogBuffers` | the log ring that survives a reset, store by store, and polling |
| `Text` | bytes, decimal numbers, trimming, joining |

The struct parsers of `core/src/config.cpp` differ only in their member names, types and ranges. Here
they are one member loop over a table, and a struct is the list of its members' values in the order of
the table; `ConfigSchema` holds the tables.

Where the code does not do what its documentation or a first reading suggests, the code is modelled and
the exact condition is proved:

- A feed can reclaim a timed-out slot and drop its parts without a word: exactly when
  `ConcatRuns.LosesExactlyWhen` says, for instance in `ConcatExamples.LatePartDropsAnother`; it cannot
  when `expire` runs first (`ConcatRuns.NothingLost`).
- Parts go to the encoder as C strings, so a NUL byte cuts the text (`EndToEnd.RoundTrip`). `strchr` also
  finds the terminator among the escaped characters, so a NUL counts two units in `Segment`.
- The timestamp of an assembled message is the first non-empty one in order of arrival, so it depends on
  the order (`ConcatExamples.TimestampTellsTheOrder`). The texts do not, unless every part of a message
  comes more than once (`ConcatDelivery.OrderIsIrrelevant`, `ConcatExamples.CopiesTellTheOrder`).
- `restore_snapshot` refuses fields that the store itself accepts (`Snapshot.SnapshotRoundTrip`), and it
  accepts ids that are not in rising order (`Snapshot.FallingIdsAreTaken`).
- After 2^32 - 1 insertions the id counter wraps to 0 and the store's invariant is lost: exactly then
  (`Store.InsertKeeps`, `Nvs.RunAgrees`).
- Flash keeps 255 bytes of a sender or timestamp (`Reload.ReloadKeepsList`).
- Blanking a short secret makes the text longer, so a device whose configuration is just within 1 MiB
  cannot import its own redacted export (`Import.OwnExportChangesNothing`): a new device with a long
  receiver name is one (`ImportDefault.SomeExportIsRefused`).
- A comment at `prev_ring_append` says that an interrupted append loses at most its line and never makes
  the ring invalid. That holds for a stop during the copy, up to the oldest bytes that the copy had
  already overwritten. A stop between the stores of the head and of the checksum makes the ring invalid,
  and the whole log of the last session is lost (`LogRing.AcceptedExactly`).
- A poll of the log that does not get the lock answers the current number of lines without the lines, and
  a client that goes on from that number never gets them (`LogRing.PollingIsExact`).
- `append_len` drops the upper bits of a length over 65535 (`Tlvs.BuildThenParse`).
- An object given as `{}` skips the range checks; its values are in range all the same
  (`ConfigRanges.AcceptedIsInRange`).

## Model

| member | source | states |
|---|---|---|
| Text.DecimalIsNumber | core/src/inbox.cpp:186-210 | decimal text of a number is all digits, never empty, and reads back as that number |
| Text.DecimalHasNoLeadingZero | core/src/inbox.cpp:186-210 | and starts with 0 only for zero itself |
| Text.FirstDigitCounts | core/src/inbox.cpp:212-260 | the value of a decimal text, digit by digit |
| Text.SpacesAre | core/src/text.cpp:8-15 | white space is exactly the six bytes of isspace |
| Text.TrimBytes | core/src/text.cpp:8-15 | trim, as two moving indices, yields the text without white space at either end |
| Text.TrimLeftOnlyDropsSpaces | core/src/text.cpp:8-15 | only white space goes at the front and none is left there |
| Text.TrimRightOnlyDropsSpaces | core/src/text.cpp:8-15 | only white space goes at the end and none is left there |
| Text.TruncateUtf8 | core/src/text.cpp:17-23 | the cut is at a character boundary, the last one that fits, and is marked with dots; a short text stays as it is |
| Concat.FirstHolding | core/src/pdu.cpp:213-215 | the first slot that holds the key, or none |
| Concat.FirstReusable | core/src/pdu.cpp:216-217 | the first slot that is inactive or timed out, or none |
| Concat.Oldest | core/src/pdu.cpp:227-228 | the first slot with the least lastUs |
| Concat.AssembleShows | core/src/pdu.cpp:174-188 | the assembled text is one piece for each index: the text of the part, or, exactly where none came, the bytes of [缺失分段, the number of that very part in digits, and ] |
| ConcatTexts.TextShows | core/src/pdu.cpp:174-188 | the text of a slot, told by its parts alone |
| Concat.ExpireFirst | core/src/pdu.cpp:281-292 | exactly the due slots among the first n are cleared, the others stay |
| Assembler.ConcatAssembler.constructor | core/src/pdu.cpp:195-208 | a new assembler has five cleared slots and has emitted nothing |
| Assembler.ConcatAssembler.FindSlot | core/src/pdu.cpp:210-245 | the search loops over the slot array choose the slot and leave the state that FindStep says |
| Assembler.ConcatAssembler.FirstHolding | core/src/pdu.cpp:213-215 | the first loop finds the first slot that holds the key |
| Assembler.ConcatAssembler.FirstReusable | core/src/pdu.cpp:216-217 | the second loop finds the first inactive or timed-out slot |
| Assembler.ConcatAssembler.OldestSlot | core/src/pdu.cpp:227-228 | the eviction victim is the first slot with the least lastUs |
| Assembler.ConcatAssembler.AssembleSlot | core/src/pdu.cpp:174-188 | the emitted text is the pieces in index order: the text of each part that came, and for any other the bytes [缺失分段, its number counted from one, and ] |
| Assembler.ConcatAssembler.Feed | core/src/pdu.cpp:247-279 | feed in place: the slots, the emissions and the notices are those of FeedStep |
| Assembler.ConcatAssembler.Expire | core/src/pdu.cpp:281-292 | expire in place: the slots, the emissions and the notices are those of ExpireStep |
| ConcatRuns.RunKeepsInvariant | core/src/pdu.cpp:210-292 | over every run of feed and expire, an active slot has 1 <= received < total, received counts its parts, and no two active slots share a key |
| ConcatRuns.IncompleteIsNotEmpty | core/src/pdu.cpp:174-188 | the text of an active slot is never empty |
| ConcatRuns.NoEmitIsSuppressed | core/src/pdu.cpp:231-288 | the non-empty guards in front of the emits never hold back an emit, in any run |
| ConcatRuns.Conservation | core/src/pdu.cpp:210-292 | over every run, each first-copy part has been emitted, or is in a live slot, or was in a timed-out slot that was reclaimed: the counts agree for every part |
| ConcatRuns.LosesExactlyWhen | core/src/pdu.cpp:217-218 | a feed drops parts without a notice exactly when its key is in no slot and the first reusable slot is active and timed out |
| ConcatRuns.NothingLost | core/src/pdu.cpp:210-292 | when expire(now) comes before each feed(now) nothing is ever dropped: every part is emitted or still held |
| ConcatRuns.NoReclaim | core/src/pdu.cpp:281-292 | in such a run no slot is reclaimed at all |
| ConcatRuns.ExpireLeavesNoneDue | core/src/pdu.cpp:281-292 | behind an expire no slot is due, and everything it cleared was emitted as incomplete |
| ConcatTexts.RunHasHistory | core/src/pdu.cpp:210-292 | over every run, each slot held or handed out holds exactly the first copies of the parts fed since it was opened, and is timed by its last new part |
| ConcatTexts.RunFits | core/src/pdu.cpp:247-292 | a slot handed out as complete has every part, one evicted or expired lacks some and holds at least one; its key and total are those of the parts |
| ConcatTexts.HandedOut | core/src/pdu.cpp:174-292 | over every run, each emission of a slot is the text of every part that came and the named gap of every other, with the sender and the first non-empty time; a notice counts the parts that came |
| ConcatSteps.FeedSays | core/src/pdu.cpp:210-279 | one feed, told by the fields of the slots: which of the five is taken and why, what it then holds, what is emitted and said; 30 s, ten parts |
| ConcatSteps.ExpireSays | core/src/pdu.cpp:281-292 | one expire, told the same way: the slots idle for 30 s are handed out in order and cleared, no other changes |
| ConcatOrder.RunRefinesCollectors | core/src/pdu.cpp:210-279 | while at most five keys are open within 30 s, the slots behave as one independent collector for each key, in every run |
| ConcatDelivery.FirstCopyWins | core/src/pdu.cpp:247-279 | an incomplete collector holds the first copy of each part, and nothing was handed out |
| ConcatDelivery.CompletesOnce | core/src/pdu.cpp:262-279 | the part that completes a message hands it out once, joined in index order |
| ConcatDelivery.DeliveredOnce | core/src/pdu.cpp:210-279 | feeding the parts of a message in any interleaving and order emits it exactly once, with its texts joined |
| ConcatDelivery.DuplicateDoesNothing | core/src/pdu.cpp:262-266 | a second copy of a held part changes nothing: not the slot, not its time |
| ConcatDelivery.CollectedOnce | core/src/pdu.cpp:247-279 | a message of which some part comes only once is handed out once if it is complete, with the first copies of its parts; otherwise its collector holds just the parts that came |
| ConcatDelivery.OrderIsIrrelevant | core/src/pdu.cpp:210-279 | two runs fed the same messages, copies included, in different orders and times emit the same texts equally often, if copies agree and of every complete message some part comes only once |
| ConcatExamples.CopiesTellTheOrder | core/src/pdu.cpp:210-279 | where each part of a message comes twice the order does matter: part by part twice emits it twice, each part twice in a row emits it once |
| ConcatExamples.TimestampTellsTheOrder | core/src/pdu.cpp:262-279 | a message of two parts carries the timestamp of the part that came first |
| ConcatExamples.LatePartDropsAnother | core/src/pdu.cpp:210-279 | whatever two parts of different messages come, the second more than 30 s later with no expiry between: the first is lost without an emission or a notice |
| Segment.PartEnd | core/src/pdu.cpp:94-110 | the inner loop takes scanned characters while their units fit and stops at the farthest boundary; which bytes are a character is said by SegmentCharacters.TokensAreCharacters |
| Segment.SplitSms | core/src/pdu.cpp:90-113 | split_sms yields the greedy parts; it fails exactly when a character does not fit a part |
| Segment.GreedyIsShortest | core/src/pdu.cpp:90-113 | no other split into parts that fit has fewer parts |
| Segment.SplitIsShortest | core/src/pdu.cpp:90-113 | the parts join to the text, none is empty, each fits, every cut is on a scanned character, none shorter exists; with two units or more it never fails |
| Segment.PartCount | core/src/pdu.cpp:115-156 | 300 bytes need at most 4 parts of 152 units or 5 of 66 |
| Segment.EncodeText | core/src/pdu.cpp:115-156 | encode_with refuses a bad number, an empty text, more than 300 bytes, and a text of which the codec does not take every part; else the parts carry their index, total and reference |
| Segment.CutIsWhole | core/src/pdu.cpp:115-156 | an accepted text is cut into one to five non-empty parts that join to it |
| SegmentCharacters.TokensAreCharacters | core/src/pdu.cpp:96-105 | scanning well-formed UTF-8 gives one token for each code point, its bytes the encoding: two units from 0x10000 on, or in GSM 7-bit for exactly the listed characters and NUL |
| SegmentCharacters.MalformedIsScanned | core/src/pdu.cpp:96-105 | any other bytes are scanned by their lead byte, up to the end of the text |
| SegmentCharacters.SplitsCharacters | core/src/pdu.cpp:90-113 | a well-formed text is split into groups of whole code points that fit, the fewest possible |
| SegmentCharacters.NoPartStartsInside | core/src/pdu.cpp:90-113 | no part of a well-formed text starts with a continuation byte |
| SegmentCharacters.CutsCharacters | core/src/pdu.cpp:120-122 | 160 or 70 units in one part, 152 or 66 in each of several; 7-bit exactly when every character is printable ASCII or a line end |
| SegmentCharacters.Gsm7Is | core/src/pdu.cpp:80-88 | the 7-bit alphabet is told by the code points |
| SegmentCharacters.PhoneIs | core/src/phone.cpp:46-55 | a number is 3 to 20 bytes, digits with at most a plus in front |
| EndToEnd.Replay | core/src/pdu.cpp:247-292 | driving the assembler object through a run gives the slots, emissions and notices of the run on values |
| EndToEnd.JoinShortens | core/src/pdu.cpp:143-150 | parts pass through C strings: the joined text is unchanged exactly when it has no NUL |
| EndToEnd.RoundTrip | core/src/pdu.cpp:90-292 | any accepted text, cut, sent and fed back in any order within the timeout, is emitted exactly once; it is the text itself if and only if that has no NUL |
| Queue.BackoffSeconds | core/src/push.cpp:325-332 | the doubling loop computes the capped backoff |
| Queue.BackoffBounds | core/src/push.cpp:325-332 | the delay grows with the attempts and stays between its first value and its cap, jitter included |
| Queue.BackoffTable | core/src/push.cpp:325-332 | the delay is 20, 20, 40, 80, 160, 320 and from the sixth attempt on 600 seconds, and a jitter of at most a quarter |
| Queue.AgainIs | core/src/queue.cpp:29-37 | the retried job keeps what it is about, has one attempt more, and is due after that delay |
| Queue.ForwardRetryQueue.Enqueue | core/src/queue.cpp:8-14 | a job is appended unless the queue is full |
| Queue.ForwardRetryQueue.EarliestIndex | core/src/queue.cpp:16-27 | the job taken is the first with the least due time |
| Queue.ForwardRetryQueue.TakeReady | core/src/queue.cpp:16-27 | a due job leaves the queue; nothing happens while none is due |
| Queue.ForwardRetryQueue.Retry | core/src/queue.cpp:29-37 | a failed job comes back later with one attempt more, at most six in all, and only if there is room |
| Queue.ForwardRetryQueue.NextDueUs | core/src/queue.cpp:47-54 | the least due time, or none |
| Delivery.RunKeepsInvariant | ports/linux/src/main.cpp:784-912 | in every interleaving of dispatchers and worker, remaining equals queued jobs plus the leg in flight plus undispatched legs, for each message id |
| Delivery.PhaseMeans | ports/linux/src/main.cpp:784-867 | the two-state automaton for one id counts what the log shows: begins, notices, legs ended |
| Delivery.NoticeTellsTheTruth | ports/linux/src/main.cpp:851-867 | at each notice all announced legs have ended, and it says success exactly when every one of them did |
| Delivery.NotifiedOnce | ports/linux/src/main.cpp:784-867 | an accepted id is notified at most once, and has been exactly when no leg of it is queued, in flight or undispatched |
| Delivery.Quiescent | ports/linux/src/main.cpp:784-912 | with no work left every accepted id has had its notice and no completion record remains |
| Delivery.StepUsesWorth | core/src/queue.cpp:16-37 | every step that does something, new messages aside, lowers a natural number |
| Delivery.Terminates | ports/linux/src/main.cpp:869-912 | so any run without new messages has at most that many effective steps |
| DeliveryProgress.TakenSixTimes | core/src/queue.cpp:16-37 | over every run the jobs of one message, and all jobs together, are taken at most six times for each one enqueued |
| DeliveryProgress.LegTakenSixTimes | ports/linux/src/main.cpp:784-912 | the legs of a message are taken at most six times for each leg announced |
| DeliveryProgress.Progress | ports/linux/src/main.cpp:784-912 | some step other than a new message changes the state, if and only if a job, a leg in flight or an undispatched target is left |
| DeliveryProgress.EveryMessageIsNotified | ports/linux/src/main.cpp:784-912 | from every reachable state some continuation of at most the bound leaves nothing to do, and then every message accepted so far has had its notice |
| DeliveryProgress.EveryScheduleEnds | ports/linux/src/main.cpp:784-912 | and so does every schedule of effective steps that cannot be extended |
| DeliveryLegs.TakeSays | core/src/queue.cpp:16-27 | the worker takes the earliest due job, the first of several, and only that one leaves the queue |
| DeliveryLegs.RetrySays | ports/linux/src/main.cpp:889-912 | a failed job with attempts and room left goes to the back of the queue with one attempt more; nothing else changes |
| DeliveryLegs.NotifySays | ports/linux/src/main.cpp:794-804 | a notice without a message id is one job at the back, if there is room |
| DeliveryLegs.LegsEndAsTheyDid | ports/linux/src/main.cpp:784-912 | over every run the log has one successful end for each leg whose attempt succeeded, and one failed end for each that was given up or rejected |
| PushWorkers.PushWorker.BeginMessage | ports/linux/src/main.cpp:784-792 | begin_message in place is the begin step |
| PushWorkers.PushWorker.Enqueue | ports/linux/src/main.cpp:794-804 | enqueue in place is the enqueue step |
| PushWorkers.PushWorker.FinishLeg | ports/linux/src/main.cpp:851-867 | finish_leg in place is the finish step, notice included |
| PushWorkers.PushWorker.MarkMessage | ports/linux/src/main.cpp:812-815 | the completion callback gets the message, unless its id is 0 |
| PushWorkers.PushWorker.TakeJob | ports/linux/src/main.cpp:869-889 | the first critical section of run is the take step |
| PushWorkers.PushWorker.JobDone | ports/linux/src/main.cpp:889-912 | the second critical section of run is the done step: retry, or finish the leg |
| PushWorkers.CountTargets | ports/linux/src/main.cpp:996-1002 | the counting loop counts the targets: every channel that the rules selected while pushing is enabled, in rising order, and the email last, each once |
| PushWorkers.TargetsAre | ports/linux/src/main.cpp:996-1028 | a channel is a target exactly when pushing is enabled and the rules selected it, the email exactly when configured; each occurs once, the channels rising and the email last |
| PushWorkers.ForwardEvent | ports/linux/src/main.cpp:983-1031 | forward_event in place, told by its effect: with room for all, one job for each target in that order, carrying this event and message id, and no others; it reports whether any was accepted; a dropped message is reported to the completion callback |
| PushWorkers.ForwardIsASchedule | ports/linux/src/main.cpp:983-1031 | one forward_event is a run of the protocol: a begin and the dispatches and rejections of all its legs |
| PushWorkers.DispatchedCount | ports/linux/src/main.cpp:1010-1028 | the number dispatched is the number of jobs the queue gained |
| Store.EmptyOk | core/src/inbox.cpp:14-28 | an empty store satisfies the invariant and lists nothing, and its first ids are 1 |
| Store.InsertKeeps | core/src/inbox.cpp:14-28 | an insertion, new or restored, keeps ids unique, non-zero, at most the counter and rising in ring order, if and only if its id is above those that stay; for a new one, if and only if the counter has not reached 2^32 - 1 |
| Store.InsertSentKeeps | core/src/inbox.cpp:30-43 | the same for the sent ring, entries restored with their id included |
| Store.InsertSays | core/src/inbox.cpp:14-28 | one insertion, told field by field: the new entry, its id, the text cut at 320 bytes, the ring of fifty moved on by one, the rest unchanged |
| Store.InsertSentSays | core/src/inbox.cpp:30-43 | the same for the sent ring of ten |
| Store.AddAppends | core/src/inbox.cpp:14-28 | any insertion appends to the list of live entries; the evicted id is exactly that of the live entry that fell off, 0 for a hole |
| Store.DeleteActsOnList | core/src/inbox.cpp:137-149 | a delete takes the entry with that id off the list, and fails exactly when there is none |
| Store.MarkActsOnList | core/src/inbox.cpp:79-90 | marking changes only the mark of the entry with that id, and fails exactly when there is none |
| Store.EntriesAscend | core/src/inbox.cpp:14-149 | live ids are non-zero, at most the counter, and strictly rising from oldest to newest |
| MessageStores.MessageStore.InsertReceivedEntry | core/src/inbox.cpp:14-28 | the ring write in place is the insertion on values |
| MessageStores.MessageStore.AddReceived | core/src/inbox.cpp:45-54 | add_received in place |
| MessageStores.MessageStore.AddSent | core/src/inbox.cpp:56-65 | add_sent in place |
| MessageStores.MessageStore.MarkForwarded | core/src/inbox.cpp:79-90 | set_forwarded in place |
| MessageStores.MessageStore.Delete | core/src/inbox.cpp:137-149 | delete_received in place |
| MessageStores.MessageStore.ReceivedCount | core/src/inbox.cpp:92-97 | counts the live entries |
| MessageStores.MessageStore.GetReceivedNewest | core/src/inbox.cpp:104-116 | the i-th newest is the i-th from the end of the list |
| MessageStores.MessageStore.GetReceivedById | core/src/inbox.cpp:125-135 | finds the listed entry with the id, and only if there is one |
| Snapshot.SnapshotFits | core/src/inbox.cpp:186-210 | the snapshot of a store within the field limits is under 256 KiB |
| Snapshot.SnapshotRoundTrip | core/src/inbox.cpp:186-374 | restoring a snapshot gives the exact store, holes, heads, counts and counters, if and only if every field is within the limits that restore imposes |
| Snapshot.ReachableIsWellFormed | core/src/inbox.cpp:186-374 | every reachable state whose times fit 32 bits is one the round trip speaks of |
| Snapshot.RestoredIsWellFormed | core/src/inbox.cpp:212-374 | whatever text is restored, the result is one the round trip speaks of |
| Snapshot.FallingIdsAreTaken | core/src/inbox.cpp:212-374 | the order of the ids is not looked at: a text whose ids fall is taken, and gives a store that no operation reaches |
| SnapshotFormat.SnapshotSays | core/src/inbox.cpp:186-210 | the text of a snapshot line by line and field by field: header, counters, fifty and ten lines, END |
| SnapshotFormat.WellFormedIs | core/src/inbox.cpp:212-374 | which stores a snapshot can give, told by the fields and literal limits |
| SnapshotFormat.RestoreGives | core/src/inbox.cpp:212-374 | some text restores to a store exactly when it is one of these, and its own snapshot is one; a text over 256 KiB is refused |
| SnapshotFormat.RestoreIsExact | core/src/inbox.cpp:212-374 | a text restores to this store exactly when it is at most 256 KiB and its lines spell the store field by field, with nothing but white space behind the end |
| StoreSnapshots.TakeSnapshot | core/src/inbox.cpp:186-210 | the loops append exactly the lines of the text |
| StoreSnapshots.RestoreSnapshot | core/src/inbox.cpp:212-374 | the line loop restores what Restore says; a rejected text leaves the store unchanged |
| StoreSnapshots.CopyBySnapshot | core/src/inbox.cpp:186-374 | a store rebuilt through its own snapshot is equal to it |
| Lines.SplitJoin | core/src/inbox.cpp:212-240 | splitting at a byte undoes joining when no piece has that byte |
| Lines.LinesUnlines | core/src/inbox.cpp:212-240 | reading lines undoes writing them |
| Lines.SplitIsExact | core/src/inbox.cpp:220-233 | the fields of a line are the only texts without a tab that join to it by tabs |
| Lines.LinesAreExact | core/src/inbox.cpp:242-246 | the lines of a text are what getline gives: the pieces between line ends, less a carriage return, a last empty one left out |
| Lines.SplitFields | core/src/inbox.cpp:220-233 | the field loop splits at every tab |
| Lines.NumberRoundTrip | core/src/inbox.cpp:212-260 | a printed number reads back as itself |
| Lines.NumberIsExact | core/src/inbox.cpp:234-246 | a field reads as a number exactly when it is a numeral as strtoull takes it, without a leading minus, and at most the limit |
| Base64.EncodeBytes | core/src/crypto.cpp:136-162 | the encoder loop |
| Base64.DecodeBytes | core/src/crypto.cpp:164-202 | the decoder loop: same result and same refusals |
| Base64.DecodeEncode | core/src/crypto.cpp:136-202 | every byte string comes back from its encoding |
| Base64.EncodeDecode | core/src/crypto.cpp:164-202 | every accepted text is the encoding of its bytes, so padding bits are zero |
| Base64.Bijection | core/src/crypto.cpp:136-202 | decoding to these bytes and being their encoding are the same thing |
| Base64.EncodeShape | core/src/crypto.cpp:136-162 | an encoding has 4 characters for every 3 bytes begun, all of them visible |
| Base64.AlphabetIs | core/src/crypto.cpp:136-140 | the 64 characters are A to Z, a to z, 0 to 9, + and /, in this order |
| Base64.GroupIs | core/src/crypto.cpp:142-152 | four characters hold the same 24 bits as the three bytes they stand for |
| Base64.TailIs | core/src/crypto.cpp:153-161 | one or two last bytes give two or three characters and the padding |
| Base64.KnownAnswers | core/src/crypto.cpp:136-162 | test vectors of section 10 of RFC 4648 |
| Blob.ParseBlob | ports/esp-idf/components/idf_inbox/idf_inbox.cpp:56-66 | the reader object reads what the reading functions say, sticky flag included |
| Blob.EntryRoundTrip | ports/esp-idf/components/idf_inbox/idf_inbox.cpp:43-88 | a written blob reads back as the entry, sender and timestamp cut at 255 bytes |
| Blob.ReadIsExact | ports/esp-idf/components/idf_inbox/idf_inbox.cpp:56-169 | bytes read as an entry exactly when they are its blob: version, mark, id and time low byte first, each text behind its length |
| Blob.WrittenIs | ports/esp-idf/components/idf_inbox/idf_inbox.cpp:43-54 | what is written is such a blob of the entry cut at 255 and 65535 bytes |
| Blob.BlobLength | ports/esp-idf/components/idf_inbox/idf_inbox.cpp:43-54 | 14 bytes and the kept texts |
| Nvs.KeyIsInjective | ports/esp-idf/components/idf_inbox/idf_inbox.cpp:68-68 | two ids never share a key |
| Nvs.KeyIs | ports/esp-idf/components/idf_inbox/idf_inbox.cpp:68-68 | the key is m and the id in decimal digits |
| Nvs.ReadableIs | ports/esp-idf/components/idf_inbox/idf_inbox.cpp:114-153 | a blob is read exactly when it has 1 to 2047 bytes and is the blob of an entry |
| Nvs.AddAgrees | ports/esp-idf/components/idf_inbox/idf_inbox.cpp:259-272 | the new message is written to flash and an evicted one erased; flash and RAM agree afterwards if and only if the counter had not reached 2^32 - 1 |
| Nvs.MarkAgrees | ports/esp-idf/components/idf_inbox/idf_inbox.cpp:274-288 | a changed mark is written over the old blob; an unchanged one writes nothing |
| Nvs.DeleteAgrees | ports/esp-idf/components/idf_inbox/idf_inbox.cpp:325-334 | a deleted message leaves flash |
| Nvs.AddSays | ports/esp-idf/components/idf_inbox/idf_inbox.cpp:259-272 | what an arrival does to the list: it goes to the end, unmarked, with the next id and its text stored; at most the oldest falls off |
| Nvs.MarkSays | ports/esp-idf/components/idf_inbox/idf_inbox.cpp:274-288 | exactly the listed entry with that id gets the mark; where none differs nothing is changed or written |
| Nvs.DeleteSays | ports/esp-idf/components/idf_inbox/idf_inbox.cpp:325-334 | exactly the listed entry with that id goes; where there is none nothing happens |
| Nvs.RunAgrees | ports/esp-idf/components/idf_inbox/idf_inbox.cpp:259-334 | flash and RAM agree after every step of a run, if and only if it asks for fewer than 2^32 ids in all |
| Reload.ByAgeIsTheRisingList | ports/esp-idf/components/idf_inbox/idf_inbox.cpp:170-172 | sorting by id gives the one rising list of the entries |
| Reload.NewestIs | ports/esp-idf/components/idf_inbox/idf_inbox.cpp:173-177 | the last fifty entries stay |
| Reload.ReadBounds | ports/esp-idf/components/idf_inbox/idf_inbox.cpp:154-169 | an entry read from any blob fits a blob again and reads back the same |
| Reload.ReloadAgrees | ports/esp-idf/components/idf_inbox/idf_inbox.cpp:154-180 | from flash whose readable blobs lie under the key of their own id, the start-up restores the newest fifty in rising order, and flash and RAM agree |
| Reload.AgreeIsKeyed | ports/esp-idf/components/idf_inbox/idf_inbox.cpp:71-98 | flash that agrees with RAM has every blob under the key of its own id |
| Reload.ReloadKeepsList | ports/esp-idf/components/idf_inbox/idf_inbox.cpp:154-180 | clearing RAM and loading gives the same list with flash unchanged, if and only if every sender and timestamp is at most 255 bytes; the counter becomes the newest listed id |
| IdfInboxes.IdfInbox.constructor | ports/esp-idf/components/idf_inbox/idf_inbox.cpp:154-180 | start-up over any flash: loading on values, its keys met in some order; where the blobs lie under their own keys the order does not matter, and flash and RAM agree |
| IdfInboxes.IdfInbox.ReadBlobs | ports/esp-idf/components/idf_inbox/idf_inbox.cpp:114-169 | the loop over the blobs of any flash collects the readable entries in the order it meets them and erases the bad keys |
| IdfInboxes.IdfInbox.DropOldest | ports/esp-idf/components/idf_inbox/idf_inbox.cpp:173-177 | the oldest entries past fifty go, and their keys from flash |
| IdfInboxes.IdfInbox.LoadInbox | ports/esp-idf/components/idf_inbox/idf_inbox.cpp:154-180 | loading in place is loading on values, for any flash |
| IdfInboxes.KeyedLoads | ports/esp-idf/components/idf_inbox/idf_inbox.cpp:154-180 | where every blob lies under the key of its own id, the order in which the keys are met does not matter |
| IdfInboxes.LoadAgrees | ports/esp-idf/components/idf_inbox/idf_inbox.cpp:154-180 | after a start-up that drops nothing flash and RAM agree if and only if every blob lay under the key of its own id |
| IdfInboxes.IdfInbox.Add | ports/esp-idf/components/idf_inbox/idf_inbox.cpp:259-272 | idf_inbox_add in place, with the id it returns, at any counter |
| IdfInboxes.IdfInbox.SetForwardedMark | ports/esp-idf/components/idf_inbox/idf_inbox.cpp:274-288 | idf_inbox_set_forwarded in place |
| IdfInboxes.IdfInbox.Delete | ports/esp-idf/components/idf_inbox/idf_inbox.cpp:325-334 | idf_inbox_delete in place; true exactly when the id was listed |
| IdfInboxes.SortById | ports/esp-idf/components/idf_inbox/idf_inbox.cpp:170-172 | the sort by id: a permutation in rising order, the only one where no id repeats |
| JsonParsers.JsonParser.Whitespace | core/src/config.cpp:38-42 | skips the leading white space |
| JsonParsers.JsonParser.TakeChar | core/src/config.cpp:44-52 | take in place |
| JsonParsers.JsonParser.UnicodeUnitValue | core/src/config.cpp:72-82 | four hex digits make a unit |
| JsonParsers.JsonParser.AppendUtf8 | core/src/config.cpp:84-101 | append_utf8: the bytes decode to the code point and are the shortest form |
| CodePoints.Utf8IsUnique | core/src/config.cpp:84-101 | bytes that decode by value to a code point in their shortest form are the only such bytes, and of no other code point |
| JsonParsers.JsonParser.UnicodeBytes | core/src/config.cpp:123-145 | surrogate pairs combine, lonely ones are refused; the bytes appended are the UTF-8 form of the code point, told by value |
| JsonParsers.JsonParser.StringBody | core/src/config.cpp:103-149 | the string loop |
| JsonStrings.StringIsExact | core/src/config.cpp:103-149 | a quoted string reads as these bytes exactly when it is spelled by elements: plain bytes, the eight letter escapes, units of four hex digits, and pairs of surrogates that make one code point |
| JsonStrings.LoneSurrogateFails | core/src/config.cpp:123-145 | a surrogate without its partner is refused |
| JsonParsers.JsonParser.BooleanValue | core/src/config.cpp:151-165 | boolean in place |
| JsonParsers.JsonParser.DigitsValue | core/src/config.cpp:178-185 | the digit loop with its limit stops early exactly when the whole number is over the limit |
| JsonParsers.JsonParser.IntegerValue | core/src/config.cpp:167-193 | integer in place, range of int included |
| JsonParsers.JsonParser.UnsignedValue | core/src/config.cpp:195-210 | unsigned_integer in place |
| JsonParsers.JsonParser.PassNumber | core/src/config.cpp:212-240 | skip_number in place |
| JsonParsers.JsonParser.SkipValue | core/src/config.cpp:242-279 | skip_value in place: it terminates and passes exactly the value, to depth 32 |
| JsonTrees.SkipIsExact | core/src/config.cpp:242-279 | skip_value passes over these bytes exactly when they are the text of a JSON value of at most 32 levels, told as a tree; numbers as the grammar of RFC 8259 has them |
| JsonParsers.JsonParser.MemberLoop | core/src/config.cpp:281-332 | the member loop that the struct parsers share |
| JsonParsers.JsonParser.NamedMember | core/src/config.cpp:286-296 | the chain of names: the member with this name is read, any other is passed over |
| JsonParsers.JsonParser.RecordValue | core/src/config.cpp:281-304 | a struct: empty object, member loop, ranges |
| JsonParsers.JsonParser.ItemLoop | core/src/config.cpp:334-348 | the array loop with its upper limit |
| JsonParsers.ParseConfigJson | core/src/config.cpp:17-29 | parse_config_json in place is ParseConfig |
| ConfigMeaning.ParseIsExact | core/src/config.cpp:17-596 | a text is accepted with this configuration exactly when it is a JSON document whose members, by name, mean it: the last of several counts, unknown ones are passed over, absent ones keep their defaults |
| ConfigParse.EscapeAppend | core/src/text.cpp:25-44 | the escape loop |
| ConfigText.QuotedIs | core/src/text.cpp:25-44 | the quoted form byte by byte: five letter escapes, four hex digits for any other control character, every other byte as it is |
| ConfigText.SerializeIs | core/src/config.cpp:601-732 | the text of a configuration is the object of its members, each by name and in the order of the table, commas between, without white space, down to the digits and the escapes |
| ConfigRoundTrip.StringReads | core/src/config.cpp:103-149 | any bytes, control characters and NUL included, come back from their quoted form |
| ConfigRoundTrip.IntegerReads | core/src/config.cpp:167-193 | every int comes back from its decimal text |
| ConfigRoundTrip.ShowReads | core/src/config.cpp:281-545 | the text of a value of any table reads back as the value if all ranges are met, and not at all otherwise |
| ConfigRoundTrip.RootIsSound | core/src/config.cpp:547-596 | in every struct of the configuration the names differ |
| ConfigRoundTrip.RoundTrip | core/src/config.cpp:17-732 | a configuration comes back from its own text, all members seen, if and only if every value is in range and the text is at most 1 MiB |
| ConfigRanges.RootIsProper | core/include/omnisms/config.h:20-128 | every default value has its type and is in range |
| ConfigRanges.AcceptedIsInRange | core/src/config.cpp:17-596 | whatever text is accepted, the result has version 1 and every value in range, also in sections given as an empty object |
| ConfigRanges.AcceptedComesBack | core/src/config.cpp:17-732 | an accepted configuration, written and read again, is the same, if the writing fits |
| ConfigFields.AcceptedIs | core/src/config.cpp:281-596 | an accepted configuration, told member by member: types, ranges as numbers, five channels and six tasks |
| ConfigFields.EveryConfigIsAccepted | core/src/config.cpp:17-732 | and each such configuration is accepted from its own text, if that fits 1 MiB |
| ConfigFields.FrontMembers | core/include/omnisms/config.h:20-128 | the names and the defaults of the first nine members |
| ConfigFields.BackMembers | core/include/omnisms/config.h:20-128 | the names and the defaults of the last eight |
| Locality.SkipLocal | core/src/config.cpp:242-279 | skip_value depends only on the bytes of the value, and on the one behind it only as the end of a number |
| Locality.ValueLocal | core/src/config.cpp:281-545 | so does every struct, array and scalar parser |
| ForwardCompat.PassesOver | core/src/config.cpp:547-596 | the member loop passes over one unknown member and goes on behind it |
| ForwardCompat.UnknownMembersChangeNothing | core/src/config.cpp:17-596 | an unknown member with any value that skip_value takes, put into any object of an accepted text, in front of a member, behind the last one or as the only one, leaves the result the same |
| ForwardCompat.RootHasPlace | core/src/config.cpp:547-596 | every accepted text has a place for such a member |
| Import.PlacesAreRight | ports/linux/src/config_store.cpp:62-141 | the sections and fields named by their place are the ones meant |
| Import.MergeJsonPatch | ports/linux/src/config_store.cpp:90-141 | merge_json_patch in place, with its count |
| Import.ImportPortableConfig | ports/linux/src/config_store.cpp:446-489 | import_portable_config, its JSON branch, in place |
| Import.MergeIsTyped | ports/linux/src/config_store.cpp:90-141 | a merge of two configurations is a configuration |
| Import.ImportTakesAllButSecrets | ports/linux/src/config_store.cpp:446-489 | importing one device's redacted export on another: refused if a value is out of range or the text too long; else everything is taken but the secrets the source has, for which the device keeps its own |
| Import.OwnExportChangesNothing | ports/linux/src/main.cpp:680-697 | a device that imports its own redacted export keeps every value, secrets included, and needs no restart, if and only if the export is at most 1 MiB |
| ImportFields.ExportHidesSecrets | ports/linux/src/main.cpp:680-697 | an export is the text of the configuration in which exactly the non-empty passwords, channel urls, keys and bodies, told by name, read __REDACTED__ |
| ImportFields.ImportedIff | ports/linux/src/config_store.cpp:446-489 | a text is imported exactly when it starts with a bracket, is accepted, has a section, and what the device then holds is in range, fits and has rules that hold |
| ImportFields.ImportSays | ports/linux/src/config_store.cpp:90-141 | then each section that the text has is taken, blanked secrets aside, and the rest stays; the answer counts the sections and asks for a restart exactly when one of five members, told by name, differs |
| ImportFields.LegacyIff | ports/linux/src/config_store.cpp:450-474 | a text that starts with anything but a bracket is left to the old format |
| ImportLimit.PaddedExportIsRefused | ports/linux/src/config_store.cpp:446-489 | any valid configuration whose export is longer than its text can be padded into a valid one whose own export is refused |
| ImportDefault.DefaultExportIsLonger | ports/linux/src/main.cpp:680-697 | the export of a new device is four bytes longer than its text: its web password has eight bytes |
| ImportDefault.DefaultIsValid | ports/linux/src/config_store.cpp:62-89 | a new device is valid, far below the limit, if an empty rules text is |
| ImportDefault.SomeExportIsRefused | ports/linux/src/config_store.cpp:446-489 | so there is a valid device that refuses its own export |
| Sha256Contexts.RunRounds | core/src/crypto.cpp:51-61 | the 64 rounds over eight variables are those of section 6.2.2 of FIPS 180-4, its constants checked by Sha256Constants |
| Sha256Contexts.Expand | core/src/crypto.cpp:38-50 | the schedule in place is the recurrence of section 6.2.2 |
| Sha256Contexts.ScheduleStep | core/src/crypto.cpp:45-49 | rotations by shifts and another order of the sum give the same word |
| Sha256Contexts.Sha256Ctx.Block | core/src/crypto.cpp:38-64 | block in place |
| Sha256Contexts.Sha256Ctx.Update | core/src/crypto.cpp:66-81 | update takes the data in behind what came before, however the buffer stands |
| Sha256Contexts.Sha256Ctx.PadZeros | core/src/crypto.cpp:88-88 | the padding loop ends after the least number of zeros that section 5.1.1 asks for |
| Sha256Contexts.Sha256Ctx.Finish | core/src/crypto.cpp:83-100 | finish gives the digest of all bytes taken in |
| Sha256Contexts.Chunk | core/src/crypto.cpp:66-81 | a chunk that fills the buffer completes a block, a shorter one waits |
| Sha256Contexts.ZeroCountIsLeast | core/src/crypto.cpp:88-88 | the loop condition holds first at that number of zeros |
| Sha256Contexts.BitCount | core/src/crypto.cpp:85-85 | the 64-bit count of bits is that of the message |
| Sha256Contexts.HashChunks | core/src/crypto.cpp:66-100 | any split of a message into updates gives the one-shot digest |
| Sha256Contexts.HashBytes | core/src/crypto.cpp:104-109 | sha256 in one shot is Hash, which Sha256Example and Sha256Constants tie to the standard |
| Sha256Contexts.HmacBytes | core/src/crypto.cpp:111-134 | hmac_sha256 is HMAC of RFC 2104, long keys hashed first |
| Sha256.HmacIs | core/src/crypto.cpp:111-134 | HMAC told byte by byte: the key padded to 64 bytes and mixed with 0x36 and 0x5c, two hashes |
| Sha256.BlocksChain | core/src/crypto.cpp:38-64 | a further block adds its 64 rounds to the running value, word by word |
| Sha256Constants.PrimesArePrime | core/src/crypto.cpp:10-36 | the first 64 primes, in rising order |
| Sha256Constants.ConstantIsCubeRoot | core/src/crypto.cpp:10-27 | each round constant is the first 32 bits of the fraction of the cube root of its prime |
| Sha256Constants.InitialAreSquareRoots | core/src/crypto.cpp:29-36 | each initial word is the first 32 bits of the fraction of the square root of its prime |
| Sha256Example.HashOfAbc | core/src/crypto.cpp:38-109 | the published digest of abc |
| Sha256Example.LengthIsBigEndian | core/src/crypto.cpp:83-100 | the length field has its high byte first |
| LogRing.AppendHolds | ports/esp-idf/components/idf_logbuf/idf_log.cpp:82-98 | after an append the ring holds the last 8192 bytes of what it held and the data, across the wrap |
| LogRing.TornCopyKeepsTheRest | ports/esp-idf/components/idf_logbuf/idf_log.cpp:82-98 | a copy stopped at any point, read with the old head and count, has all old bytes but the oldest max(0, used + len - 8192) |
| LogRing.ChecksumTells | ports/esp-idf/components/idf_logbuf/idf_log.cpp:62-73 | among the heads and counts that a ring in use can have, no two share a checksum |
| LogRing.ChecksumBits | ports/esp-idf/components/idf_logbuf/idf_log.cpp:62-66 | the checksum bit by bit: the magic, the head, the count shifted by eight and 0xA5A5A5A5, added modulo two |
| LogRing.AcceptedIs | ports/esp-idf/components/idf_logbuf/idf_log.cpp:67-73 | a ring is accepted exactly when its magic, bounds and checksum are right |
| LogRing.AcceptedExactly | ports/esp-idf/components/idf_logbuf/idf_log.cpp:67-98 | a reset after any store of an append: the ring is accepted at the next start if and only if it struck during the copy, after the checksum, or the append fills the whole ring and the head, and the count once stored, are what they were |
| LogRing.StoppedAppendKeeps | ports/esp-idf/components/idf_logbuf/idf_log.cpp:82-251 | an accepted ring gives the last 8192 bytes with the new data if the checksum was stored; before that, the old bytes with only the oldest max(0, used + len - 8192) in doubt, control characters blanked and a cut first line dropped |
| LogRing.AnyMomentKeeps | ports/esp-idf/components/idf_logbuf/idf_log.cpp:82-251 | whatever moment of an append the reset strikes, the start gets nothing from a refused ring, everything with the new data, or all but the oldest bytes |
| LogRing.PollingIsExact | ports/esp-idf/components/idf_logbuf/idf_log.cpp:359-397 | a reader has every line up to its last poll, once and in order, if and only if at each poll nothing was new, or it got the lock and was at most 120 lines behind |
| LogRing.LateReaderGetsTheLast | ports/esp-idf/components/idf_logbuf/idf_log.cpp:359-397 | a reader further behind gets exactly the last 120 lines |
| LogRing.AllReadableIs | ports/esp-idf/components/idf_logbuf/idf_log.cpp:240-251 | control characters but the line end become blanks, no other byte changes |
| LogBuffers.LogBuffer.Append | ports/esp-idf/components/idf_logbuf/idf_log.cpp:82-98 | prev_ring_append in place: once done the ring holds the last 8192 bytes ever appended, oversized appends included; what the memory was after each single store is one of the moments of an append; before start-up is done nothing happens |
| LogBuffers.LogBuffer.CopyBytes | ports/esp-idf/components/idf_logbuf/idf_log.cpp:88-93 | the two copies, byte by byte, write all the data and nothing else, and every state on the way is one of a copy under way |
| LogBuffers.LogBuffer.LogLine | ports/esp-idf/components/idf_logbuf/idf_log.cpp:312-335 | a line goes to both rings, cut at a character boundary; without the lock it is dropped |
| LogBuffers.LogBuffer.LinesSince | ports/esp-idf/components/idf_logbuf/idf_log.cpp:359-397 | a poll answers the number of lines and the missing ones that are still held; without the lock the number only |
| LogBuffers.LogBuffer.Capture | ports/esp-idf/components/idf_logbuf/idf_log.cpp:234-251 | whatever the memory holds: if the ring is accepted its bytes are read, control characters blanked, a cut first line dropped when it was full; then it is cleared and put in use |
| LogBuffers.LogBuffer.AppendBytes | ports/esp-idf/components/idf_logbuf/idf_log.cpp:88-97 | the copies and the stores of head, count and checksum, in this order, with the states in between |
| LogBuffers.StartUp | ports/esp-idf/components/idf_logbuf/idf_log.cpp:234-270 | a start over whatever the memory was left as |
| LogBuffers.ClipLine | ports/esp-idf/components/idf_logbuf/idf_log.cpp:317-324 | a long line is cut at a character boundary, the last one that fits |
| Tlvs.ParsedEncodes | ports/esp-idf/components/idf_esim/idf_esim.cpp:207-266 | what is accepted is an encoding of the result: the children of a constructed node exactly fill its value, and there are at most nine levels |
| Tlvs.EncodingParses | ports/esp-idf/components/idf_esim/idf_esim.cpp:207-266 | every encoding of such an element is accepted, whatever length form it uses and whatever follows |
| Tlvs.ParseIsExact | ports/esp-idf/components/idf_esim/idf_esim.cpp:268-277 | on any input the result is the element the input encodes, if and only if it has at most nine levels |
| Tlvs.LengthReads | ports/esp-idf/components/idf_esim/idf_esim.cpp:279-291 | a written length reads back, modulo 65536 beyond two bytes |
| Tlvs.TagBits | ports/esp-idf/components/idf_esim/idf_esim.cpp:207-219 | which first bytes announce a longer tag or a constructed element, listed |
| Tlvs.TagIs | ports/esp-idf/components/idf_esim/idf_esim.cpp:220-236 | a tag is one byte, or several of which all but the last have the top bit set |
| Tlvs.LengthIs | ports/esp-idf/components/idf_esim/idf_esim.cpp:241-252 | a length field is one byte below 128, or 0x81 to 0x83 and that many bytes, high byte first |
| Tlvs.LengthBytesAre | ports/esp-idf/components/idf_esim/idf_esim.cpp:279-291 | append_len writes the shortest of these forms |
| Tlvs.AppendTlv | ports/esp-idf/components/idf_esim/idf_esim.cpp:293-307 | append_tlv, byte by byte |
| Tlvs.BuildThenParse | ports/esp-idf/components/idf_esim/idf_esim.cpp:207-307 | an element built with append_tlv is read back as itself if and only if it has at most nine levels and at most 65535 bytes of value |
| TlvParser.TagEnd | ports/esp-idf/components/idf_esim/idf_esim.cpp:220-236 | the tag loop with its edge cases at the end of the data |
| TlvParser.LengthEnd | ports/esp-idf/components/idf_esim/idf_esim.cpp:241-252 | the length field, short form or one to three bytes |
| TlvParser.ParseTlvOne | ports/esp-idf/components/idf_esim/idf_esim.cpp:207-266 | parse_tlv_one with its moving position terminates within bounds and gives what ParseOne says |
| TlvParser.ParseTlv | ports/esp-idf/components/idf_esim/idf_esim.cpp:268-277 | parse_tlv |
| TlvParser.BcdRoundTrip | ports/esp-idf/components/idf_esim/idf_esim.cpp:134-161 | any digits come back from their swapped nibbles, fillers skipped; the code has at least ten bytes |
| TlvParser.BcdEncodeIs | ports/esp-idf/components/idf_esim/idf_esim.cpp:134-147 | each byte holds two digits, the first in the low half, fifteen where none is left; ten bytes at least |
| TlvParser.ByteDecodes | ports/esp-idf/components/idf_esim/idf_esim.cpp:148-161 | each byte gives its low half first, fifteen nothing |

## Left out

- PDU bit packing: the pdulib source is not part of this model; which parts the codec takes is a parameter, and it carries the text of one part as a C string.
- Serial port, sockets, HTTP, SMTP, `mmcli` and file renames: the result of a delivery attempt is any boolean, and flash is a map whose writes succeed.
- Condition variables, thread start and stop, and the order of callbacks once the lock is released: only the critical sections are steps.
- Legs with message id 0: they get no completion record.
- Forwarding rules and the blacklist: the mask, the matched flag and the validity of a rules text are parameters.
- Times are unbounded integers: overflow of `int64_t` microseconds is not modelled.
- Delivery.Terminates: speaks of runs without new messages, since new ones bring new work.
- ConcatDelivery.OrderIsIrrelevant: says nothing about the timestamp, which depends on the order of arrival, nor about a message of which every part comes more than once; that the order matters there is shown for messages of two parts only.
- The sent box in flash: the same code as the inbox with fewer fields.
- `MessageStore::json` and the web listings: formatting only.
- JSON error messages and positions: a failure is a failure.
- The `key=value` branch of `import_portable_config` and the web forms: field plumbing; such a text is `Legacy`.
- Sha256Contexts.Sha256Ctx.Finish: the length field is the number of bits modulo 2^64, as in the code; it is that of the standard for messages below 2^61 bytes.
- LogRing.AcceptedExactly: each 32-bit store is one step and the stores reach memory in the order of the source; a compiler or a cache that reorders them is not modelled.
- LogBuffers.LogBuffer.Capture: the header in front of the body, the reset reason and the saving to flash are left out; so is a reset in the middle of the clearing.
- LogBuffers.LogBuffer.LogLine: lines are counted without wrap-around of the 32-bit number.
- IdfInboxes.SortById: `std::sort` is a library call that may put entries with the same id in any order; an insertion sort stands for it.
- Reload.ReloadAgrees: asks that every readable blob lies under the key of its own id, as all blobs written by this code do (`Reload.AgreeIsKeyed`); `IdfInboxes.LoadAgrees` says what happens otherwise.
- PushWorkers.ForwardEvent: what the completion callback does is not modelled, only when it is called.
- `scheduler.cpp`, `call.cpp`, `phone.cpp`, `admin.cpp`, `build_push_request`, email texts and the rest of the eSIM exchange: little to prove beyond one reading.
