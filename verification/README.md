# Door controllers, attendance and the user store: a verified model

This project models an access-control server that drives UNEX 721 (SOYAL H-series) door controllers over an RS-485
line, and proves what the server may claim although the line loses, damages, echoes and refuses messages and the
server may crash between any two steps.

`dafny verify dfyconfig.toml` checks everything.

## How the model is built

* `Bytes`, `Framing`, `SerialLine`: bytes with their bitwise operations, the two frame formats, and the reader that finds
  frames in a noisy byte stream.
* `Devices` (Bus.dfy): the controllers as 1024 records, 65536 EEPROM bytes and an event queue each, and the line as an
  adversary. A request is lost or executed; what comes back is any list of frames, each damaged, an echo of the request, or an
  answer. An acknowledgement of a write may be a lie in both directions. The line follows a script of which nothing is known,
  and keeps a ghost record of the writes sent and of the frames read.
* `Records`, `Protocol`: the 8-byte user record and the operations of the protocol class, each proved against the adversary.
* `SyncImage`, `UploadJobs`, `DeleteJobs`: uploads, full synchronisation and deletion.
* `Comparison`, `SyncedReads`, `ReadTasks`, `JobQueue`, `UserReadJobs`, `EepromPatterns`, `EepromSearchJobs`: the resumable jobs. A job's ghost
  history lists what it did, so that its figures and results are compared with a plain nested loop.
* `Events`, `Attendance`, `AttendanceEngines`, `FifoDrain`, `AttendanceReadJobs`, `DailyView`: from a controller event to the daily
  view. `Attendance` gives the handling of one event as a function; the classes refine it; `FifoDrain` takes it apart into
  the steps between which a crash can happen.
* `Sequences`, `Counting`: small facts shared by the others.
* `Text`, `CardText`, `Normal`, `UserRegistry`, `UserStore`, `CsvText`: spellings of cards, the list of users as a partial map
  from physical cards to users, and the CSV file.

## Assumptions

* A reply that misses its timeout is lost: nothing from an earlier exchange arrives in a later one.
* A damaged frame fails its check bytes. That every single damaged byte is noticed is proved; longer damage that happens
  to fit is outside the model.
* An answer of valid form that carries stored data (12H, 25H, 87H) carries what is stored, and a positive answer to 37H
  means that the event was removed. Nothing like this is assumed of acknowledgements to 83H and 20H.
* Nodes are bytes. Ids, counters and addresses are unbounded integers.
* A store append and a state save each happen whole or not at all.
* While an operation runs, the list of users that was handed to it does not change.

## What the code does not keep

Each of these is a theorem about the code as it is, with the exact condition.

* A short NACK to 25H is taken as an empty queue. A drain ends well if and only if its last read brought a short answer
  (`AttendanceReadJobs.AttendanceReader.DrainOne`), the queue is empty then unless that answer was a NACK, and
  `AttendanceReadJobs.RefusedDrainEndsWell` drains queues that still hold events in this way.
* With a database whose lookup fails on a stored frame, presence moves and the log does not, exactly if the event toggles
  (`Attendance.LostLookupParts`; at work in `FifoDrain.LostLookupAtWork`).
* A frame can be stored twice: with day files if its time does not decode and it was not logged today, in a database if its
  node is 0 and the lookup fails (`Attendance.LoggedAgain`). With day files a frame is safe under every clock if and only if
  its time decodes (`FifoDrain.SafeUnderEveryClock`; a frame that is not, in `FifoDrain.UndecodedAcrossMidnight`).
* A crash between the append of an event and the save of its presence loses that toggle (`FifoDrain.CrashLosesToggle`).
  A crash keeps presence and log in agreement if and only if the presence that the event in hand leads to is saved already
  (`FifoDrain.CalmStep`).
* A deletion job works on copies of the users. If a user got another slot after the job was queued, the job finds or makes the
  old slot invalid and still erases the user. With current copies whoever is erased is refused, whatever the line does
  (`DeleteJobs.DeleteWorker.ProcessDelete`); in `DeleteJobs.EmptySlotIsConfirmed` a job that succeeds erases the user, and
  the user is refused if and only if the copy names the slot of the stored record.
* A database sorts the rows of the daily view by time. The view shows the presence of the engine if and only if the latest of
  the user's rows of that day, the last stored among equal times, is of the kind of the last stored one
  (`DailyView.ViewShowsPresence`); `DailyView.LateRowsAtWork` is a run of two valid frames after which it is not.
* Assigning a card to an unknown user takes it from its owner (`UserRegistry.FailedAssignment`).
* A slot whose mode byte is not 0 to 3 matches on its card alone (`Comparison.UnknownModeMatchesByCard`,
  `Comparison.UnknownModeAtWork`).
* A disabled user with a PIN mode never matches their own record (`Comparison.DisabledPinModeDiffers`).
* An EEPROM search whose range is upside down is completed at once, and announces a negative total if its start
  is two blocks or more above its end (`EepromSearchJobs.TotalIsTasks`); the web layer refuses such a range.
* A full synchronisation counts as many steps as announced exactly if every user has a slot of their own
  (`SyncImage.StepsAreTotal`); the web layer checks that before queueing.
* Splitting a joined list gives it back unless it is one empty field (`Text.SplitOfJoin`).

## Model

| member | source | states |
|---|---|---|
| `Framing.BuildFrame` | src/unex/Unex721Protocol.cpp:68-70 | builds the standard frame |
| `Framing.CheckFrame` | src/unex/Unex721Protocol.cpp:72-74 | accepts exactly the frames whose length, XOR and sum fit |
| `Framing.BuildExtendedFrame` | src/unex/Unex721Protocol.cpp:76-85 | builds the extended frame, nothing for data over 1014 bytes |
| `Framing.CheckExtendedFrame` | src/unex/Unex721Protocol.cpp:87-94 | accepts exactly the extended frames that fit |
| `Framing.FrameIsValid` | src/unex/Unex721Protocol.cpp:68-74 | a built frame is accepted if and only if it has at most 251 data bytes |
| `Framing.ExtendedFrameIsValid` | src/unex/Unex721Protocol.cpp:76-94 | a built extended frame is accepted if and only if it has at most 1014 data bytes |
| `Framing.ValidFrameIsBuilt` | src/unex/Unex721Protocol.cpp:68-74 | every accepted frame is the frame built from its own node, command and data |
| `Framing.OneDamagedByteIsDetected` | src/unex/Unex721Protocol.cpp:68-74 | no accepted frame differs from another in exactly one byte |
| `Framing.OneDamagedByteIsDetectedExtended` | src/unex/Unex721Protocol.cpp:76-94 | the same of extended frames |
| `Bytes.XorIsBitwise` | src/unex/Unex721Protocol.cpp:68-74 | the arithmetic XOR is the bitwise one |
| `Bytes.ClearBit5Bits` | src/unex/Unex721Protocol.cpp:303-328 | clearing bit 0x20 clears that bit and no other |
| `SerialLine.SerialPort.ReadExact` | src/serial/SerialPort.cpp:14 | takes exactly n bytes, or all there are and fails |
| `SerialLine.SerialPort.ReadFrame` | src/serial/SerialPort.cpp:15 | the frame at the first 0x7E within 64 bytes, and what stays unread in every case |
| `SerialLine.SerialPort.ReadExtendedFrame` | src/serial/SerialPort.cpp:16-37 | the frame at the first magic word within 256 bytes, and what stays unread in every case |
| `SerialLine.SerialPort.SkipToMagic` | src/serial/SerialPort.cpp:19-27 | the hand-written matcher stops at the first occurrence of FF 00 5A A5 |
| `SerialLine.MatcherStep` | src/serial/SerialPort.cpp:21-26 | after every byte the state is the length of the longest prefix of the magic word that ends the input |
| `SerialLine.FrameSurvivesNoise` | src/serial/SerialPort.cpp:15 | after up to 63 noise bytes without 0x7E, a frame with up to 246 data bytes is read whole and the tail stays |
| `SerialLine.ExtendedFrameSurvivesNoise` | src/serial/SerialPort.cpp:16-37 | after noise that holds no magic word, an extended frame is read whole, is accepted, and the tail stays |
| `Protocol.Unex721Protocol.Transact` | src/unex/Unex721Protocol.cpp:100-134 | whatever the line does, a reply is a valid frame that is no echo and answers this request; tables and queues change only by this request |
| `Protocol.Unex721Protocol.ReadUser` | src/unex/Unex721Protocol.cpp:418-541 | the decoded record the controller holds if and only if the last frame read is an accepted answer to this 87H in either format, an error otherwise; nothing is written |
| `Protocol.Unex721Protocol.ReadRecord` | src/unex/Unex721Protocol.cpp:418-541 | the same of one format; the record answered to the next request is read |
| `Protocol.Unex721Protocol.SendRecord` | src/unex/Unex721Protocol.cpp:273-280 | one write is sent, the slot is old or new; no failure if and only if an acknowledgement of this 83H was read last |
| `Protocol.Unex721Protocol.VerifyRecord` | src/unex/Unex721Protocol.cpp:283-289 | the read-back succeeds if and only if an accepted answer was read and the slot holds the record |
| `Protocol.Unex721Protocol.SetAndVerify` | src/unex/Unex721Protocol.cpp:273-290 | one write is sent, the slot is old or new; no failure if and only if an acknowledgement was read, then an accepted answer to a 87H, and the slot holds the record |
| `Protocol.Unex721Protocol.WriteUser` | src/unex/Unex721Protocol.cpp:234-301 | all or nothing on one slot; success means the slot holds the record; a rejected user or failed pre-read writes nothing; over a line that answers the three requests a user that can be written is |
| `Protocol.WriteSucceeds` | src/unex/Unex721Protocol.cpp:234-301 | such a line exists for every user that can be written and every slot with a record of a known length: the write is verified |
| `Protocol.Unex721Protocol.ClearUserSlot` | src/unex/Unex721Protocol.cpp:343-373 | all or nothing; success means eight zeros; a line that answers gives it |
| `Protocol.Unex721Protocol.DeleteUser` | src/unex/Unex721Protocol.cpp:375-416 | all or nothing; success means the old record with mode 0; an already invalid slot is not written; a line that answers gives success |
| `Protocol.Unex721Protocol.ReadEeprom` | src/unex/Unex721Protocol.cpp:544-581 | data if and only if the range fits and the last frame read is an accepted answer to this 12H with enough bytes, and then what the EEPROM holds there, of the asked length |
| `Protocol.Unex721Protocol.WriteEeprom` | src/unex/Unex721Protocol.cpp:584-617 | one write is sent for a range that fits, none otherwise; all or nothing on the addressed bytes; success means they hold the data; a line that answers gives it |
| `Protocol.Unex721Protocol.DisablePassAnyCards` | src/unex/Unex721Protocol.cpp:303-328 | success means byte 0x16 lost bit 0x20; a failed read writes nothing; no other byte changes; a line that answers gives success |
| `Protocol.Unex721Protocol.GetOldestEvent` | src/unex/Unex721Protocol.cpp:201-210 | an event is the oldest one queued; no event is reported if and only if a short answer was read, and the queue is empty then unless that was a NACK; the oldest event, when the line brings it, is reported |
| `Protocol.Unex721Protocol.RemoveOldestEvent` | src/unex/Unex721Protocol.cpp:212-216 | at most the oldest event goes; a positive answer means it went, and one that comes is taken |
| `Protocol.Unex721Protocol.AwaitReply` | src/unex/Unex721Protocol.cpp:100-116 | the first of up to three frames that is valid and no echo; the record of frames read shows it last |
| `SyncImage.StepsAreTotal` | src/controllers/ControllerManager.cpp:177-192 | the steps of a node are the announced 1025 if and only if every user has a slot of their own, and never fewer |
| `SyncImage.WrittenIsLast` | src/controllers/ControllerManager.cpp:558-563 | users written in order leave each slot with the last user listed for it |
| `SyncImage.ImageMeaning` | src/controllers/ControllerManager.cpp:520-564 | the image, address by address: the last listed user or eight zeros |
| `SyncImage.ImageOfAllMeaning` | src/controllers/ControllerManager.cpp:504-575 | over several nodes, each listed node gets its image and no other node changes |
| `SyncImage.SyncIsIdempotent` | src/controllers/ControllerManager.cpp:520-564 | synchronising enabled users twice leaves the slots as synchronising once |
| `UploadJobs.UploadJob.constructor` | src/controllers/ControllerManager.cpp:177-183 | the announced total: 1025 per node, or users times nodes |
| `UploadJobs.PhasesMakeImage` | src/controllers/ControllerManager.cpp:534-563 | option off, absent slots cleared, users written: together this is the image |
| `UploadJobs.FullSyncIsExact` | src/controllers/ControllerManager.cpp:520-564 | whatever happened on other nodes, a node listed once without a failed result holds the image slot by slot and byte by byte, and an unlisted node what it had |
| `UploadJobs.BadMeaning` | src/controllers/ControllerManager.cpp:512-518 | the count of failures of a node is zero if and only if none of its listed results is one |
| `UploadJobs.StoredOnAllMeaning` | src/controllers/ControllerManager.cpp:566-572 | what a clean selective upload leaves on each node |
| `UploadJobs.UploadWorker.ClearAbsent` | src/controllers/ControllerManager.cpp:546-556 | the loop over 1024 addresses: absent slots are zeros if all went well, and no slot is anything but old or intended otherwise |
| `UploadJobs.UploadWorker.WriteListed` | src/controllers/ControllerManager.cpp:558-563 | the listed users, in order, in their slots if all went well |
| `UploadJobs.UploadWorker.SyncNode` | src/controllers/ControllerManager.cpp:530-564 | one node, with the early abort: its image if all went well, and the accounting of the skipped steps |
| `UploadJobs.UploadWorker.FullSync` | src/controllers/ControllerManager.cpp:520-564 | every node listed once and without a failed result holds its image; with no failure at all every node is exact; 1025 steps each for users with their own slots |
| `UploadJobs.UploadWorker.ProcessUpload` | src/controllers/ControllerManager.cpp:504-575 | the whole job: exact tables on every node without a failed result, for a full synchronisation and for a selective upload; sane tables always; success + failed + skipped equal to completed, completed equal to total |
| `DeleteJobs.InvalidatedStays` | src/controllers/ControllerManager.cpp:755-799 | a slot with mode 0 keeps it through everything the job does later |
| `DeleteJobs.DeletionsStay` | src/controllers/ControllerManager.cpp:755-799 | so the slots of all users dealt with stay invalid |
| `DeleteJobs.DeleteWorker.DeleteEverywhere` | src/controllers/ControllerManager.cpp:769-781 | all selected nodes are tried; success means mode 0 on each, and no failed step means success |
| `DeleteJobs.DeleteWorker.EraseLocally` | src/controllers/ControllerManager.cpp:783-791 | the records of that id leave the list if and only if every selected node confirmed; the list stays otherwise; one counter moves |
| `DeleteJobs.DeleteWorker.ProcessDelete` | src/controllers/ControllerManager.cpp:755-799 | the store loses exactly the records of the users that every selected node confirmed, all of them if no step failed; their slots, as the job's copies name them, have mode 0 on every selected node at the end, and so have the slots of the erased records if the copies are current; completed is users times nodes; deleted and retained add up; only modes change |
| `DeleteJobs.ErasedByCurrentCopies` | src/controllers/ControllerManager.cpp:783-791 | if equal ids mean equal slots, the slot of every erased record has mode 0 |
| `DeleteJobs.EmptySlotIsConfirmed` | src/controllers/ControllerManager.cpp:783-791 | a job that deletes one user by a copy whose slot is empty succeeds and erases the user from any store; whoever left is refused if and only if the copy names the slot of the stored record |
| `Comparison.PinReadsBack` | src/controllers/ControllerManager.cpp:35-38 | the PIN compared is the PIN written |
| `Comparison.MatchIsRecordOfUser` | src/controllers/ControllerManager.cpp:428-480 | an occupied slot with a known mode matches if and only if it is the record of one of the user's cards with their PIN and mode |
| `Comparison.WrittenIsMatch` | src/controllers/ControllerManager.cpp:428-480 | what was written is read back as a match if and only if it reads as an empty slot, or it can show the user's mode and the written card is one compared |
| `Comparison.NormalUserReadsBack` | src/controllers/ControllerManager.cpp:428-480 | for every enabled user of the store, a written record is a match |
| `Comparison.UnknownModeMatchesByCard` | src/controllers/ControllerManager.cpp:463-478 | an occupied slot whose mode byte is unknown matches if and only if its card is the user's, whatever PIN and activity |
| `Comparison.UnknownModeAtWork` | src/controllers/ControllerManager.cpp:463-478 | a record with mode 4 and PIN 1234 that matches a user without a PIN |
| `Comparison.DisabledPinModeDiffers` | src/controllers/ControllerManager.cpp:428-480 | a disabled user with a PIN mode is always reported as different |
| `SyncedReads.SyncedReadsBack` | src/controllers/ControllerManager.cpp:394-480 | after a clean full synchronisation of enabled users with their own slots, the comparison of an address is a match if it is listed and empty if not |
| `SyncedReads.VisitAfterSync` | src/controllers/ControllerManager.cpp:394-502 | so is every visit of a read job on that node, unless the read failed |
| `JobQueue.HeadChanged` | src/controllers/ControllerManager.cpp:404-425 | moving or finishing the job at the head disturbs no other job |
| `JobQueue.JobAdded` | src/controllers/ControllerManager.cpp:259-308 | a new job takes a new number and the end of the queue |
| `ReadTasks.PreparedMeaning` | src/controllers/ControllerManager.cpp:260-262 | the addresses are those in 1..16383, increasing, each once |
| `ReadTasks.CursorStep` | src/controllers/ControllerManager.cpp:420-424 | moving the cursor adds exactly the next task of the nested loop |
| `ReadTasks.TasksDoNotRepeat` | src/controllers/ControllerManager.cpp:414-425 | distinct nodes and addresses give distinct tasks |
| `UserReadJobs.VisitStep` | src/controllers/ControllerManager.cpp:482-499 | a task keeps the job's figures and results those of its history, and finishes it with exactly all tasks |
| `UserReadJobs.WorkShrinks` | src/controllers/ControllerManager.cpp:420-424 | each task leaves less work |
| `UserReadJobs.ReportsOn` | src/controllers/ControllerManager.cpp:394-502 | while the tables stay, everything a job has read is what they hold, across batches |
| `UserReadJobs.UserReader.QueueUserRead` | src/controllers/ControllerManager.cpp:259-280 | the new job, completed at once if there is nothing to read |
| `UserReadJobs.UserReader.ProcessUserReadBatch` | src/controllers/ControllerManager.cpp:394-502 | every batch keeps all jobs on the nested loop, reports what the controllers hold, writes nothing, and leaves less work |
| `EepromPatterns.CardPatternsFit` | src/controllers/ControllerManager.cpp:46-72 | every pattern of every card has 1 to 13 bytes, none is listed twice, none is dropped but for equal bytes |
| `EepromPatterns.SearchBlock` | src/controllers/ControllerManager.cpp:363-378 | the search loops report the hits of all patterns in the core of a block |
| `EepromPatterns.BlockHitsMeaning` | src/controllers/ControllerManager.cpp:369-378 | those are the occurrences that start in the core, and nothing else |
| `EepromPatterns.BlockSeesImage` | src/controllers/ControllerManager.cpp:358-360 | with 12 bytes of overlap, a block shows every occurrence that starts in its core, across its edge as well |
| `EepromPatterns.BlocksCover` | src/controllers/ControllerManager.cpp:334-335 | the cores cover every address of the range, and no other |
| `EepromSearchJobs.SearchIsPlain` | src/controllers/ControllerManager.cpp:314-392 | without failed blocks and dropped results, a hit is reported if and only if the plain search of the image finds it, and its pattern is an encoding of the card or the present record of a listed address on that node |
| `EepromSearchJobs.EachFoundOnce` | src/controllers/ControllerManager.cpp:314-392 | and each is reported once |
| `EepromSearchJobs.TotalIsTasks` | src/controllers/ControllerManager.cpp:289-304 | the announced total is the number of blocks of all nodes, if and only if its start is less than two blocks above its end or no node is listed |
| `EepromSearchJobs.VisitStep` | src/controllers/ControllerManager.cpp:380-389 | a block keeps counters, errors, results and truncation those of the history |
| `EepromSearchJobs.WorkShrinks` | src/controllers/ControllerManager.cpp:334-336 | each block leaves less work |
| `EepromSearchJobs.ShowsOn` | src/controllers/ControllerManager.cpp:314-392 | while the tables stay, all blocks and records read are what they hold, across batches |
| `EepromSearchJobs.EepromSearcher.Probe` | src/controllers/ControllerManager.cpp:339-356 | the records searched for on a node are the present eight-byte records of the listed addresses that were read |
| `EepromSearchJobs.EepromSearcher.QueueEepromSearch` | src/controllers/ControllerManager.cpp:289-308 | the new job, completed at once without nodes or with a range upside down |
| `EepromSearchJobs.EepromSearcher.ProcessEepromSearchBatch` | src/controllers/ControllerManager.cpp:314-392 | every batch keeps all jobs on the nested loop over blocks, reads what the controllers hold, writes nothing, and leaves less work |
| `Attendance.HandleEffect` | src/attendance/AttendanceEngine.cpp:41-92 | presence changes by a new stored event of an enabled user outside the repeat window and by nothing else; the last read only with a stored event |
| `Attendance.HandleKeepsAgreement` | src/attendance/AttendanceEngine.cpp:41-104 | an event keeps presence equal to the fold of the log |
| `Attendance.PresenceIsFold` | src/attendance/AttendanceEngine.cpp:41-104 | over every run without a lost lookup, arrivals and departures alternate and presence follows the last |
| `Attendance.LostLookupParts` | src/storage/FileStore.cpp:76-85 | when the database loses a lookup, presence and log agree if and only if the event does not toggle |
| `Attendance.DebounceBound` | src/attendance/AttendanceEngine.cpp:64-84 | n toggles of a user span at least (n - 1) * (repeat + 1) seconds, for every run in the order of time |
| `Attendance.LoggedAgain` | src/storage/FileStore.cpp:68-85 | a logged frame is stored again if and only if the append works and, with day files, its time does not decode and it was not logged today, or, in a database, its node is 0 and the lookup fails |
| `Attendance.UniqueUnlessStoredAgain` | src/storage/FileStore.cpp:68-85 | the log keeps one row per frame if and only if no such frame is handled |
| `Attendance.DecodedIsStoredOnce` | src/storage/FileStore.cpp:68-85 | with day files, a frame whose time decodes is stored at most once in every run |
| `FifoDrain.SafeUnderEveryClock` | src/storage/FileStore.cpp:68-85 | with day files, a frame is stored at most once in every run if and only if its time decodes |
| `FifoDrain.UndecodedAcrossMidnight` | src/storage/FileStore.cpp:76-85 | a valid event frame with month 0, read before and after midnight, is stored twice |
| `FifoDrain.LostLookupAtWork` | src/storage/FileStore.cpp:76-85 | three reads of two valid frames after which the log has the user absent and the engine present |
| `Attendance.DatedIsFound` | src/storage/FileStore.cpp:76-85 | a frame with a decoded time is always found in its day file |
| `AttendanceEngines.FileStore.AppendEvent` | src/storage/FileStore.cpp:68-74 | a successful append is a new row, or nothing when the database has the key |
| `AttendanceEngines.FileStore.HasControllerEvent` | src/storage/FileStore.cpp:76-85 | what is found is logged; in day files exactly the frames of that date are found; a failing database answers no |
| `AttendanceEngines.AttendanceEngine.OnControllerAccessEvent` | src/attendance/AttendanceEngine.cpp:41-92 | refines the handling function for an access event, whichever store calls fail |
| `AttendanceEngines.AttendanceEngine.RecordControllerRawEvent` | src/attendance/AttendanceEngine.cpp:98-104 | refines it for any other event |
| `FifoDrain.StepsAreHandle` | src/attendance/AttendanceEngine.cpp:41-92 | the interruptible steps, uninterrupted, are the handling function |
| `FifoDrain.NoEventIsLost` | src/controllers/ControllerManager.cpp:671-691 | in every reachable state, crashes included, each event ever queued is still queued or in the log |
| `FifoDrain.NoEventCountsTwice` | src/attendance/AttendanceEngine.cpp:41-104 | with reliable lookups and decoded times, one row per frame and at most one toggle per event, crashes included |
| `FifoDrain.DatabaseKeepsRowsUnique` | src/storage/MariaDbUserStore.cpp:117-129 | in a database, one row per frame over every run, crashes and failing lookups included, when no node is 0 |
| `FifoDrain.CalmStep` | src/attendance/AttendanceEngine.cpp:15-34 | a step that loses no lookup keeps presence in agreement with the log, whichever appends and saves fail; a crash keeps it if and only if the intended presence is saved |
| `FifoDrain.CrashLosesToggle` | src/attendance/AttendanceEngine.cpp:80-87 | a crash between append and save loses the toggle of the event in hand, if it was one, and nothing else |
| `FifoDrain.PresenceSurvivesCrashes` | src/attendance/AttendanceEngine.cpp:41-104 | over every run that loses no lookup and whose crashes find the user's intended presence saved, presence agrees with the log once the event in hand is carried through; appends and saves may fail |
| `AttendanceReadJobs.AttendanceReader.HandleControllerEvent` | src/controllers/ControllerManager.cpp:637-692 | removal is asked for after the event is stored, and only then |
| `AttendanceReadJobs.AttendanceReader.DrainOne` | src/controllers/ControllerManager.cpp:704-748 | a drain ends well if and only if the read brought a short answer; a NACK does it whatever is queued |
| `AttendanceReadJobs.AttendanceReader.ProcessAttendanceReadBatch` | src/controllers/ControllerManager.cpp:694-753 | a batch that goes on removed twenty events; a job ends well if and only if the last read brought a short answer, has stored all it read then, and the queue is empty unless that answer was a NACK |
| `AttendanceReadJobs.AttendanceReader.DrainInBatches` | src/controllers/ControllerManager.cpp:694-753 | after n batches the job is over, in the same way, unless at least 20 n events were queued before or during the drain; over a line that answers and into a log that takes events it ends well with all of them read |
| `AttendanceReadJobs.ServedDrainEndsWell` | src/controllers/ControllerManager.cpp:694-753 | such a line exists for every queue of frames: the drain reads and stores all n events, leaves the queue empty and ends well |
| `AttendanceReadJobs.RefusedDrainEndsWell` | src/controllers/ControllerManager.cpp:714-724 | drains of any queue with events that end well with nothing read |
| `DailyView.FoldDay` | src/storage/FileStore.cpp:138 | the loop leaves for each user exactly the summary of their rows |
| `DailyView.UpdatedSummary` | src/storage/FileStore.cpp:138 | first arrival, last departure, presence and last event follow from the rows one by one |
| `DailyView.BeforeIsStrictWeak` | src/storage/FileStore.cpp:139 | the sort order is a strict weak order |
| `DailyView.ByTimeOrders` | src/storage/MariaDbUserStore.cpp:138-140 | the rows of the database: the same ones, in the order of time |
| `DailyView.LoadDailyAttendance` | src/storage/FileStore.cpp:132-140 | one record per user with a row in the events loaded, sorted, each the summary of the user's rows |
| `DailyView.MineOfByTime` | src/storage/MariaDbUserStore.cpp:138-140 | sorting the day by time sorts each user's rows by time, equal times in the order stored |
| `DailyView.LatestMeaning` | src/storage/MariaDbUserStore.cpp:138-140 | the row shown last is the latest one, the last stored among equal times |
| `DailyView.ViewShowsPresence` | src/storage/FileStore.cpp:132-140 | when the user's last toggle was that day, the view shows the engine's presence with day files always, and with a database if and only if the latest of the user's rows has the kind of the last stored one |
| `DailyView.OrderedRowsShowPresence` | src/storage/FileStore.cpp:132-140 | in particular if the user's own rows were stored in the order of time |
| `DailyView.LateRowsAtWork` | src/storage/MariaDbUserStore.cpp:138-140 | two valid frames, handled at 11:00 and then late from 10:00, after which the engine has the user absent and the view of the database present |
| `Text.ScanUnsigned` | src/utils/Util.cpp:13-30 | the digit loop reads a decimal number with its bound, or fails |
| `Text.TrimIsTrimmed` | src/utils/Util.cpp:55 | trimming leaves no white space at the ends and trimmed text alone |
| `Text.ParsePrinted` | src/utils/Util.cpp:13-30 | a printed number is read back if and only if it is within the bound |
| `Text.SplitLoop` | src/utils/Util.cpp:54 | the loop gives the fields, a trailing empty one included |
| `Text.SplitOfJoin` | src/utils/Util.cpp:54 | splitting undoes joining if and only if the list is not one empty field |
| `Text.JoinOfSplit` | src/utils/Util.cpp:54 | joining undoes splitting, for every text |
| `CardText.CardRoundTrip` | src/utils/Util.cpp:79-104 | a formatted card is read back |
| `CardText.CanonicalIsCanonical` | src/users/UserManager.cpp:29-33 | the canonical form is its own, and two spellings share it if and only if they denote one card |
| `Normal.NormalizeMakesNormal` | src/users/UserManager.cpp:56-75 | normalising gives a record with canonical distinct cards, mirrored primary, valid PIN and mode |
| `Normal.NormalizeIsIdle` | src/users/UserManager.cpp:56-75 | a normal record is left alone |
| `Normal.RemoveCardKeeps` | src/users/UserManager.cpp:121-126 | removing a card removes it, no other, and keeps the record normal |
| `UserRegistry.UpsertRefines` | src/users/UserManager.cpp:197-214 | storing a user gives them their cards and takes these from everybody else |
| `UserRegistry.AssignRefines` | src/users/UserManager.cpp:217-230 | assigning a card moves it to one user |
| `UserRegistry.EnsureRefines` | src/users/UserManager.cpp:232-254 | an unowned card gets a new user, an owned one changes nothing |
| `UserRegistry.EraseRefines` | src/users/UserManager.cpp:215-216 | erasing users removes them and their cards from the map |
| `UserRegistry.RemoveRefines` | src/users/UserManager.cpp:255-262 | removing a card removes it from the map |
| `UserRegistry.RunRefines` | src/users/UserManager.cpp:192-262 | every sequence of operations keeps the list a partial map from cards to users, and does to it what it does to the map |
| `UserRegistry.OneOwner` | src/users/UserManager.cpp:117-126 | two records never hold the same physical card, whatever the spelling |
| `UserRegistry.FailedAssignment` | src/users/UserManager.cpp:217-230 | an assignment to an unknown user leaves the list alone if and only if nobody owns the card |
| `UserStore.UserManager.ByCard` | src/users/UserManager.cpp:192-195 | the first record that holds the card |
| `UserStore.LookupIsOwner` | src/users/UserManager.cpp:192-195 | which is the owner the map gives |
| `UserStore.UserManager.Upsert` | src/users/UserManager.cpp:197-214 | the nested loops do what the list function says |
| `UserStore.UserManager.Erase` | src/users/UserManager.cpp:215 | the user goes; success means somebody went |
| `UserStore.UserManager.EraseMany` | src/users/UserManager.cpp:216 | the users go; the result counts them |
| `UserStore.UserManager.AssignCard` | src/users/UserManager.cpp:217-230 | the loop does what the list function says, also when it fails |
| `UserStore.UserManager.EnsureUserForCard` | src/users/UserManager.cpp:232-254 | the result holds the card |
| `UserStore.UserManager.RemoveCard` | src/users/UserManager.cpp:255-262 | the loop does what the list function says; success means somebody lost a card |
| `UserStore.UserManager.ImportCsv` | src/users/UserManager.cpp:267-270 | all rows or none |
| `CsvText.RowRoundTrip` | src/users/UserManager.cpp:88-115 | a printed row is read as the normal user with cleaned text, and prints the same again |
| `CsvText.CardsRoundTrip` | src/users/UserManager.cpp:77-86 | the list of cards survives its encoding |
| `CsvText.ExportImport` | src/users/UserManager.cpp:266-270 | importing an export gives every user back, and exporting that gives the same file |

## Left out

- The text of messages and results, the notes of EEPROM jobs, and the per-step result list of delete jobs.
- Commands 80H, 23H, 24H and 85H and the live polling and raw-event callbacks: full synchronisation and draining do not use them.
- The 24-byte Enterprise record, except where it is read and where the write checks reject it.
- Stopping the worker during a job, and dropping old jobs beyond the caps of 20 and 12.
- The cast of node numbers to bytes: nodes are bytes from the start.
- Auto-creation of users for unknown cards during event handling, and resets of presence.
- The merge of old state keys at start-up, the refresh of stored names, and the map of last activities.
- Merging a CSV list into an empty database, and the database as user store: a save either succeeds or fails.
- Which of two equal records comes first in the daily view: the program's sort is not stable, and the contract leaves it open.
- Time zones and daylight saving: a time stamp counts its seconds as the calendar says.
- UserStore.UserManager.ImportCsv: does not claim that imported ids or cards are unique, because the code does not check it.
- Protocol.Unex721Protocol.ReadUser: an answer is read back as stored, so damage that fits both check bytes is not modelled.
- Attendance.PresenceIsFold: users and card owners are fixed during a run, since reassignment moves a card's events to another user.
- Termios, polling, threads, sockets, SQL and the file system.
