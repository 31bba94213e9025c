# A verified model of the FAST acquisition program

The repository is the software of a fast photometric camera: a C program that grabs frames,
accumulates and stores them and serves clients over sockets, with a Python web front end, on a
small support library of its own. This project models the parts of it that are algorithms or
state machines and proves what they are there for.

| file | subject | source |
|---|---|---|
| `QuickSelect.dfy` | in-place selection, median, median absolute deviation | `utils.c` |
| `Calendar.dfy` | dates, Julian dates and intervals | `time_str.c` |
| `LinkedRing.dfy` | the intrusive circular list | `lists.h` |
| `CommandQueue.dfy` | commands waiting for a reply, on that list | `command_queue.c` |
| `Timers.dfy` | the timer sweep, on that list | `server.c` |
| `SweepOrder.dfy`, `ServerCycle.dfy` | whose turn comes in a sweep; connections, restarts and the main cycle | `server.c` |
| `Bytes.dfy`, `ServerRead.dfy`, `StreamEnd.dfy` | the reading side of a connection; the end of its stream | `server.c` |
| `Wire.dfy` | the sending side, the Python client, and both together | `server.c`, `fast.c`, `webfast.py` |
| `Storage.dfy` | the directories that frames are stored in | `fast_storage.c` |
| `MessageQueue.dfy`, `Pipeline.dfy`, `Fates.dfy` | bounded queues, the three threads that share them, and what becomes of the images | `queue.c`, `fast_grabber.c`, `fast.c`, `fast_storage.c` |
| `Pixels.dfy`, `Scaling.dfy` | sums over images; scaling up and down | `image.c` |
| `Postprocess.dfy` | dark frame and stripe removal | `fast.c` |
| `RegionFlux.dfy` | the region of interest and the flux in it | `fast.c` |
| `Windows.dfy`, `Accumulation.dfy` | cumulative and running images and the reports on them, as a state machine and in place | `fast.c`, `image.c` |
| `ArgvSplit.dfy` | splitting a command line into one buffer | `popen_noshell.c` |
| `CommandParse.dfy`, `CommandArgs.dfy`, `CommandStrings.dfy` | tokens of a command; matching arguments to tokens; the strings they get | `command.c` |
| `Quoting.dfy`, `Wrappers.dfy` | quotation marks; optional values | |

Code that changes arrays, lists or fields in place is modelled as methods over arrays and
classes, each with a specification function for its result; the lemmas are about those
functions. A thread, a socket or a camera is a source of nondeterministic choices. `double` is
`real`, integers are unbounded with casts and wrap-around written out where the source has
them.

Where the code does something other than what one would expect of it, the model follows the
code, and the exact condition is proved:

- Calendar dates before 1582-10-15 do not survive the trip through the Julian date, because only
  the way out knows the Julian calendar; those from 200-03-01 to 300-02-28, when both calendars
  agree, do (`Calendar.RoundTripExactly`). Later dates do while their year survives the casts, the
  first day lost being 32768-01-01 (`Calendar.DayRoundTripExactly`).
- A restart requested for a connection that is already waiting for one leaves two pending timers
  (`ServerCycle.Server.RestartConnection`), and closing one that is waiting leaves its timer behind
  (`ServerCycle.Server.CloseConnection`), as `ServerCycle.RestartedWhileWaiting` and
  `ServerCycle.ClosedWhileWaiting` show. Nothing in a cycle does either.
- When a read closes a connection, the sweep steps over its successor, but closing the last one of
  the list starts the sweep over. A ready connection is read exactly when one more than the number
  of closing reads directly before it in the list can be halved no more often than one more than
  the number of those at the end of the list (`SweepOrder.ReadExactly`). So every ready one is read
  if none stands directly behind one that closes, and only then, unless the last one closes too
  (`SweepOrder.AllReadExactly`, `SweepOrder.SkippedAndReadAfterAll`).
- A read delivers at most one binary block, and what is complete behind it waits for the next read
  (`ServerRead.Connection.Read`, `ServerRead.StalledLine`). At the end of the stream whatever is
  buffered comes out as one line, which is what the one-pass split has exactly when it is part of
  a block, or has no delimiter, or its first delimiter is a NUL behind some text and nothing more
  is to be delivered (`StreamEnd.EndExactly`, `StreamEnd.StalledEnd`).
- The Python client stops at a token that is not ASCII until more data comes in
  (`Wire.FeedingInPiecesExactly`).
- Vertical stripe removal multiplies by `2 / height`, so for an odd height it leaves the half
  columns with a sum that is zero only if it was zero before (`Postprocess.HalfColumnZeroExactly`),
  and removing the lines twice is not the same as removing them once
  (`Postprocess.SecondPassExactly`).
- A region of interest with an end in row 0 is taken to be out of range and replaced by the whole
  frame. A client that asks for a region inside the frame gets its flux exactly when neither end is
  in row 0 or the region is the whole frame (`RegionFlux.RegionKeptExactly`,
  `RegionFlux.AskedFluxExactly`).
- A region or a dark frame that is set while a window is open applies to its sum, but not to the
  fluxes of its earlier frames. For all other windows the accumulated flux is the sum of these
  (`Windows.EveryWindowBalances`, `Windows.RegionSetInWindow`).
- Scaling down adds to pixels beyond the smaller image unless both dimensions are multiples of the
  factor or there are no pixels (`Scaling.StaysInsideExactly`).
- A storage directory is named by the second, and the count of its frames starts anew each time it
  is prepared, so two starts within one second can fill it beyond the limit
  (`Storage.TwoStartsInOneSecond`). It stays within the limit, however many frames come until the
  counter is full, exactly when it held none when it was last prepared
  (`Storage.WithinLimitExactly`).
- A countdown that has come to its end reports the end of the acquisition twice, so storage is
  stopped and an average image made twice (`Fates.CountdownEnds`, `Fates.EachReportStopsOnce`).
- A value in double quotation marks becomes one token as it is exactly when the marks in it leave
  the parser inside double marks, with no white space outside of marks on the way; without double
  marks of its own it always does (`CommandParse.QuotedValueExactly`). A string argument gets it
  exactly when that is so and it has no marks of its own at both ends
  (`CommandStrings.StringDeliveredExactly`, `CommandStrings.BlankIsLost`,
  `CommandStrings.MarksAreLost`).

`dafny verify dfyconfig.toml` checks the whole project.

## Model

| member | source | states |
|---|---|---|
| QuickSelect.Partition | utils.c:603-626 | For every range of three or more entries the unguarded scans stay inside it, only entries of the range are rearranged, and they end up split by the entry at hh: nothing greater before it, equals up to ll, nothing smaller from ll on |
| QuickSelect.Select | utils.c:586-634 | For every array of at least one entry the loop ends, the array is a permutation of what it was, the entry in position (n-1)/2 is returned, nothing left of it is greater and nothing right of it smaller, and it is the median of the original contents by counting |
| QuickSelect.RangeNarrows | utils.c:628-632 | The search invariant survives a partition: the active range holds the wanted position, or has moved past it, and then the entry there is in its final place |
| QuickSelect.RankIsSortedSlot | utils.c:586-634 | The rank used to state the result means what sorting would give: a value has rank k exactly when it is in slot k of any sorted rearrangement |
| QuickSelect.Median | utils.c:638-650 | The median of the input, which is left alone |
| QuickSelect.MedianMad | utils.c:652-672 | The median of the input and, although the second selection runs over the entries as the first one has left them, the median of the absolute deviations of the original input |
| QuickSelect.DeviationCounts | utils.c:660-666 | Ranks among the deviations do not depend on the order of the values |
| Calendar.RoundTripExactly | time_str.c:167-259 | For every valid date of both calendars: date to day number and back is the identity exactly when the date is Gregorian with a year that survives the casts, or lies in the century in which both calendars agree |
| Calendar.RoundTripFails | time_str.c:167-259 | A Julian date that comes back as another one |
| Calendar.DayRoundTripExactly | time_str.c:242-256 | For every day number from 1582-10-15 on, the inverse yields a Gregorian date with that number exactly up to the end of 32767, and again in the last 32768 years before 2^32 |
| Calendar.SplitDay | time_str.c:239-256 | For every day number the reuse of k for one remainder after another gives the date of the functional split; from 1582-10-15 on it has that number exactly within the years that survive the casts |
| Calendar.FromJulianDate | time_str.c:232-259 | Of every time stamp with this Julian date, the result is that stamp, to the millisecond, exactly when its date survives the trip; for every argument for which C defines the conversions to the unsigned fields of the clock |
| Calendar.ClockIsDefinedExactly | time_str.c:239-242 | These are the Julian dates from -0.5 on, and before it those at the beginning of a day |
| Calendar.StampRoundTripExactly | time_str.c:167-259 | Under exact arithmetic a time stamp comes back with its time of day to the millisecond exactly when its date does |
| Calendar.NoonOfJ2000 | time_str.c:167-192 | The Julian date of noon on 2000-01-01 is 2451545 |
| Calendar.NextDayIsNextNumber | time_str.c:167-192 | From each calendar day to the next, over month and year ends, leap days and the change of calendars in 1582, the day number grows by exactly 1 |
| Calendar.NumberOrderIsDateOrder | time_str.c:167-192 | The order of day numbers is the order of dates, and different dates have different numbers |
| Calendar.IntervalsAreExact | time_str.c:18-32 | Intervals are differences of instants in milliseconds, positive exactly for a later stamp, and add up |
| LinkedRing.ThreadIn | lists.h:40-45 | Threading a link in after a given one keeps next and prev a circle, with the link in that place |
| LinkedRing.List.AddAtPos | lists.h:40-45 | The list is the sequence with the element inserted at that place |
| LinkedRing.List.AddToList | lists.h:47-48 | The new element is the first that foreach meets, the others follow unchanged |
| LinkedRing.List.AddToListEnd | lists.h:49-50 | The new element is the last that foreach meets |
| LinkedRing.List.Delete | lists.h:18-30 | The sequence without that element; the link before it is where the iteration resumes |
| LinkedRing.List.Next | lists.h:61 | foreach goes through the sequence and ends at the head |
| CommandQueue.Queue.Run | command_queue.c:77-222 | Completion, failure and removal, by name or by connection, and likewise the check for timeouts: the linked list becomes the commands that do not match, the reports emitted are those of the commands that do, in queue order, and their number is returned |
| CommandQueue.Queue.ReportDone | command_queue.c:77-104 | Every command of that name leaves, the others stay in order; for each that leaves, its connection hears of it, or else the handler, if there is one, by its name with its prefix and "_done" |
| CommandQueue.Queue.ReportFailure | command_queue.c:106-135 | The same with "_failure" |
| CommandQueue.Queue.RemoveNamed | command_queue.c:137-158 | The same with nobody hearing of it |
| CommandQueue.Queue.RemoveOf | command_queue.c:160-179 | The same for the commands of a connection |
| CommandQueue.Queue.CheckTimeouts | command_queue.c:196-222 | The commands that have waited longer than their timeout leave; for each the report with "_timeout" and then the callback |
| CommandQueue.SweepSelects | command_queue.c:77-222 | The commands kept are exactly those that do not match, those removed exactly the others, both in their original order, and none is lost |
| CommandQueue.OneReportEach | command_queue.c:42-55 | There is exactly one report for each command removed exactly when each has a connection or the queue a handler; then the reports are theirs, in order |
| CommandQueue.SweepTwice | command_queue.c:77-222 | A second sweep for the same finds nothing |
| CommandQueue.Queue.Add | command_queue.c:57-75 | A new command is last in the queue |
| CommandQueue.Queue.Contains | command_queue.c:181-194 | True exactly when a command of that name is waiting |
| Timers.TimerList.CheckTimers | server.c:681-695 | The sweep ends; it fires exactly the timers that had expired when it began, in list order, none that a callback adds meanwhile, and leaves the new timers in front of the unexpired ones, which keep their order |
| Timers.SweepConserves | server.c:681-695 | Every timer is fired if its time is before now and left otherwise, and none twice |
| Timers.NewTimersLatestFirst | server.c:628-646 | The new timers stand in reverse order of their registration, over all callbacks, none missing |
| ServerCycle.Server.RestartConnection | server.c:502-509 | One more restart timer, due in a second, no socket, waiting; the restart discipline survives exactly when the connection was not waiting already |
| ServerCycle.Server.CloseConnection | server.c:477-489 | The connection leaves the list and the timers are left alone; the restart discipline survives exactly when the connection was not waiting for restart |
| ServerCycle.Server.FireRestart | server.c:460-475 | The waiting connection waits no longer and has the socket of its attempt, its one timer is gone, and the discipline holds |
| ServerCycle.Server.ReadConnection | server.c:543-558 | End of stream leaves an active connection without a socket, waiting for a restart in a second, and closes any other; a finished connection is closed; otherwise socket, flags and timers are untouched. The discipline holds |
| ServerCycle.Server.ServiceWrite | server.c:744-769 | A connecting connection becomes connected, or loses its socket if connecting has failed; a connected one is left as it is |
| ServerCycle.Server.PrepareSelect | server.c:697-729 | A connected socket is selected for reading, one with output or still connecting for writing, one still connecting for exceptions, and no other socket for anything; active connections without a socket are waiting for restart afterwards |
| ServerCycle.Server.Sweep | server.c:742-785 | The sweep ends, keeps the discipline, and reads the connections in exactly the order, and drops exactly those, that SweepReads and SweepKeeps say. Of those read and kept, the ones that met the end of their stream wait for restart with their timer pending, and the others have their socket; those not read have at most finished connecting |
| SweepOrder.SweepReads | server.c:742-785 | No connection is read twice in one sweep, though closing the last one starts it over at the first, and only ready ones are read |
| SweepOrder.ReadExactly | server.c:742-785 | For every list, and every choice of ready connections and closing reads, which connections are read: the ready ones of which the number of closing reads directly before, plus one, can be halved no more often than that at the end of the list, plus one |
| SweepOrder.ReadAfterEvenStreak | server.c:742-785 | An even number of closing reads directly before a ready connection leaves it its turn; an odd number takes it, unless the last one of the list closes too |
| SweepOrder.AllReadExactly | server.c:742-785 | All ready connections are read if none stands directly behind one that closes, and only then, unless the last one closes too |
| SweepOrder.SkippedAndReadAfterAll | server.c:774-784 | A sweep in which a connection that was stepped over is read after all, because the last one closes |
| SweepOrder.SweepDropsClosed | server.c:774-784 | After a sweep the list is without exactly those connections that were read and whose read closed them |
| SweepOrder.QuietSweepReadsAll | server.c:742-785 | When no read closes a connection every ready one is read, in list order |
| SweepOrder.OneCloseSkipsOne | server.c:774-784 | When all are ready and one read closes its connection, exactly its successor is not read in this cycle; nobody is skipped when it was the last |
| ServerCycle.Server.CheckTimers | server.c:681-695 | The timers left are those that have not expired, in their order; the connections whose timer fired have the sockets of their attempts and wait no longer, and the others are untouched; the discipline holds |
| ServerCycle.Server.Cycle | server.c:697-806 | One cycle, whatever the network does, keeps the restart discipline; the connections read, their order, and the connections kept are those of the sweep over the ready ones, with an accepted connection in front. At its end those kept that met the end of their stream wait for restart, and the others read have their socket |
| ServerCycle.Run | server.c:325-338 | In every run of cycles, new connections, changes of is_active, and closes and restarts by the owner of connections that are not waiting: a connection has one pending restart timer while it waits and none otherwise, has no socket while it waits, and no timer refers to a connection that is gone |
| ServerCycle.ClosedWhileWaiting | server.c:477-509 | A connection that is gone, with a restart timer left |
| ServerCycle.RestartedWhileWaiting | server.c:502-509 | A connection with two restart timers |
| ServerRead.FeedConcat | server.c:577-625 | The one-pass split of a stream does not depend on where it is cut |
| ServerRead.FeedAccounts | server.c:577-625 | The split loses, doubles and reorders no byte |
| ServerRead.OneLine | server.c:577-603 | Bytes other than NUL, CR and LF with one of these behind them are a line, and the hook decides how reading goes on; such a byte by itself is none |
| ServerRead.Connection.Fill | server.c:518-541 | Reading goes on until a chunk is short, and appends exactly what was read |
| ServerRead.Connection.ScanLines | server.c:577-603 | The scan delivers lines of the one-pass split and stops when a hook asks for a block or for the end; otherwise no delimiter is left |
| ServerRead.Connection.TakeBlock | server.c:605-621 | A block is delivered exactly when it is complete |
| ServerRead.Connection.Read | server.c:511-626 | However the stream is chunked, a read continues the one-pass split of all received; it has delivered all of it exactly when, of the one-pass split of the stream, nothing stands behind a block that is new. At the end of the stream leftover text is delivered as a line |
| ServerRead.DeliveredIsPrefix | server.c:511-626 | What has been delivered is a prefix of what the one-pass split of the whole stream delivers; every byte received is delivered, a delimiter, or still buffered, in order |
| ServerRead.TextStreamIsLines | server.c:577-603 | For a hook that asks for nothing the split is into the non-empty stretches between NUL, CR and LF |
| ServerRead.TextConnectionDeliversLines | server.c:511-626 | A text-only connection has delivered exactly the lines received so far, and holds exactly the unfinished one |
| ServerRead.ReadAll | server.c:511-626 | A text-only connection over any series of reads, chunked in any way, delivers the lines of the stream received, and when it ends what stands behind the last delimiter |
| ServerRead.StalledLine | server.c:577-626 | A stream on which one read leaves a complete line behind a block undelivered |
| StreamEnd.EndExactly | server.c:543-625 | For every hook, mode and buffer: what the end of the stream delivers is what the one-pass split delivers, with unfinished text as a last line, exactly when the buffer is part of a block, has no delimiter, or its first delimiter is a NUL behind some text and that is the one line left |
| StreamEnd.SplitIsClean | server.c:577-625 | Every line that the one-pass split delivers is not empty and has no delimiter in it |
| StreamEnd.ReadEnd | server.c:511-560 | The read that meets the end of the stream completes the one-pass split under exactly that condition |
| StreamEnd.StalledEnd | server.c:543-560 | A stream whose last complete line comes out with its delimiter in it |
| Wire.Sender.Write | server.c:340-366 | Over any partial sends, exactly the bytes that the sends take, up to the first that fails, leave the front of the buffer, and none without a connected socket; the bytes accepted are those sent followed by those in the buffer |
| Wire.SendsEmptyBuffer | server.c:340-366 | If every send takes something, the buffer is emptied by at most as many sends as it has bytes |
| Wire.AcceptsStops | server.c:340-366 | A send that fails or takes nothing ends the writing |
| Wire.Sender.WriteBlock | server.c:368-384 | The block is queued as a whole behind what was accepted before |
| Wire.Sender.SendAll | fast.c:577-581 | Any series of messages and frames is accepted as the concatenation of their encodings, in whatever parts the socket takes them |
| Wire.Client.DataReceived | webfast.py:69-89 | The parsing loop ends, and leaves buffer, mode and events as Drain says for the old state and the new data |
| Wire.OneToken | webfast.py:81-89 | A token ends at NUL or LF and is handed over exactly when it is not empty and all its bytes are ASCII |
| Wire.FeedingInPiecesExactly | webfast.py:69-89 | Feeding a and then b is the same as feeding both at once exactly when no token within a fails to decode, or nothing is left to do behind it even with b |
| Wire.BadTokenHoldsBack | webfast.py:83-89 | A token that is not ASCII holds back the message behind it when both come in one chunk, and not when they come in two |
| Wire.ReceiveIsDrain | webfast.py:69-89 | Any chunking of a stream without such tokens gives the same state as the whole |
| Wire.ReceiveAll | webfast.py:69-89 | A protocol object fed with chunks is in the state that Receive gives |
| Wire.ItemsDrained | webfast.py:69-89 | The encoding of any messages and frames is parsed into exactly their texts and payloads |
| Wire.EndToEnd | server.c:340-399 | For any items, any part of their bytes sent so far and any chunking, the client has understood a prefix of what was sent, and all of it, with an empty buffer, once nothing is unsent; payload bytes are arbitrary |
| Wire.FramesAreItems | fast.c:577-581 | The headers and closing messages of the frames that process_command sends meet the conditions of EndToEnd, for every payload |
| Wire.HeaderAnnounces | webfast.py:143-160 | The client reads from a frame header the length the server printed in it |
| Wire.DecimalRoundTrip | fast.c:578-578 | Reading a printed length gives the length |
| MessageQueue.Queue.Add | queue.c:91-120 | A queue below its limit, or without one, gets the message at its end and deletes nothing; a full one loses exactly its oldest message, whose datum is freed. The queue is the most recent part of its history, within its limit |
| MessageQueue.AddAll | queue.c:91-120 | After any series of messages added to an empty queue it holds the last ones, as many as its limit allows, and has freed the data of all others, oldest first |
| MessageQueue.Queue.Get | queue.c:122-155 | The oldest message is handed out and not deleted, or the default message if there is none |
| MessageQueue.Queue.Shift | queue.c:74-84 | Moving the messages one place to the front in their array, and shrinking it, drops exactly the oldest |
| MessageQueue.Queue.Clear | queue.c:32-55 | Every message is deleted once, oldest first |
| MessageQueue.AddKeepsRecent | queue.c:91-120 | Adding keeps a contiguous suffix of the history within the limit, and what it drops and keeps is what was there |
| MessageQueue.GetKeepsRecent | queue.c:122-155 | So does getting |
| Pipeline.StepKeepsInv | fast_grabber.c:372-429 | A step of any of the three threads keeps the account of the images and the bounds of the queues |
| Pipeline.EveryRunKeepsInv | fast_storage.c:92-142 | Over all interleavings every image made is in exactly one queue, in the hands of one thread, stored, or deleted, once; every queue is a suffix of what was added within its limit; the counter of files never exceeds its limit, and no directory gets more frames than that for each time that it was prepared |
| Pipeline.StoreFollowsEvents | fast_storage.c:92-142 | What a run of the three threads does to the directories is what Storage says of the messages that the storage thread has handled, so the results there hold for every interleaving |
| Storage.FilesPerPreparation | fast_storage.c:19-142 | In every run of starts, stops and frames at any times, a directory gets at most as many frames as the limit for each time that it was prepared, so no more than the limit if that was once |
| Storage.WithinLimitExactly | fast_storage.c:19-142 | After every run that stores into a directory: the frames that can still come until the counter is full leave it within the limit exactly when it held none when it was last prepared |
| Storage.CounterCountsSince | fast_storage.c:56-77 | The frames in the current directory are those it held then and those the counter counts |
| Storage.TwoStartsInOneSecond | fast_storage.c:19-126 | Two starts in one second with a frame between them: one frame more than the limit in one directory |
| Storage.TwoStartsWithoutFrames | fast_storage.c:19-54 | Preparing a directory twice does no harm by itself |
| Pipeline.StoredInCaptureOrder | fast_storage.c:56-77 | The frames stored are captured ones, each stored once, in the order of capture |
| Pipeline.GrabberImages | fast_grabber.c:372-429 | The grabber's hand-off, countdown and events keep the account of the images |
| Pipeline.MainImages | fast.c:857-872 | So do the main thread's handling of queue messages, averages and commands |
| Pipeline.StorageImages | fast_storage.c:105-142 | Storing or deleting keeps the account; which of them it is, is stated by Fates.StoredExactly |
| Fates.StoredExactly | fast_storage.c:92-142 | Over all interleavings: storage is on exactly if the last start or stop message handled was a start; the images stored are exactly those of the messages handled while it was on, in that order, and the images of all others handled are deleted |
| Fates.OneFileEach | fast_storage.c:56-133 | Over all interleavings there are as many files in the directories as frames stored |
| Fates.DeletedForReason | queue.c:98-104 | An image is deleted by a queue only when that queue holds its limit, 100 messages to the main thread or 300 to storage, and then it is the oldest; otherwise only as the first one of the camera, or by the storage thread while storage is off |
| Fates.NothingElseIsLost | fast_storage.c:92-142 | In every run in which no queue is ever full, and the first image is kept, the images deleted are exactly those handled while storage was off |
| Fates.FirstIsDiscarded | fast_grabber.c:377-395 | With is_first set, the first image of the camera is discarded before any other is captured |
| Fates.OrdersArrive | fast.c:484-490 | Over all interleavings the storage thread is sent exactly the starts and stops that clients and ends of acquisition order, and the message to exit, in order |
| Fates.GrabberOrdersArrive | fast.c:491-537 | The same for the grabber thread |
| Fates.EachReportStopsOnce | fast.c:864-867 | Each report of an end of acquisition that the main thread takes makes it stop storage once |
| Fates.AcquisitionExactly | fast_grabber.c:404-429 | Acquisition is on exactly if the last start or stop that the grabber has come to was a start |
| Fates.CountdownIsSet | fast.c:504-506 | The countdown is what a client sets it to |
| Fates.CountdownEnds | fast_grabber.c:372-412 | A countdown of n lets exactly n frames through, and behind the last one reports the end of the acquisition twice and switches it off |
| Fates.StorageEndsExactly | fast_storage.c:92-142 | The storage thread is done exactly when the last message it has handled is the one to exit |
| Fates.GrabberEndsExactly | fast_grabber.c:372-429 | So is the grabber thread, for the last message it has come to |
| Fates.QuitsExactly | fast.c:479-480 | The main thread is on its way out exactly when a client has asked for that |
| Pixels.BlockGrowsByRow | image.c:192-218 | Exchanging a double sum: column by column and row by row give the same |
| Scaling.Scale | image.c:160-174 | Every pixel of the larger image is that of the original whose block it lies in |
| Scaling.ScaleWords | image.c:175-181 | The same for 16-bit pixels, whose addition wraps around |
| Scaling.Downscale | image.c:192-204 | Every pixel is the sum of its block's shares, each pixel divided twice by the factor; for every image all of whose pixels are added to one that the smaller image has |
| Scaling.StaysInsideExactly | image.c:192-214 | Those are the images whose dimensions are multiples of the factor, and those without pixels |
| Scaling.DownscaleTakesMean | image.c:192-204 | So it is the mean of its block |
| Scaling.DownscaleUndoesScale | image.c:160-218 | Scaling up by a factor and down by it again gives the image back |
| Scaling.ScaleAndBack | image.c:160-218 | The two methods one after the other return an image of the original size and pixels, for every image and factor |
| Scaling.DownscaleWords | image.c:205-213 | The 16-bit accumulation never wraps around: the result holds the sums as numbers |
| Scaling.WordsNearBlockMean | image.c:205-213 | Each 16-bit pixel lies between the mean of its block less (factor squared - 1) and that mean |
| Postprocess.Fast.PostprocessImage | fast.c:186-249 | 16-bit images are left alone; a dark frame of another size is dropped; otherwise the pixels become what the stages up to the level, in order, make of them |
| Postprocess.LevelRows | fast.c:210-224 | In place, every pixel loses the mean of its row |
| Postprocess.LevelHalves | fast.c:226-248 | In place, every pixel loses its half-column's sum times 2 / height |
| Postprocess.LeveledRowsSumToZero | fast.c:210-224 | After stage 2 every row sums to zero |
| Postprocess.LevelingHalvesKeepsRows | fast.c:226-248 | Stage 3 keeps that, for every height |
| Postprocess.HalfColumnsAfterwards | fast.c:226-248 | Of a half-column sum stage 3 leaves nothing for an even height, and one height-th of it, with opposite signs above and below, for an odd one |
| Postprocess.HalfColumnZeroExactly | fast.c:226-248 | A half-column sums to zero afterwards exactly when the height is even or it did before |
| Postprocess.SecondPassExactly | fast.c:210-248 | Stages 2 and 3 a second time change nothing exactly when the height is even or stage 3 had nothing to do the first time |
| Postprocess.SecondPassOnOddHeight | fast.c:226-248 | An image of odd height that a second pass changes |
| Postprocess.FullyProcessed | fast.c:186-249 | From level 2 on all rows, from level 3 on for even heights all half-columns sum to zero, with or without a dark frame |
| Postprocess.StagesByLevel | fast.c:186-249 | No stage up to level 0, the dark frame from 1, the rows from 2, the half-columns from 3, in this order |
| Postprocess.DarkBecomesBlack | fast.c:203-207 | A number of dark frames, added up, becomes black at every level from 1 on |
| Postprocess.RowDifferencesStay | fast.c:210-224 | Stage 2 keeps the differences within each row |
| Postprocess.HalfDifferencesStay | fast.c:226-248 | Stage 3 keeps the differences within each half-column |
| Accumulation.GetFlux | fast.c:142-184 | The loops compute the sum of the pixels of the region less, for each frame, that of the dark frame; the dark frame, of any size with enough pixels, is addressed with the width of the image |
| RegionFlux.FluxIsSum | fast.c:142-184 | Without a dark frame the flux is the sum of the pixels of the region, and with one it falls short of it by as many sums of the dark frame as frames were added up |
| RegionFlux.DarkFramesAreDark | fast.c:142-184 | A number of dark frames, added up, has flux 0 in every region |
| Windows.SeenRowByRow | fast.c:151-155 | A dark frame of the width of the image is subtracted pixel by pixel |
| RegionFlux.WindowFlux | fast.c:142-184 | The flux of a sum of frames is the sum of the fluxes reported for them, when region, dark frame and size were the same |
| RegionFlux.RegionKeptExactly | fast.c:275-285 | Any region is kept exactly when it is inside the frame and neither of its ends is in row 0, or it is the whole frame; otherwise it is replaced by the whole frame |
| Windows.RegionAfterShot | fast.c:275-285 | And the next frames find it replaced |
| RegionFlux.RegionAtTopIsLost | fast.c:275-285 | A region that is replaced |
| RegionFlux.AskedFluxExactly | fast.c:142-285 | For every region inside the frame and every dark frame: what is reported is the flux of the region asked for, whatever the frame, exactly when the region is kept; otherwise some frame has another flux |
| Accumulation.ImageAdd | image.c:277-294 | In place, every pixel grows by that of the other image, so a pointwise sum of frames becomes that of one frame more |
| Accumulation.Accumulator.Append | fast.c:298-319 | If there is an image, it is the pointwise sum of exactly as many frames, at least one, as the length says, with their total exposure; a frame is added to those so far if it has their size, and replaces them otherwise |
| Windows.EveryWindowBalances | fast.c:260-384 | In every run, from any state, of frames and resets of any sizes and times and of commands that set region, dark frame or running time: every accumulated flux reported is the sum of the fluxes reported for the frames of its window, if that was opened in the run and neither region nor dark frame was set while it was open, although the region is checked anew for each frame |
| Windows.RegionSetInWindow | fast.c:275-350 | A window in which the region was set, and whose accumulated flux is not that sum |
| Windows.ReportedWhenOver | fast.c:327-350 | For any frames of one size: the accumulated flux is reported with the first frame by which the time from the first frame of the window and the exposure of that one come to more than the running time, and with none before |
| Windows.OpenBegan | fast.c:298-350 | The reports of the open window are those of all frames since some report, of one size, with no reset and no end of a window among them, and before that one no window of its size was open; it is undisturbed if nothing has been set since. Or it was open before the run, and all frames are of its size |
| Windows.TotalIsSince | fast.c:298-384 | In every such run the cumulative sum is that of the frames since the last reset or change of size, those from before the run included |
| Windows.SinceIsLongest | fast.c:298-384 | These frames are the end of the history, all of one size, and in front of them is a reset, a frame of another size, or nothing |
| Accumulation.AverageOf | fast.c:127-140 | The average times the number of frames is the sum of the frames, pixel by pixel |
| Accumulation.Fast.Take | fast.c:275-334 | Region check, flux of the frame and both sums, as the state machine has them |
| Accumulation.Fast.CloseWindow | fast.c:338-350 | The running image takes over the pixels and the number of frames of the window, and the flux is that of their sum |
| Accumulation.Fast.ProcessImage | fast.c:260-376 | In place, for any frame: sums, region and reports go on as the state machine does; a flux is reported for the window exactly when it has lasted longer than the running time, and the running image is then the sum of its frames; an average falls due after five seconds |
| Accumulation.Fast.ResetImages | fast.c:378-384 | Neither sum has an image afterwards, so that both start anew |
| Accumulation.Observe | fast.c:260-384 | For any run of frames, resets and such commands over the images in place, from any state: the reports are those of the state machine, so every undisturbed window has the sum of its frames' fluxes, and the cumulative image is the sum of exactly the frames since the last reset or change of size |
| ArgvSplit.SplitCommand | popen_noshell.c:395-476 | The buffer of len + 1 characters is never overrun, no earlier argument is overwritten, and the C strings at the offsets returned are the arguments of the functional split, which fails when it does; Null ends the list |
| ArgvSplit.AddToken | popen_noshell.c:370-392 | The finished argument stands in the buffer behind the others, which are untouched; an empty one is left out |
| ArgvSplit.SplitMeaning | popen_noshell.c:414-462 | The split fails exactly on a metacharacter, an unbalanced quotation mark or no arguments; otherwise the arguments are not empty and, put together, are the command without its separating blanks and quotation marks in force |
| ArgvSplit.MetaIsRefused | popen_noshell.c:420-423 | Any of the metacharacters anywhere and the command is refused |
| ArgvSplit.TwoWords | popen_noshell.c:425-437 | Words with a space or a tab between them are separate arguments |
| ArgvSplit.QuotedIsOne | popen_noshell.c:425-448 | In quotation marks of one kind, blanks and marks of the other kind belong to the argument |
| ArgvSplit.SplittableExactly | popen_noshell.c:395-476 | The lists of arguments that can come out are exactly the non-empty ones of non-empty arguments without metacharacters |
| CommandParse.Command.constructor | command.c:50-140 | The tokens are those of the recursive specification, the first is set apart when it has no name |
| CommandParse.Command.Scan | command.c:60-132 | The state machine over the characters computes them |
| CommandParse.Command.PushArg | command.c:28-48 | One token more, with name, value and text as PlainValueExactly, PlainTextExactly and MarkInFront state them |
| CommandParse.PlainValueExactly | command.c:28-48 | Of name=value, for every value, the token has that name, and that value exactly when it does not begin with a quotation mark |
| CommandParse.PlainTextExactly | command.c:28-48 | A text without "=" has no name, and is the value exactly when it does not begin with a quotation mark |
| CommandParse.MarkInFront | command.c:32-39 | A mark in front is lost, and with it one at the end, of whatever kind, if there is one |
| CommandParse.WordIsToken | command.c:60-132 | Visible characters other than quotation marks are a token, and white space in front of it is passed over |
| CommandParse.TextsAreStretches | command.c:60-132 | The texts are disjoint stretches of the string, in order |
| CommandParse.TextsAreTokens | command.c:60-132 | Each starts with a visible character, has balanced quotation marks, and has white space inside these only |
| CommandParse.ParseAgain | command.c:50-140 | Parsing the texts joined by blanks gives the same tokens |
| CommandParse.ParsableExactly | command.c:50-140 | The lists of texts that can come out are exactly the lists of such texts |
| CommandParse.QuotedValue | command.c:28-48 | A token with its value in quotation marks yields the value as it was put in |
| CommandParse.QuotedValueExactly | command.c:28-140 | From the string to the token: a name and a value in quotation marks are parsed into one token with both exactly when the marks in the value, if any, leave the parser inside double marks and no white space outside |
| CommandParse.PlainAssignmentExactly | command.c:60-132 | The string name=value is one token exactly when the marks in the value are balanced and hold all its white space |
| CommandParse.PlainWordExactly | command.c:60-132 | For a value without marks: exactly when it has no white space |
| CommandParse.NoDoubleMarks | command.c:60-132 | A value without double quotation marks always meets that condition, whatever white space and single marks it has |
| CommandArgs.MatchArgs | command.c:305-387 | Both passes together give each argument the token that Matched says, and match as many as there are arguments, or tokens behind the command name, whichever is less |
| CommandArgs.MatchByName | command.c:322-374 | The first pass gives the k-th argument of a name the k-th token of that name if it exists, and marks exactly those tokens |
| CommandArgs.NthIsRank | command.c:322-374 | The k-th token of a name is the one with k of that name before it |
| CommandArgs.MatchingIsOneToOne | command.c:305-387 | No token goes to two arguments |
| CommandArgs.LeftoversInOrder | command.c:305-387 | Arguments left over by name get tokens in order, and none is passed over for a later one |
| CommandStrings.StringArgs | command.c:305-387 | String arguments get the value of the token matched by name and the text of one matched by position, less a mark at each end if there is one at each |
| CommandStrings.StringDeliveredExactly | command.c:28-387 | From the command line through the parser and both passes, for every value: in quotation marks it is delivered to the argument of its name exactly when its marks keep it in one token and it has no marks of its own at both ends |
| CommandStrings.PlainDeliveredExactly | command.c:28-387 | The same for cmd name=value, for every value: it is delivered exactly when its marks are balanced and hold all its white space, and it does not begin with one |
| CommandStrings.TextDeliveredExactly | command.c:28-387 | By position: an argument without a name gets the text behind the command name exactly when it is one token as it stands and has no marks at both ends |
| CommandStrings.BlankIsLost | command.c:60-132 | A value that the parser cuts at a blank |
| CommandStrings.MarksAreLost | command.c:350-361 | A value that loses marks of its own |

## Left out

- The camera back ends and their commands: vendor interfaces. A frame from the camera is a nondeterministic event.
- Sockets, `select`, `pthread` primitives, `mkdir`, CFITSIO and libjpeg: nondeterministic outcomes, atomic steps, or opaque values.
- The Qt and web user interfaces, HTTP serving, authentication and plotting.
- Rounding, infinities and NaN: reals stand for `double` and `long double`. A mean over an empty row is taken as 0, since no pixel reads it.
- The mean value that get_flux returns beside the flux, the keywords of images other than EXPOSURE, and the images kept ready as JPEG.
- `time_unix`, `time_from_unix`, `time_increment`, morning times and the text formats of times.
- Calendar.FromJulianDate: arguments for which the source converts a negative value to an unsigned field, which C leaves undefined, are left out; `Calendar.ClockIsDefinedExactly` says which these are.
- `coords.c`, random generators, Gaussian kernels, `image_median` and `image_combine`.
- `add_list_to_list` of `lists.h`: it does not rebuild the back links.
- ServerCycle.Server.Sweep: connections and timers are sequences here, because their threading as linked lists is proved in LinkedRing and Timers; hooks that add connections during a sweep are not modelled, nor the custom socket.
- ServerCycle.Run: the owner leaves connections that are waiting for restart to the timer, since closing or restarting one breaks the discipline, as CloseConnection and RestartConnection say.
- ServerCycle.Server.Cycle: the clock is read once before select and once after it.
- ServerCycle.Server.CheckTimers: the user's own timer callbacks do nothing here; Timers.TimerList.CheckTimers covers callbacks that add timers.
- Timers.TimerList.CheckTimers: callbacks that kill timers are not modelled, and timers of one sweep share one clock reading.
- CommandQueue.Queue.Run: the five loops of the source are one method with the match and the report as a parameter; the clock of the check is read once.
- ServerRead.Connection.Read: negative block lengths and data_read_hook are not modelled; a line hook can ask for a binary block or for the end of the connection and does nothing else; the buffers of a connection that is restarted are not followed further.
- Wire.HeaderAnnounces: of the client's message parser, `immp.py`, only the reading of the length in the server's own two frame headers is modelled; exceptions that processMessage may raise are not.
- Wire.EndToEnd: a frame's payload must not be empty for the client to see it, as the server sends none that is empty.
- Storage.FilesPerPreparation: the names of the files are not modelled, so frames with the same time stamp count as separate files; `mkdir` succeeds.
- Pipeline.EveryRunKeepsInv: that an EXIT message always ends the grabber is not claimed; the countdown overwrites the event in hand, so a message taken in the same turn is lost. Images are small numbers here, their contents are the subject of Accumulation and Scaling.
- Scaling.Downscale: images for which the source adds to pixels that the smaller image does not have are left out; `Scaling.StaysInsideExactly` says which these are.
- Scaling.DownscaleWords: the same.
- Accumulation.GetFlux: a dark frame with too few pixels for the region is left out; the source does not compare them and reads beyond its end.
- Accumulation.Fast.Take: the same.
- Accumulation.Fast.CloseWindow: the same.
- Accumulation.Fast.ProcessImage: the same; a 16-bit frame enters as its pixel values, and messages to clients are its results.
- Accumulation.Observe: the same for every frame of the run.
- Postprocess.Fast.PostprocessImage: pixels are addressed by row and column instead of by offset.
- ArgvSplit.SplitCommand: memory allocation succeeds.
- CommandParse.Command.constructor: character classes are those of the C locale.
- CommandArgs.MatchArgs: the conversion of values by sscanf is not modelled; what string arguments get is in CommandStrings.
- Memory management in general: a freed object is one that is out of the model's lists.
