# Verified model of the stateful kernels of the Pybricks firmware

This Dafny project models the small state machines inside the Pybricks MicroPython layer and proves what each of them
promises, over every input and every run:

- **Cooperative multitasking**: the awaitable that is recycled in place (`Awaitable`, `AwaitableObjects`), `multitask()`
  with `all` and `race` (`Multitask`, `MultitaskObjects`), the two together over whole runs
  (`Cancellation`), and `wait()` with its pool of awaitables (`Waits`, `Tools`).
- **Bluetooth broadcasting**: the tagged encoding (`BleCodec`), the advertisement, the table of observed channels
  and its runs (`BleRadio`, `BleTable`), and the smoothing of the signal strength in wrapping arithmetic (`Rssi`). The frame is a
  manufacturer-specific structure as in section 1.4 of part A of the Bluetooth Core Specification Supplement.
- **Matrices**: views that share storage (`MatrixViews`, `MatrixObjects`) and their fixed-width text (`MatrixCells`,
  `MatrixPrint`), over real numbers.
- **LWP3 devices**: the notification ring buffer (`NotificationBuffer`) and the limiter of repeated drive commands
  (`DriveThrottle`).
- **Modules**: the packed store of downloaded modules (`ModuleStore`) and importing from it (`Importer`,
  `ImporterObjects`).
- **Serial pattern matching and the stopwatch** (`UartWait`, `Stopwatch`).

`Words` holds 32-bit wrap-around, the wrap-aware time comparison and little-endian bytes.

Code that changes things in place is modelled by classes and by methods with loops; each is tied by its contract to a
function on values, and the properties are lemmas about all runs of these functions. The clock is a parameter: the true
time in milliseconds, of which the program sees 32 bits. Raising an exception is a result value. The replies of drivers
are parameters.

## Where the code differs from its documentation

The model follows the code. Each point is a lemma or part of a contract.

- An observed channel number is taken modulo 256, so `observe(257)` reads channel 1 instead of raising ValueError
  (`BleRadio.OutOfRangeIsAliased`, `BleRadio.Channel257`; pybricks/messaging/pb_type_ble_radio.c:412,418).
- A smoothed signal strength of exactly -128 dBm reads as "no data" (`BleRadio.BroadcastThenObserve`,
  `BleRadio.WeakestSampleHides`).
- A flat subscript that is out of range on a transposed view does not always raise IndexError
  (`MatrixViews.FlatOutOfRange` gives the exact condition, for both ends of the range).
- `wait_until` finds a pattern in every stream that contains it if and only if all its bytes are equal
  (`UartWait.FindsAllIffUniform`), and a `wait_until` that was cancelled keeps answering BUSY
  (`UartWait.BusyIffUnfinished`).
- A close callback that raises keeps its awaitable from being freed (`Awaitable.ClosingFreesIff`), keeps the children
  after it in a collection from being closed (`Multitask.LaterChildIsNotClosed`), and takes the winner's value from a
  race (`Multitask.WinnerIsLost`); `Multitask.ClosedOnceIff` says exactly when every child is closed once.
- An awaitable whose operation raised an error is not free for re-use: it runs again if iterated, until it succeeds or
  is stopped or closed (`Awaitable.FreedExactlyWhenTold`).
- A module whose body raised stays loaded: importing it again succeeds without running it (`Importer.ImportAgain`).
- The main program's body is not registered, so it runs again when the name it is stored under is imported
  (`Importer.MainRunsAgainIff`).
- A wait iterated later than its deadline by between half a turn and a full turn of the 32-bit clock still yields
  (`Waits.LateIterationEndsIff`).
- `num_notifications` is kept in eight bits, so 256 turns notifications off
  (`NotificationBuffer.Buffer.constructor`).
- A drive command whose write the driver refuses counts as sent: after two refusals it is lost without a report
  (`DriveThrottle.TwoFailuresLoseTheCommand`; `DriveThrottle.ObeyedIff` says exactly when it is not).

## Model

| member | source | states |
|---|---|---|
| Words.WrapOfWrap | pybricks/tools/pb_type_stopwatch.c:33-39 | intermediate 32-bit wraps in a sum or difference can be dropped |
| Words.HasPassedIsTrueOrder | lib/pbio/src/util.c:91-93 | on instants less than half a turn apart the unsigned comparison orders them as true time does |
| Words.LERoundTrip | lib/pbio/include/pbio/util.h:94-96 | little-endian bytes read back as the number they were made from |
| Words.LittleEndianBytes | lib/pbio/include/pbio/util.h:94-96 | the lowest byte is written first |
| Words.FromLowByte | lib/pbio/include/pbio/util.h:67-96 | and read first: the rest counts 256-fold |
| Awaitable.CellCallsAreLocal | pybricks/tools/pb_type_async.c:27-91 | iterating, closing or stopping one object, also when the operation, the return map or the close callback raises, only makes events of its own operation, acts only while it is live, and never revives it |
| Awaitable.StepKeepsInv | pybricks/tools/pb_type_async.c:27-142 | every create, iterate, close and schedule-stop step keeps the global invariant and the invariant of every slot used with stop_prev |
| Awaitable.RunKeepsInv | pybricks/tools/pb_type_async.c:27-142 | so does every run, in any interleaving |
| Awaitable.NewOperationWins | pybricks/tools/pb_type_async.c:113-142 | with stop_prev the only live operation of a slot is the one the slot points to, and a superseded one never runs or touches the hardware again |
| Awaitable.WithoutStopPrevTwoLive | pybricks/tools/pb_type_async.c:121-129 | without stop_prev two operations of one slot can be live |
| Awaitable.OverIsOver | pybricks/tools/pb_type_async.c:27-91 | after an operation was stopped, exhausted or successfully closed it never runs and never touches the hardware; its close callback is called again only if every call before raised |
| Awaitable.ClosingFreesIff | pybricks/tools/pb_type_async.c:37-48 | closing frees the object exactly if the callback is not called or does not raise; otherwise it stays live, or stopped if the callback stopped it first |
| Awaitable.RaisingCallbackIsRepeated | pybricks/tools/pb_type_async.c:41-47 | a callback that raises is called again by the next close, and the operation can still run in between |
| Awaitable.NeverStolen | pybricks/tools/pb_type_async.c:61-64 | an object is overwritten only after its operation delivered StopIteration or was closed; until then it holds it, live unless stopped |
| Awaitable.OwnHandleOwnEvents | pybricks/tools/pb_type_async.c:57-64 | iterating a handle not yet seen to end produces events of its own operation only, and its own exhaustion |
| Awaitable.FreedExactlyWhenTold | pybricks/tools/pb_type_async.c:80-90 | one iteration frees the object exactly when the caller is told StopIteration; it raises exactly if the operation or its return map fails, and then the object stays live |
| Awaitable.NotLiveIsExhausted | pybricks/tools/pb_type_async.c:61-64 | iterating any object that is not live answers exhaustion without a value, frees it and does not run the operation |
| Awaitable.LiveReportsReply | pybricks/tools/pb_type_async.c:66-90 | a live operation yields, raises or returns the mapped value exactly as its driver and its return map say; without iter_once it yields once and is over |
| Awaitable.StoppedIsDelivered | pybricks/tools/pb_type_async.c:27-64 | in every run a stopped operation whose caller does not know yet is told at its next iteration, which frees its object and does not run it |
| Awaitable.SupersededIsTold | pybricks/tools/pb_type_async.c:113-142 | in every run with stop_prev so is the caller of a superseded operation |
| Awaitable.AllocatesIff | pybricks/tools/pb_type_async.c:125-139 | a creation allocates exactly if the slot has no object that is free; otherwise that object is re-used |
| AwaitableObjects.Async.ScheduleStopIteration | pybricks/tools/pb_type_async.c:27-35 | the in-place update is the specified one; no-op on null or complete objects |
| AwaitableObjects.Async.CloseIt | pybricks/tools/pb_type_async.c:37-49 | calls the close callback exactly if it is set and the operation is live, and frees the object unless that raises |
| AwaitableObjects.Async.IterNext | pybricks/tools/pb_type_async.c:52-91 | new state, result and events as specified, and at most one iter_once call, given the stored state |
| AwaitableObjects.Async.ReuseOrAllocate | pybricks/tools/pb_type_async.c:125-132 | the slot's object is re-used exactly if it is free, otherwise a fresh one is made and the old one is unchanged |
| AwaitableObjects.WaitBlocking | pybricks/tools/pb_type_async.c:144-151 | the blocking loop hands the driver the specified states, call after call, and gives the specified outcome |
| AwaitableObjects.DriveToEnd | pybricks/tools/pb_module_tools.c:178-184 | driving an awaitable to exhaustion hands the driver the same states with the same outcome as the blocking loop |
| AwaitableObjects.AwaitedRunIsBlockingRun | pybricks/tools/pb_type_async.c:52-151 | for every driver, whose replies may depend on the state and on the call, awaited and blocking execution make the same calls with the same states and return the same value or error |
| AwaitableObjects.ConstantYieldsOnceThenReturns | pybricks/tools/pb_type_async.c:162-205 | a constant awaitable yields once and then returns the constant |
| AwaitableObjects.Runtime.ScheduleStopIteration | pybricks/tools/pb_type_async.c:27-35 | over all objects this is the specified step, disturbing no other object |
| AwaitableObjects.Runtime.CloseAt | pybricks/tools/pb_type_async.c:37-49 | over all objects this is the specified step, also if the callback raises |
| AwaitableObjects.Runtime.IterateAt | pybricks/tools/pb_type_async.c:52-91 | over all objects this is the specified step with the specified result |
| AwaitableObjects.Runtime.WaitOrAwait | pybricks/tools/pb_type_async.c:113-142 | creating an awaitable is the specified step: stop the previous one if asked, re-use or allocate, remember in the slot |
| Multitask.RoundIsExclusive | pybricks/tools/pb_type_task.c:68-131 | in a round done children are not touched, others get at most one turn, nothing is closed while the collection goes on, and when it ends each child not done is closed as often as the raising closes before it demand (0, 1 or 2 times) |
| Multitask.ClosesUpToBlocker | pybricks/tools/pb_type_task.c:47-65 | closing stops at the first child not done whose close raises; exactly those up to it are closed |
| Multitask.ClosedOnceIff | pybricks/tools/pb_type_task.c:103-129 | when a collection ends, each child not done is closed exactly once if and only if no close raises (after an exception, the last one may); otherwise somebody is closed 0 times after an exception, or 2 times when enough were done; never more |
| Multitask.ReportIs | pybricks/tools/pb_type_task.c:113-130 | values are returned exactly if enough are done and no close raises; otherwise the first close that raises replaces the child's exception |
| Multitask.LaterChildIsNotClosed | pybricks/tools/pb_type_task.c:127-129 | two children, the first raising when iterated and when closed: the second is never closed |
| Multitask.WinnerIsLost | pybricks/tools/pb_type_task.c:103-129 | a race in which the loser's close raises once: it is closed twice and the winner's value is lost |
| Multitask.RunIsExclusive | pybricks/tools/pb_type_task.c:47-131 | over a whole run nothing is closed before the end, done children never are, and at the end each other child has been closed exactly once if and only if closing goes well |
| Multitask.AllStopsWithEveryValue | pybricks/tools/pb_type_task.c:68-125 | `all` stops in round max(k)+1 with every value at its index, child i iterated k_i+1 times, none closed |
| Multitask.AllReraises | pybricks/tools/pb_type_task.c:126-130 | the first child to raise, by round and position, ends `all` in that round; its exception is reported if no close raises; the others not done are closed once if and only if none but the last raises |
| Multitask.RaceHasOneWinner | pybricks/tools/pb_type_task.c:68-130 | `race` ends in round min(k)+1, decided by the least child attaining the minimum; its value with None elsewhere is returned exactly if no loser's close raises; later children get no turn in that round; all others are closed once if and only if closing goes well |
| Multitask.WinnerExists | pybricks/tools/pb_type_task.c:103-109 | every race of at least one child has such a winner and every `all` a slowest child |
| MultitaskObjects.Task.constructor | pybricks/tools/pb_type_task.c:138-155 | nothing done, no values, and one or all children required |
| MultitaskObjects.Task.CloseUnfinished | pybricks/tools/pb_type_task.c:47-65 | closes each child not done, in order, up to the first whose close raises |
| MultitaskObjects.Task.HandleException | pybricks/tools/pb_type_task.c:126-130 | closes once more and re-raises, unless closing raises itself |
| MultitaskObjects.Task.Turn | pybricks/tools/pb_type_task.c:87-101 | one iteration of one child, recording its return value |
| MultitaskObjects.Task.Iternext | pybricks/tools/pb_type_task.c:68-131 | the loop with early exit, closing, and the exception path that a raising close also enters is exactly the specified round |
| Cancellation.EndOfRoundStopsHardware | pybricks/tools/pb_type_task.c:68-131 | in one run in which a child's turn iterates its awaitable and cancelling closes it: done means its exhaustion was delivered and its object is not closed; a child closed without raising has its hardware stopped by exactly one call in the whole history; a child runs on exactly if a raising close kept it from being reached |
| Cancellation.CollectionStopsHardware | pybricks/tools/pb_type_task.c:68-131 | the same over a whole run of a collection, after any history of awaitables |
| Waits.WaitDisturbsNobody | pybricks/tools/pb_module_tools.c:81-101 | a new wait takes an object no outstanding wait is in, and changes nothing else |
| Waits.AllocatesBeyondSix | pybricks/tools/pb_module_tools.c:60-101 | a wait allocates only while all six static objects are outstanding |
| Waits.WaitKeepsItsCell | pybricks/tools/pb_module_tools.c:60-101 | over any sequence of waits, iterations and closes an outstanding wait keeps its object and end time until it is itself closed or exhausted |
| Waits.OutstandingWaitsAreDistinct | pybricks/tools/pb_module_tools.c:60-101 | two outstanding waits never share an object |
| Waits.ZeroWaitYieldsOnce | pybricks/tools/pb_module_tools.c:95-96 | a zero wait yields exactly once |
| Waits.IterationDecides | pybricks/tools/pb_module_tools.c:62-65 | one iteration ends the wait if and only if the true time has reached the deadline, across clock wrap |
| Waits.StartedWaitEndsOnTime | pybricks/tools/pb_module_tools.c:62-101 | a positive wait below 2^31 ms yields before its deadline and ends at the first iteration at or after it |
| Waits.NegativeWaitNeverYields | pybricks/tools/pb_module_tools.c:95-98 | a negative wait is over at its first iteration |
| Waits.LateIterationEndsIff | lib/pbio/src/util.c:91-93 | the exact condition under which a late iteration ends the wait |
| Tools.ToolsModule.Wait | pybricks/tools/pb_module_tools.c:81-101 | the search of the pool and the re-use are the specified step |
| Tools.ToolsModule.RunTask | pybricks/tools/pb_module_tools.c:159-192 | answers the query, refuses to nest, or iterates any coroutine until it ends or an exception is pending after an iteration; clears the flag in every case |
| Stopwatch.StepEncodes | pybricks/tools/pb_type_stopwatch.c:24-66 | each command keeps the three registers an encoding of the true running time |
| Stopwatch.TimeIsRunningTime | pybricks/tools/pb_type_stopwatch.c:24-75 | after any commands, redundant ones included, time() is the total running time since the last reset modulo 2^32 |
| Stopwatch.StopWatch.Time | pybricks/tools/pb_type_stopwatch.c:33-39 | reads the specified time |
| Stopwatch.StopWatch.ResetNow | pybricks/tools/pb_type_stopwatch.c:24-30 | the register update is the specified reset |
| Stopwatch.StopWatch.PauseNow | pybricks/tools/pb_type_stopwatch.c:42-49 | the register update is the specified pause |
| Stopwatch.StopWatch.ResumeNow | pybricks/tools/pb_type_stopwatch.c:58-65 | the register update is the specified resume |
| UartWait.ScanIsSound | pybricks/iodevices/pb_type_uart_device.c:198-223 | on success the last bytes consumed are the pattern; otherwise fewer bytes than the pattern remain |
| UartWait.ScanResumes | pybricks/iodevices/pb_type_uart_device.c:204-207 | a pass that ran dry and is taken up later ends like one pass over everything |
| UartWait.PollsIsOneScan | pybricks/iodevices/pb_type_uart_device.c:198-223 | however the stream is split into arrivals and polls, the same bytes are consumed with the same result |
| UartWait.MissesAfterFalseStart | pybricks/iodevices/pb_type_uart_device.c:216-220 | a byte that breaks one occurrence but begins another is dropped, so the pattern is missed |
| UartWait.FindsAllIffUniform | pybricks/iodevices/pb_type_uart_device.c:216-220 | the pattern is found in every stream that contains it if and only if all its bytes are equal |
| UartWait.BusyIffUnfinished | pybricks/iodevices/pb_type_uart_device.c:225-243 | wait_until answers BUSY if and only if an earlier one was started and nothing has completed since |
| UartWait.AdmitMeans | pybricks/iodevices/pb_type_uart_device.c:236-243 | an empty pattern is refused, another is taken, and one still waited for is kept |
| UartWait.UartDevice.Attempt | pybricks/iodevices/pb_type_uart_device.c:209-221 | consumes the agreeing bytes and the first that disagrees |
| UartWait.UartDevice.WaitUntilIterOnce | pybricks/iodevices/pb_type_uart_device.c:198-223 | the retry loop terminates, loses no byte, and ends where the scan of the stream ends |
| UartWait.UartDevice.ReceiveAndPoll | pybricks/iodevices/pb_type_uart_device.c:198-223 | bytes arriving in any chunks with a poll after each are consumed as by one scan of the whole stream |
| UartWait.UartDevice.WaitUntil | pybricks/iodevices/pb_type_uart_device.c:232-252 | BUSY, INVALID_ARG or the remembered pattern |
| UartWait.UartDevice.WaitUntilReturnMap | pybricks/iodevices/pb_type_uart_device.c:225-230 | completion forgets the pattern |
| NotificationBuffer.ExtractOverlay | pybricks/iodevices/pb_type_iodevices_lwp3device.c:1396-1408 | a message is returned byte for byte from a re-used slot if and only if it is well-formed |
| NotificationBuffer.WellFormedSizes | pybricks/iodevices/pb_type_iodevices_lwp3device.c:1396-1398 | well-formed means 3 to 20 bytes, the first of which says how many |
| NotificationBuffer.ExtractMeans | pybricks/iodevices/pb_type_iodevices_lwp3device.c:1313-1408 | what is returned for any message: None if its first byte is not 3 to 20, else that many bytes, behind a shorter message those the slot held before |
| NotificationBuffer.StoredSlots | pybricks/iodevices/pb_type_iodevices_lwp3device.c:1308-1319 | storing puts the message behind the unread ones, dropping the oldest only if all slots are unread |
| NotificationBuffer.TakenSlots | pybricks/iodevices/pb_type_iodevices_lwp3device.c:1387-1394 | the empty test is exact, and reading takes the oldest slot |
| NotificationBuffer.StepRepresents | pybricks/iodevices/pb_type_iodevices_lwp3device.c:1300-1409 | one notification or read keeps indices and flag a representation of the queue and returns its oldest message |
| NotificationBuffer.RunRepresents | pybricks/iodevices/pb_type_iodevices_lwp3device.c:1300-1409 | so does any interleaving, for every capacity including 1 |
| NotificationBuffer.ReadReturnsOldest | pybricks/iodevices/pb_type_iodevices_lwp3device.c:1376-1409 | after any run a read returns the oldest unread message, or None if there is none |
| NotificationBuffer.UnreadAreNewest | pybricks/iodevices/pb_type_iodevices_lwp3device.c:1308-1319 | what is unread is the newest part of what arrived, and nothing is dropped while there is room |
| NotificationBuffer.Buffer.constructor | pybricks/iodevices/pb_type_iodevices_lwp3device.c:1332-1339 | an empty buffer; 0 becomes 1 and the count is kept in eight bits |
| NotificationBuffer.Buffer.Reset | pybricks/iodevices/pb_type_iodevices_lwp3device.c:309-313 | a new connection starts with an empty buffer, all slots in use zeroed |
| NotificationBuffer.Buffer.HandleNotification | pybricks/iodevices/pb_type_iodevices_lwp3device.c:1300-1320 | the update of the flat buffer, the indices and the flag is the specified step |
| NotificationBuffer.Buffer.ReadMessage | pybricks/iodevices/pb_type_iodevices_lwp3device.c:1383-1408 | result and update are the specified step; an error if notifications are off |
| DriveThrottle.EncodeIsInjective | pybricks/iodevices/pb_type_iodevices_lwp3device.c:676-679 | two requests have equal bytes if and only if they are equal after clamping |
| DriveThrottle.EncodeMeans | pybricks/iodevices/pb_type_iodevices_lwp3device.c:676-679 | as signed bytes the speed and steering are the numbers in -100..100 and -97..97 nearest to the arguments |
| DriveThrottle.MoveHub.CommandMeans | pybricks/iodevices/pb_type_iodevices_lwp3device.c:706-708 | the message has thirteen bytes, as its first says, and carries speed and steering in the tenth and eleventh |
| DriveThrottle.LastAttemptIsLastRequested | pybricks/iodevices/pb_type_iodevices_lwp3device.c:686-709 | after any run the last command handed to the driver is the last one requested |
| DriveThrottle.ObeyedIff | pybricks/iodevices/pb_type_iodevices_lwp3device.c:686-709 | the last command the driver accepted is the one now requested if and only if an attempt since the request last changed was accepted, or the same command had been accepted last before |
| DriveThrottle.ChangeIsTried | pybricks/iodevices/pb_type_iodevices_lwp3device.c:687-692 | the first request after a change is always attempted |
| DriveThrottle.AcceptedIsObeyed | pybricks/iodevices/pb_type_iodevices_lwp3device.c:686-709 | while the driver accepts every write, the last command accepted is always the last one requested |
| DriveThrottle.TwoFailuresLoseTheCommand | pybricks/iodevices/pb_type_iodevices_lwp3device.c:690-709 | after two refused writes a third equal request is not attempted and nothing has been delivered |
| DriveThrottle.DifferentIsTriedAtOnce | pybricks/iodevices/pb_type_iodevices_lwp3device.c:687-692 | a command that differs from the last one attempted is attempted at once |
| DriveThrottle.NoThreeTogether | pybricks/iodevices/pb_type_iodevices_lwp3device.c:681-703 | no three attempts at the same command in a row fall inside a window shorter than 500 ms |
| DriveThrottle.TwiceThenNotUntil500 | pybricks/iodevices/pb_type_iodevices_lwp3device.c:681-703 | of three equal requests the first two are attempted, the third if and only if 500 ms have passed since the second |
| DriveThrottle.RunIsSpaced | pybricks/iodevices/pb_type_iodevices_lwp3device.c:689-703 | the invariant behind it: the counter and the timer remember the last attempts |
| DriveThrottle.RepeatedAfterTimeout | pybricks/iodevices/pb_type_iodevices_lwp3device.c:690-697 | a suppressed command is attempted again if and only if the timeout is over, up to half a turn of the clock later |
| DriveThrottle.ExpiredMeansLater | lib/pbio/src/os.c:55-57 | the timer only reads as expired when the time is really over |
| DriveThrottle.MoveHub.DriveCall | pybricks/iodevices/pb_type_iodevices_lwp3device.c:669-711 | state, bytes attempted, bytes accepted and result are the specified call, also if the write fails; what is attempted carries the limited speed and steering |
| BleCodec.ErrorToIff | pybricks/messaging/pb_type_ble_radio.c:164-249 | encoding a list raises nothing if and only if every value is supported and all of them fit in 26 bytes |
| BleCodec.BodyErrorIff | pybricks/messaging/pb_type_ble_radio.c:295-314 | the same for the argument of broadcast(), single object or list |
| BleCodec.ErrorMeans | pybricks/messaging/pb_type_ble_radio.c:164-248 | TypeError exactly for unsupported objects, OverflowError exactly for integers beyond 32 bits, ValueError exactly for what ends beyond 26 bytes |
| BleRadio.FirstErrorDecides | pybricks/messaging/pb_type_ble_radio.c:311-314 | a list fails with the error of the first object that does not go in behind those before it |
| BleCodec.FewestBytes | pybricks/messaging/pb_type_ble_radio.c:203-220 | integers take the fewest of 1, 2 and 4 bytes that hold them |
| BleCodec.WireFormat | pybricks/messaging/pb_type_ble_radio.c:68-82 | the bytes of booleans, floats, strings and byte strings, and the marker of a single object |
| BleCodec.WireFormatOfInt | pybricks/messaging/pb_type_ble_radio.c:203-220 | the bytes of integers |
| BleCodec.BadDataIff | pybricks/messaging/pb_type_ble_radio.c:341-401 | data is bad exactly if its type is none of the six or it is an integer of a wrong size |
| BleCodec.DecodeItem | pybricks/messaging/pb_type_ble_radio.c:335-402 | an encoded value anywhere in the data is decoded to itself, ending exactly behind it |
| BleCodec.DecodeStream | pybricks/messaging/pb_type_ble_radio.c:467-481 | an encoded list is decoded to itself, ending exactly at its size whatever bytes follow |
| BleCodec.DecodeOfBody | pybricks/messaging/pb_type_ble_radio.c:461-481 | a single object comes back as a single object, a tuple (empty and one-element ones too) as a tuple |
| BleRadio.Append | pybricks/messaging/pb_type_ble_radio.c:164-175 | header and payload are written at the index and no other byte changes, or ValueError and nothing at all |
| BleRadio.EncodeValue | pybricks/messaging/pb_type_ble_radio.c:191-249 | the item is written at the index and no other byte changes, or the error is the specified one and nothing is written |
| BleRadio.EncodeObjects | pybricks/messaging/pb_type_ble_radio.c:311-314 | the loop writes all items one after another and changes no other byte, or stops with the first error |
| BleRadio.Broadcast | pybricks/messaging/pb_type_ble_radio.c:273-323 | the bytes handed to the driver are the advertisement of the data, and the errors are exact |
| BleRadio.Frame | pybricks/messaging/pb_type_ble_radio.c:316-321 | length, type, company identifier and channel before the encoded data |
| BleRadio.AdvertisementBytes | pybricks/messaging/pb_type_ble_radio.c:316-319 | the five header bytes in numbers |
| BleRadio.BroadcastThenObserve | pybricks/messaging/pb_type_ble_radio.c:122-482 | an advertised object observed within the timeout is returned unchanged if and only if the smoothed signal strength is not -128, and other rows are unchanged |
| BleRadio.WeakestSampleHides | pybricks/messaging/pb_type_ble_radio.c:424-458 | a sample of -128 dBm after a full window hides the data that came with it |
| BleRadio.NotConfiguredIff | pybricks/messaging/pb_type_ble_radio.c:415-422 | observe() raises ValueError if and only if no row is configured for the channel number modulo 256 |
| BleRadio.OutOfRangeIsAliased | pybricks/messaging/pb_type_ble_radio.c:416-418 | a number that is no channel reads the channel of its remainder, and is accepted if and only if that is configured |
| BleRadio.Channel257 | pybricks/messaging/pb_type_ble_radio.c:416-418 | channel 257 reads channel 1 |
| BleRadio.BroadcastIsObserved | pybricks/messaging/pb_type_ble_radio.c:122-482 | so it always is on a row with a timely history of samples stronger than -128 dBm |
| BleTable.LinkIsHistory | pybricks/messaging/pb_type_ble_radio.c:122-151 | in every run of advertisements and observations over the whole table, each row's time stamp and signal strength are what the samples and queries of its own channel make them |
| BleTable.LatestIsObserved | pybricks/messaging/pb_type_ble_radio.c:122-482 | in every run, observe() returns the latest advertisement of its channel until the timeout, whatever else is received or observed meanwhile, if the channel's samples are timely and above -128 dBm |
| BleTable.ExpiresAfterOneSecond | pybricks/messaging/pb_type_ble_radio.c:424-458 | in every run, more than 1000 ms after its last sample observing a channel answers None, empties its row and sets its signal strength to -128; up to 1000 ms observing changes nothing |
| BleTable.NothingReceivedIsNoData | pybricks/messaging/pb_type_ble_radio.c:557-561 | a channel on which nothing has been received answers None |
| BleRadio.Radio.Init | pybricks/messaging/pb_type_ble_radio.c:535-576 | ValueError exactly for bad channel numbers or too many; otherwise outdated rows in the order given |
| BleRadio.Radio.LookupObserved | pybricks/messaging/pb_type_ble_radio.c:94-109 | the first row of the channel |
| BleRadio.Radio.HandleObserveEvent | pybricks/messaging/pb_type_ble_radio.c:122-151 | the table update is the specified one; foreign data and unknown channels change nothing |
| BleRadio.OnlyTakerChanges | pybricks/messaging/pb_type_ble_radio.c:127-149 | only manufacturer data of this company for a configured channel changes the table, and only in the first row of that channel: its data and its size |
| BleRadio.Radio.GetChannelData | pybricks/messaging/pb_type_ble_radio.c:415-431 | the row, reset if it is too old |
| BleRadio.Radio.ObserveChannel | pybricks/messaging/pb_type_ble_radio.c:444-482 | the decoding loop gives the specified observation |
| BleRadio.Radio.SignalStrength | pybricks/messaging/pb_type_ble_radio.c:493-496 | the signal strength of the row as observing leaves it |
| Rssi.SmoothIsFloorAverage | pybricks/messaging/pb_type_ble_radio.c:137-145 | the wrapping unsigned expression cut to eight bits is the exact floor of the weighted average |
| Rssi.SmoothOver512 | pybricks/messaging/pb_type_ble_radio.c:37 | the weights add up to 512, one for each millisecond |
| Rssi.SmoothIsBetween | pybricks/messaging/pb_type_ble_radio.c:144-145 | it lies between the old value and the sample |
| Rssi.SmoothForgets | pybricks/messaging/pb_type_ble_radio.c:140-145 | after a full window only the sample is left |
| Rssi.StepIsSound | pybricks/messaging/pb_type_ble_radio.c:137-145 | a sample or a query keeps the value within the samples, or "no data" and stale |
| Rssi.RunIsSound | pybricks/messaging/pb_type_ble_radio.c:424-428 | over every run with gaps below one turn of the clock "no data" never gets any weight, so the value lies within the samples received |
| MatrixViews.Transposes | pybricks/tools/pb_type_matrix.c:303-316 | T swaps rows and columns on the same storage and is an involution |
| MatrixViews.Scales | pybricks/tools/pb_type_matrix.c:275-288 | scaling multiplies every entry on the same storage |
| MatrixViews.TransposeOfProduct | pybricks/tools/pb_type_matrix.c:225-316 | (A*B).T == B.T*A.T for every combination of views |
| MatrixViews.TransposeOfSum | pybricks/tools/pb_type_matrix.c:181-222 | the transpose of a sum or difference is that of the transposes |
| MatrixViews.RawDotScaled | pybricks/tools/pb_type_matrix.c:242-259 | multiplying the scales once is the same as scaling every entry |
| MatrixViews.SumMeans | pybricks/tools/pb_type_matrix.c:211-216 | entry by entry the sum is the sum and the difference the difference |
| MatrixViews.SubtractUndoesAdd | pybricks/tools/pb_type_matrix.c:181-222 | (A+B)-B == A, for every combination of views |
| MatrixViews.IdentityIsNeutral | pybricks/tools/pb_type_matrix.c:225-272 | A*I == A |
| MatrixViews.ProductDistributes | pybricks/tools/pb_type_matrix.c:181-272 | A*(B+C) == A*B + A*C |
| MatrixViews.FlatSubscript | pybricks/tools/pb_type_matrix.c:415-428 | the entry in row r and column c has flat subscript r*n+c, or that minus the length |
| MatrixViews.FlatInRange | pybricks/tools/pb_type_matrix.c:415-461 | every in-range flat subscript reads the entry of its row and column, for all views |
| MatrixViews.PairSubscript | pybricks/tools/pb_type_matrix.c:436-461 | a pair subscript, negative indices included, reads the entry seen there or raises IndexError |
| MatrixViews.FlatOutOfRange | pybricks/tools/pb_type_matrix.c:424-458 | an out-of-range flat subscript fails to raise IndexError if and only if the view is transposed and u/n < m*(n - u%n), where u is the subscript, from the end if negative, as an unsigned 32-bit word |
| MatrixViews.OutOfRangeBothWays | pybricks/tools/pb_type_matrix.c:424-458 | beyond the end u is the subscript itself; below the range IndexError is always raised if m*n*n is at most 2^31 |
| MatrixViews.FlatBelowRangeExample | pybricks/tools/pb_type_matrix.c:427 | a transposed column of 70000 entries reads its last entry for subscript -108653 |
| MatrixViews.FlatOutOfRangeExample | pybricks/tools/pb_type_matrix.c:426-428 | subscript 2*m of a transposed view with m rows and two columns reads row 0, column 1 |
| MatrixObjects.MakeNew | pybricks/tools/pb_type_matrix.c:20-79 | an error exactly for empty or ragged rows; a number for 1 by 1; otherwise the rows as given |
| MatrixObjects.Add | pybricks/tools/pb_type_matrix.c:181-222 | an error exactly for different shapes; otherwise the textbook sum or difference of the entries seen, in new storage |
| MatrixObjects.Multiply | pybricks/tools/pb_type_matrix.c:225-272 | an error exactly for mismatched shapes; otherwise the textbook product of the entries seen, a number if 1 by 1 |
| MatrixObjects.InnerProduct | pybricks/tools/pb_type_matrix.c:251-258 | the inner loop sums the products of stored values of a row and a column |
| MatrixObjects.StoredIsProduct | pybricks/tools/pb_type_matrix.c:242-260 | raw sums with the scales kept separately are the product of the entries seen |
| MatrixObjects.Matrix.Transpose | pybricks/tools/pb_type_matrix.c:303-316 | a new object on the same storage |
| MatrixObjects.Matrix.ScaleBy | pybricks/tools/pb_type_matrix.c:275-288 | a new object on the same storage |
| MatrixObjects.Matrix.GetScalar | pybricks/tools/pb_type_matrix.c:291-300 | the entry seen, or an error outside |
| MatrixObjects.Matrix.SubscriptFlat | pybricks/tools/pb_type_matrix.c:415-461 | the value at the specified position, remapped in unsigned 32-bit arithmetic, or IndexError |
| MatrixObjects.Matrix.SubscriptPair | pybricks/tools/pb_type_matrix.c:436-461 | the value at the specified position or IndexError |
| MatrixCells.CellReadsBack | pybricks/tools/pb_type_matrix.c:81-117 | reading an eight-character cell as signed fixed point gives back its thousandths |
| MatrixCells.TruncateMeans | pybricks/tools/pb_type_matrix.c:85 | the conversion drops the fraction and keeps the sign |
| MatrixCells.ThousandthsMeans | pybricks/tools/pb_type_matrix.c:84-95 | what is shown of an entry below 1000 in magnitude is less than a thousandth too near to zero and never of the other sign; from 1000 on it is 999.999 with the entry's sign |
| MatrixCells.DigitsAreDecimal | pybricks/tools/pb_type_matrix.c:98-101 | digits are the decimal ones |
| MatrixCells.CellExamples | pybricks/tools/pb_type_matrix.c:81-117 | 1.5 is shown as `   1.500` and -0.007 as `  -0.007` |
| MatrixCells.EditedIsCell | pybricks/tools/pb_type_matrix.c:98-116 | placing the sign, filling zeros and shifting for the decimal point turn padded digits into the right-aligned cell |
| MatrixCells.EditCell | pybricks/tools/pb_type_matrix.c:103-116 | the in-place edits, each reading what the ones before left, give the edited text |
| MatrixCells.PrintFloat | pybricks/tools/pb_type_matrix.c:82-117 | writes the cell of the number of thousandths |
| MatrixPrint.CellAtOffset | pybricks/tools/pb_type_matrix.c:139-148 | each cell is at its computed offset in the whole text |
| MatrixPrint.PrintedEntryReadsBack | pybricks/tools/pb_type_matrix.c:120-178 | reading the text at the computed offset recovers the entry seen there, cut to thousandths towards zero and limited to 999.999, with its sign |
| MatrixPrint.PrintedFrame | pybricks/tools/pb_type_matrix.c:132-170 | each row opens with a bracket, separates its cells and ends with a newline, at computed offsets |
| MatrixPrint.PrintedHasNoTerminator | pybricks/tools/pb_type_matrix.c:120-178 | no terminator is inside the text |
| MatrixPrint.Print | pybricks/tools/pb_type_matrix.c:120-173 | the loops fill all m*(10n+6) characters and the last one is the terminator |
| ModuleStore.ReadsRecord | bricks/_common/micropython.c:142-168 | size, name and body of a record are read back, and the next record starts where the body ends |
| ModuleStore.Find | bricks/_common/micropython.c:176-187 | the position of the first entry with the name, or none; only record boundaries are visited, each once, and the walk ends |
| ModuleStore.FirstFrom | bricks/_common/micropython.c:176-187 | the reference: the least index with the name, none if no entry has it |
| ModuleStore.SameModuleIff | bricks/_common/micropython.c:181 | two names find the same module if and only if they agree up to their first zero |
| ModuleStore.NameWithZero | bricks/_common/micropython.c:181 | a name with a zero inside finds the module stored under its first part |
| Importer.ImportKeepsInv | bricks/_common/micropython.c:450-513 | whatever fails, each body run belongs to one loaded module, none ran twice, loaded modules stay what they are, and globals are restored |
| Importer.RunKeepsInv | bricks/_common/micropython.c:190-213 | the same for running a body, with imports that are caught or not |
| Importer.NoBodyRunsTwice | bricks/_common/micropython.c:450-488 | so in every run of a main program no module body runs twice |
| Importer.ImportAgain | bricks/_common/micropython.c:456-460 | a second import runs nothing, returns the same module, and fails if and only if there is nothing to find, even if the body raised |
| Importer.ImportAnswers | bricks/_common/micropython.c:462-512 | for a name not yet loaded: the built-in module, without any change, exactly if one of the two tables has the name; ImportError for it exactly if nothing is known under it, or a body was run and raised that error |
| Importer.ImportsFirst | bricks/_common/micropython.c:451-460 | a relative import is refused; a loaded module comes before everything else |
| Importer.SourceMeans | bricks/_common/micropython.c:475-508 | the body behind a name is that of the first downloaded module that has it, else of the frozen one |
| Importer.BodyHasOwnNamespace | bricks/_common/micropython.c:190-225 | a body runs in the namespace of the module just made for it, which no loaded module has, and then the importer's is back |
| Importer.MissingModuleIsCaught | bricks/_common/micropython.c:511-512 | a missing module ends the importing body with ImportError unless that is caught |
| Importer.EveryReachableRunsOnce | bricks/_common/micropython.c:450-488 | for any finite import graph, cycles included, whose reachable modules exist and do not raise, exactly the reachable bodies run, each once |
| Importer.EndsIffAllFine | bricks/_common/micropython.c:450-513 | where failed imports are not caught, the main program ends without an exception if and only if everything it reaches can be imported and does not raise |
| Importer.RunStaysWithin | bricks/_common/micropython.c:450-513 | whatever fails or is caught, only bodies in every set closed under the imports mentioned in any branch, starting from the main body, can run |
| Importer.UnmentionedMainRunsOnce | bricks/_common/micropython.c:242-246 | in any program the main body does not run again if no body mentions the name it is stored under |
| Importer.MainRunsAgainIff | bricks/_common/micropython.c:242-246 | in a program in which nothing raises and every reachable module can be imported, the main body runs again if and only if the name it is stored under is reached and is not that of a built-in module |
| ImporterObjects.Interpreter.FindDownloaded | bricks/_common/micropython.c:165-187 | finding a record and reading its body through the header gives the first entry's body |
| ImporterObjects.Interpreter.Import | bricks/_common/micropython.c:450-513 | the recursive import over the packed store terminates and is the specified one |
| ImporterObjects.Interpreter.LoadModule | bricks/_common/micropython.c:478-487 | a new module is registered before its body runs, and stays registered if it raises |
| ImporterObjects.Interpreter.ExecuteInContext | bricks/_common/micropython.c:190-213 | the body runs in the module's namespace and the globals are put back, also after an exception |
| ImporterObjects.Interpreter.RunUserProgram | bricks/_common/micropython.c:230-246 | the first record is run in the main namespace |

## Left out

- MicroPython itself (objects, memory management, non-local jumps, argument parsing, aborting the virtual machine): exceptions are results and allocation makes a fresh object.
- Drivers (Bluetooth, serial port, clock): their replies, received bytes and the time are parameters; connecting, scanning and discovery are not modelled.
- Floating-point rounding: matrices are over real numbers, broadcast floats are four opaque bytes.
- Matrix iteration, `abs`, cross products, vectors built from matrices, unary and mixed arithmetic operators: thin or outside the core; iteration over transposed views walks the storage backwards.
- Iterating a Task after it has stopped, and `race` without children: outside the intended use.
- AwaitableObjects.Async.IterNext: does not model calls back into the same awaitable from inside iter_once or the return map. The close callback may stop its own awaitable, as that of the drive base does; other effects it has on awaitables are separate steps.
- MultitaskObjects.Task.Iternext: a child is a plan (how often it yields, what it then returns or raises, which of its close calls raise), all children are different objects and all have a close method; the children are not changed by others between rounds.
- Cancellation.CollectionStopsHardware: all children are awaitables with a driver that behaves as planned, and nothing else uses these awaitables during the collection.
- Tools.ToolsModule.Wait: only with the run loop active; without it a positive wait just blocks for its time.
- Tools.ToolsModule.RunTask: the coroutine is a plan that ends after some number of iterations, unless a pending exception ends the loop before; one that never ends is not modelled.
- UartWait.UartDevice.WaitUntilIterOnce: a failing read of the driver is not modelled, since the bytes read are known to be waiting.
- Stopwatch.TimeIsRunningTime: a result is a Python integer of any size. The firmware is configured without long integers (bricks/_common/mpconfigport.h:104), so on hubs with 32-bit words a time beyond the range of its small integers cannot be returned; what happens then is decided in MicroPython, which is not part of this model.
- BleCodec.DecodeItem: likewise for decoded 32-bit integers beyond that range.
- BleRadio.Radio.ObserveChannel: data that does not come from the encoder and makes the decoder read past its 26 bytes has no defined result in the firmware; the model answers Undefined.
- BleRadio.Broadcast: the driver call and the awaitable it returns; a broadcast channel is one that the constructor accepted.
- BleCodec.BodyErrorIff: integers beyond 32 bits raise OverflowError as in builds with 64-bit pointers; integers beyond the machine word are not distinguished from them.
- MatrixPrint.Print: requires that a thousand times every entry converts to a 32-bit integer; beyond that the conversion in C has no defined result. The class name and the closing brackets around the text are sent separately and are not modelled.
- MatrixObjects.Matrix.SubscriptFlat: subscripts are 32-bit machine words, as on the hubs; builds with 64-bit words remap with 2^64 in place of 2^32.
- MatrixObjects.MakeNew: rows are sequences of numbers; a Matrix given as argument is returned as it is.
- NotificationBuffer.Buffer.ReadMessage: while connected; the error without a connection comes from the driver.
- DriveThrottle.MoveHub.DriveCall: the awaitable it returns, so a write that is accepted and fails later counts as delivered; other users of the shared button buffer.
- ModuleStore.Find: program memory is a list of records as the tool that downloads programs writes them.
- Importer.EveryReachableRunsOnce: a body is a finite tree of imports with optional handlers; loops, import names computed at run time and everything else a body does are not modelled. Names have no zero byte inside; ModuleStore.NameWithZero shows what a zero would do.
- Importer.MainRunsAgainIff: a main program stored under the name of a built-in module is never found by that name; `__main__` is presumably such a name.
- Importer.ImportKeepsInv: initialisation functions of built-in modules and attributes of packages are not modelled.
- Hub menus, reading input bytes, tables, fonts and configuration: no deep property.
