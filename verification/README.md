# Kernel objects and heater controller

This project models the concurrent kernel objects of the firmware (intrusive
lists, software timers, queues and mutexes, stream and message buffers, event
groups) and the safety controller of the heater processor with its serial link,
and proves what they promise.

| file | what it holds |
|---|---|
| `IntrusiveList.dfy` | the circular doubly linked list with its end marker, on the heap, and the order it keeps |
| `TimerArithmetic.dfy` | tick counts modulo any number of ticks, related to true, unbounded time |
| `Timers.dfy` | the timer daemon: two sorted lists, reloads, list switches, commands |
| `QueueProtocol.dfy` | the lock counters of a queue as a state machine over critical sections |
| `Queue.dfy` | a queue with its storage ring, wait lists and locks; each method is one step of the state machine |
| `RecursiveMutex.dfy` | recursive mutexes |
| `StreamRing.dfy` | one writer and one reader of a stream buffer, interleaved byte by byte |
| `StreamBuffer.dfy` | the copying routines and the message framing of stream and message buffers |
| `MessageRing.dfy` | whole messages on that ring while both sides are active |
| `StreamBlocking.dfy` | how writer and reader of a stream buffer wait for and notify each other |
| `EventGroups.dfy` | event bits, waiters, and the one-pass release |
| `Rendezvous.dfy` | tasks that meet again and again by `xEventGroupSync` |
| `LpcProtocol.dfy` | CRC-8 and which errors it shows; frames, encoder and decoder of the link |
| `HeaterInterlock.dfy` | the link timeout latch against interrupts at any register write |
| `Options.dfy` | optional values |
| `Pwm.dfy` | divider, period and match arithmetic of the PWM channels |
| `Thermal.dfy` | the heater controller: configuration, control, faults |
| `LpcHost.dfy` | what the main board sends to the heater processor, and that it is understood |
| `Firmware.dfy` | the main loop: bytes, frames, the schedule of control rounds, the tick |

## How to read it

Code that changes state is a class whose methods follow the source statement by
statement. Where calls of several parties interleave, there is a state machine:
`Enabled` and `Apply` give its steps, `Legal` and `After` its runs, and the main
results are lemmas about every run from every initial state. Lists of timers and
of tasks are sequences that are changed by the same `InsertPosition`, `InsertAt`
and `RemoveAt` that the pointer-level list of `IntrusiveList.dfy` is proved to
implement.

Tick counts are taken modulo `w`, any positive number. A timer remembers, for the
proofs only, the true time its expiries count from and the true time of each of
its callbacks. While a timer is listed the daemon has to take samples of the time
that are less than one wrap apart; with both lists empty, when it blocks without a
limit, any time may pass. A start command has to be received less than one wrap
after it was issued: `OnlyAgeModuloWrapCounts` says what the code does with an older
one, and `StaleCommandIsMissed` which of them it misses.

The main result about the daemon, `TimerTask`, compares it with a reference for each
timer by itself: `Planned` follows what the commands about one timer ask for, without
lists, wraps, rounds and other timers. After any sequence of rounds, commands and
creations every timer has done what its own plan says.

Eight properties that might be expected fail, each with an input that shows it and
the condition under which it holds:

- A sender can be left waiting on a queue with room after a reset (`ResetLosesASender`).
  `ResetStrandsASenderIff`: after a reset in a reachable state, some run without another
  reset ends with an unlocked queue with room, no woken sender and a waiting one exactly
  if more than one sender waited and the woken ones leave room in the empty queue.
- The assertion in the lock counters can fail: exactly with more than 127 tasks there
  is a run in which it does (`CountersFit`, `AssertionCanFail`).
- A heater can get more than a model that has just come to life allows
  (`OutputBeyondNewModel`). `ConfigureModelC` and `HandleFrame`: an output within the
  live model is within the model after the frame exactly if the frame makes no new model
  or the duty that is on is 0 or no more than the new model allows; `Live` says so of
  every sequence of inputs. `Control` restores the limit with the next good reading.
- The main line can overwrite the fault that the interrupt stored, at every place that
  stores a state but SetFault (`FaultCanBeOverwritten`). `FaultSurvivesIff`: until the next
  reset the fault stays exactly if no store follows whose guard was read before the
  interrupt. The latch keeps the heater off in any case, and `Control` faults again at the
  next good reading.
- Reader and writer of a stream buffer can wait for each other, with bytes in it that are
  too few for the trigger level. `BothBlockedIff`: exactly if the trigger level and what the
  writer needs are together more than the capacity and one.
- A reader of a buffer in static memory can be out of reach of any writer.
  `ReaderCanBeWokenIff`: exactly if the trigger level is the whole length, which creation
  accepts and changing the level does not.
- A burst of eight bits on the wire can go unnoticed although CRC-8 shows every burst of
  that length in its own bit order (`BurstIsRejected`): the wire has the least significant
  bit of a byte first (`WireBurstIsMissed`). `WireBurstIsAcceptedIff`: exactly for the two patterns D8 06 and
  6C 03 in two neighbouring bytes.
- A link that is dead can look alive again without a heartbeat. `SwitchOnAfter`: exactly
  while the time since the last one, modulo one wrap of the 32-bit counter, is no more than
  the timeout.

What a function that code and contracts share computes is stated a second time, by a
law that does not call it: conditions of event groups bit by bit (`ConditionMetIff`),
the answer of control to an error (`PidAnswers`, `BangBang`, `DutyFollowsError`), frames
as numbers made of their bytes (`MessageIs`, `ActionMeans`, and from the side of the
sender `RoundTrip`), the tasks that an unlock wakes (`WakeManyWakes`), the block time as
the time of the first expiry (`ProcessTimerOrBlock`).

A comment in `prvProcessTimerOrBlockTask` says that blocking with an empty current
list waits for the tick count to roll over. When the tick count is 0 at that moment
the computed block time is 0, so the daemon comes round again at once; `BlockTime`
states both cases.

## Model

| member | source | states |
|---|---|---|
| SortedOrder.InsertPosition | FreeRTOS/src/list.c:139-211 | the place vListInsert searches for: behind every value that is not greater |
| SortedOrder.InsertKeepsSorted | FreeRTOS/src/list.c:150-190 | insertion keeps the order and is stable: equal values stay in front, greater ones behind, for the maximum value too |
| SortedOrder.RemoveUndoesInsert | FreeRTOS/src/list.c:214-246 | removing what was just inserted restores the sequence |
| SortedOrder.InsertKeepsDistinct | FreeRTOS/src/list.c:105-136 | a new member leaves all members different |
| SortedOrder.RemoveKeepsDistinct | FreeRTOS/src/list.c:214-246 | a removed member is gone and the others are still different |
| IntrusiveList.NeighboursAfterInsert | FreeRTOS/src/list.c:121-128 | which two links of the ring an insertion changes, and to what |
| IntrusiveList.NeighboursAfterRemove | FreeRTOS/src/list.c:224-225 | which two links of the ring a removal changes, and to what |
| IntrusiveList.RotateWalk | FreeRTOS/src/include/list.h:285-296 | one step of the round robin turns the order in which items are met by one |
| IntrusiveList.InsertEndIsMetLast | FreeRTOS/src/list.c:105-136 | an item inserted at the end is the last the round robin meets before it is back where it stood |
| IntrusiveList.List.constructor | FreeRTOS/src/list.c:49-86 | an empty list is a ring of the end marker alone |
| IntrusiveList.List.Link | FreeRTOS/src/list.c:121-128 | four pointer updates make the links those of the longer ring |
| IntrusiveList.List.Unlink | FreeRTOS/src/list.c:224-225 | two pointer updates make the links those of the shorter ring |
| IntrusiveList.List.InsertEnd | FreeRTOS/src/list.c:105-136 | the item enters just before the index; ring, count, container and all values are right afterwards |
| IntrusiveList.List.Insert | FreeRTOS/src/list.c:139-211 | the search ends, and the ring is the old one with the item at its sorted, stable place |
| IntrusiveList.List.Remove | FreeRTOS/src/list.c:214-246 | the item is out, the index steps back only if it stood there, and the number of items left is returned |
| IntrusiveList.List.NextEntry | FreeRTOS/src/include/list.h:285-296 | the round robin returns the next item, never the end marker, and visits all in turn |
| IntrusiveList.InsertThenRemove | FreeRTOS/src/list.c:139-246 | an insertion and a removal of the same item leave every pointer of the list as it was |
| TimerArithmetic.PlacementIsExact | FreeRTOS/src/timers.c:894-935 | the four-way comparison says "process now" exactly if the true expiry has been reached, and otherwise picks the list of the wrap the expiry lies in |
| TimerArithmetic.OnlyAgeModuloWrapCounts | FreeRTOS/src/timers.c:894-935 | for a command of any age, "process now" is chosen exactly if its age modulo one wrap is at least the period |
| TimerArithmetic.StaleCommandIsMissed | FreeRTOS/src/timers.c:904-918 | an expired start command is missed exactly if its age modulo one wrap is less than the period, so it is more than one wrap old |
| TimerArithmetic.SmallerCountMeansWrapped | FreeRTOS/src/timers.c:876-886 | for samples less than one wrap apart a smaller tick count means the next wrap |
| TimerArithmetic.AddModulo | FreeRTOS/src/timers.c:706-709 | expiry times may be advanced modulo the tick range |
| TimerArithmetic.LastOfWrap | FreeRTOS/src/timers.c:1099-1102 | the greatest tick count of a wrap that is over lies in the past |
| TimerArithmetic.CountIsFloor | FreeRTOS/src/timers.c:699-715 | between two expiries the number of callbacks is the number of whole periods |
| Timers.OverdueShrinks | FreeRTOS/src/timers.c:1086-1103 | each round of a catch-up loop leaves one fewer overdue timer, and at the greatest tick count a shorter list |
| Timers.AfterPutOnCurrent | FreeRTOS/src/timers.c:928-931 | entering the current list keeps every other timer in step |
| Timers.AfterPutOnOverflow | FreeRTOS/src/timers.c:914-917 | entering the overflow list keeps every other timer in step |
| Timers.AfterTake | FreeRTOS/src/timers.c:729 | leaving a list keeps every other timer in step |
| Timers.AfterSwap | FreeRTOS/src/timers.c:1105-1107 | when the lists change places, the overflow list is the list of the new wrap |
| Timers.ActiveIsAhead | FreeRTOS/src/timers.c:782-841 | once nothing on the current list is due, every active timer's next expiry is ahead |
| Timers.CaughtUpCounts | FreeRTOS/src/timers.c:699-745 | then the callback of an active timer was made exactly floor((now - start) / period) times, and never early |
| Timers.HeadIsFirst | FreeRTOS/src/timers.c:848-860 | the head of the current list expires first |
| Timers.BlockTime | FreeRTOS/src/timers.c:807-820 | the block time ends by the first expiry, and exactly then, or at the next wrap if the current list is empty and the count is not 0 |
| Timers.EvolvedTwice | FreeRTOS/src/timers.c:766-778 | what a round leaves of a timer may be said of many rounds |
| Timers.ServedWhenLeftAlone | FreeRTOS/src/timers.c:733-744 | what auto-reload and one-shot timers have come to when no command is about them |
| Timers.TimerDaemon.constructor | FreeRTOS/src/timers.c:1111-1159 | the daemon starts with two empty lists |
| Timers.TimerDaemon.InsertTimerInActiveList | FreeRTOS/src/timers.c:894-935 | expired or put on the list of the wrap of its true expiry, at its place; no other timer moves |
| Timers.TimerDaemon.ReloadTimer | FreeRTOS/src/timers.c:699-715 | the backlog loop ends, every past expiry but the one the caller serves is called back, and the next lies ahead |
| Timers.TimerDaemon.ProcessExpiredTimer | FreeRTOS/src/timers.c:718-745 | all expiries up to now are called back, none twice; a one-shot timer becomes inactive |
| Timers.TimerDaemon.SwitchTimerLists | FreeRTOS/src/timers.c:1086-1108 | the loop ends with the current list empty, and the list of the next wrap takes its place |
| Timers.TimerDaemon.SampleTimeNow | FreeRTOS/src/timers.c:871-891 | the lists are switched exactly if the count is smaller, and less than one wrap after the last sample that is exactly if the wrap has changed; with nothing listed any time may have passed |
| Timers.TimerDaemon.ProcessTimerOrBlock | FreeRTOS/src/timers.c:782-841 | a round switches, serves the head of the list if that is due, or blocks with nothing due, exactly until the next expiry of the current list or the end of the wrap, and without limit exactly if nothing is listed |
| Timers.TimerDaemon.CatchUp | FreeRTOS/src/timers.c:766-775 | rounds at one tick come to an end, also after a block without limit, and then every active timer has been served for each whole period and the block time ends exactly with the next expiry of the current list or with the wrap |
| Timers.TimerDaemon.WakeUp | FreeRTOS/src/timers.c:782-841 | a round at the end of a block time, with no command between, serves a timer if the current list is not empty, and otherwise switches the lists |
| Timers.TimerDaemon.TimerTask | FreeRTOS/src/timers.c:748-779 | over any sequence of rounds, commands and creations across any wraps every timer follows its own plan and there are no others, and after a final catch-up each meets it exactly: an auto-reload timer that was last started at s has been called floor((now - s) / period) times, a one-shot one once after its period and not before, a stopped one is inactive; a timer that no command names goes on as if it were alone |
| Timers.AfterStep | FreeRTOS/src/timers.c:766-778 | one round, command or creation keeps every timer on its own plan |
| Timers.FollowsCommand | FreeRTOS/src/timers.c:999-1060 | a command changes the plan of its timer as it says, also when it comes after the expiry it asks for |
| Timers.MeetsWhenServed | FreeRTOS/src/timers.c:699-745 | a timer that follows its plan has done exactly what it says once the daemon has caught up |
| Timers.StepIsInTime | FreeRTOS/src/timers.c:801-812 | if no timer is planned to be active the lists are empty, and the next sample may come at any time |
| Timers.TimerDaemon.Create | FreeRTOS/src/timers.c:417-446 | a new timer is inactive and on no list |
| Timers.TimerDaemon.StartTimer | FreeRTOS/src/timers.c:999-1028 | a start that was overtaken by its own expiries makes all of them up |
| Timers.TimerDaemon.ChangeTimerPeriod | FreeRTOS/src/timers.c:1036-1049 | a changed period counts from now and never expires at once, so the ignored result is always false |
| Timers.TimerDaemon.StopTimer | FreeRTOS/src/timers.c:1030-1034 | a stopped timer is inactive |
| Timers.TimerDaemon.ProcessCommand | FreeRTOS/src/timers.c:971-1081 | a command does to its timer what it says and to the others only what the time sample does |
| Timers.TimerDaemon.ProcessReceivedCommands | FreeRTOS/src/timers.c:938-1083 | after any number of commands every timer follows the plan that all commands about it make, and those that no command is about have only been served |
| QueueProtocol.WakeManyOK | FreeRTOS/src/queue.c:2490-2568 | an unlock wakes as many tasks as were counted, or all that wait, and keeps the lists well-formed |
| QueueProtocol.WakeManyWakes | FreeRTOS/src/queue.c:2490-2598 | exactly the first tasks of the list are woken, as many as were counted if there are so many, and no others |
| QueueProtocol.StepWakesNoMore | FreeRTOS/src/queue.c:939-2599 | no step wakes more tasks than it has reasons for, those counted before included |
| QueueProtocol.SignalServes | FreeRTOS/src/queue.c:1193-1318 | an interrupt that adds an item wakes a task or counts it, or the counter is at its cap, which is enough for all |
| QueueProtocol.PlaceServes | FreeRTOS/src/queue.c:1600-1604 | a task may go onto the wait list although items came after it saw none: they were counted |
| QueueProtocol.StepKeepsStateOK | FreeRTOS/src/queue.c:939-2599 | in every step wait lists hold different tasks that were not woken, and counters stay between -1 and the number of tasks |
| QueueProtocol.InterruptLosesNone | FreeRTOS/src/queue.c:1157-1323 | no interrupt loses a wake-up |
| QueueProtocol.LockingLosesNone | FreeRTOS/src/queue.c:1592-1620 | locking, testing, waiting and unlocking lose no wake-up |
| QueueProtocol.TaskLosesNone | FreeRTOS/src/queue.c:1496-1643 | sends, receives, peeks, retries and timeouts of tasks lose no wake-up |
| QueueProtocol.StepLosesNone | FreeRTOS/src/queue.c:258-2599 | no step loses a wake-up of a receiver, nor, except a reset, of a sender |
| QueueProtocol.ResetStrandsASenderIff | FreeRTOS/src/queue.c:326-349 | after a reset in a reachable state some run ends unlocked with room, no woken sender and a waiting one exactly if more than one sender waited and the woken ones leave room in the empty queue |
| QueueProtocol.RunsLoseNone | FreeRTOS/src/queue.c:258-2599 | the invariant holds after every run |
| QueueProtocol.NoLostWakeUp | FreeRTOS/src/queue.c:258-2599 | in every run: if receivers wait, messages are at most woken receivers plus the lock count, or the count covers all waiters; so unlocked and with none woken, receivers wait only for an empty queue; the same for senders and free places |
| QueueProtocol.NoSpuriousWakeUp | FreeRTOS/src/queue.c:258-2599 | in every run no more receivers are woken than messages were sent or peeked at, and no more senders than messages were received or resets made |
| QueueProtocol.BlockingCallBlocks | FreeRTOS/src/queue.c:1592-1609 | an undisturbed blocking call ends with the task on its list and the queue unlocked |
| QueueProtocol.ResetLosesASender | FreeRTOS/src/queue.c:326-349 | a run in which a task resets a full queue that two others wait for, and one of them then waits on a queue with room |
| QueueProtocol.CountersFit | FreeRTOS/src/queue.c:277-300 | in every run with at most 127 tasks the lock counters stay within an int8_t and the assertion on them never fails |
| QueueProtocol.AssertionCanFail | FreeRTOS/src/queue.c:277-300 | with any greater number of tasks there is a run in which it does |
| QueueRing.WriteBehind | FreeRTOS/src/queue.c:2406-2419 | a write at the write position appends to the messages |
| QueueRing.WriteInFront | FreeRTOS/src/queue.c:2420-2432 | a write at the read position puts a message in front |
| QueueRing.ReadFront | FreeRTOS/src/queue.c:2461-2479 | the place behind the read position holds the oldest message |
| Queue.Queue.constructor | FreeRTOS/src/queue.c:303-371 | a new queue is empty, unlocked, and known to the given tasks, of which none waits |
| Queue.Queue.CopyDataToQueue | FreeRTOS/src/queue.c:2378-2458 | to the back, to the front, or in place of the one message of a queue of length one |
| Queue.Queue.CopyDataFromQueue | FreeRTOS/src/queue.c:2461-2479 | the read position moves on by one, around the end |
| Queue.Queue.Send | FreeRTOS/src/queue.c:961-1102 | a bounded double-ended queue: refuses when full unless overwriting, and otherwise adds the message and wakes exactly the first receiver of the list |
| Queue.Queue.SendFromISR | FreeRTOS/src/queue.c:1157-1323 | as a send, but a locked queue counts one, up to the number of tasks, instead of waking |
| Queue.Queue.Receive | FreeRTOS/src/queue.c:1522-1587 | takes the oldest message and wakes exactly the first sender of the list, or changes nothing |
| Queue.Queue.ReceiveFromISR | FreeRTOS/src/queue.c:2029-2123 | as a receive, but a locked queue counts one, up to the number of tasks, instead of waking |
| Queue.Queue.Peek | FreeRTOS/src/queue.c:1898-1970 | returns the oldest message, leaves the messages as they are and wakes one more receiver |
| Queue.Queue.Lock | FreeRTOS/src/queue.c:258-270 | sets both counters to zero if they are not in use |
| Queue.Queue.UnlockTx | FreeRTOS/src/queue.c:2490-2568 | exactly the first receivers of the list are woken, as many as messages were counted if there are so many |
| Queue.Queue.UnlockRx | FreeRTOS/src/queue.c:2571-2598 | exactly the first senders of the list are woken, as many as places were counted if there are so many |
| Queue.Queue.Test | FreeRTOS/src/queue.c:1596-1626 | under the lock, a task waits exactly if it has time left and there is still nothing for it |
| Queue.Queue.PlaceOnEventList | FreeRTOS/src/queue.c:1603 | the task is on the list of its side |
| Queue.Queue.TimedOut | FreeRTOS/src/queue.c:1622-1643 | a task whose block time has expired is off its wait list, and nothing else changes |
| Queue.Queue.Reset | FreeRTOS/src/queue.c:303-371 | the queue is empty and unlocked and exactly the first sender of the list is woken |
| Queue.FirstInFirstOut | FreeRTOS/src/queue.c:939-2123 | a queue that is built, filled by a task and emptied by a task and interrupts returns the messages in order |
| RecursiveMutex.RecursiveMutex.SemaphoreTake | FreeRTOS/src/queue.c:1675-1757 | taking records the holder |
| RecursiveMutex.RecursiveMutex.TakeRecursive | FreeRTOS/src/queue.c:815-855 | succeeds exactly if no other task has a take that it has not given back |
| RecursiveMutex.RecursiveMutex.GiveRecursive | FreeRTOS/src/queue.c:756-808 | succeeds exactly for a task with a take outstanding, and frees the mutex with the last one |
| StreamRing.Distance | FreeRTOS/src/stream_buffer.c:1455-1473 | the number of unread bytes, without ever being negative |
| StreamRing.Spaces | FreeRTOS/src/stream_buffer.c:675-695 | the free space is the rest of the ring less one |
| StreamRing.WriterStaysOutside | FreeRTOS/src/stream_buffer.c:1365-1408 | a byte being written is never one that is unread |
| StreamRing.PublishHeadKeepsInv | FreeRTOS/src/stream_buffer.c:948-955 | moving the head adds exactly the copied bytes to the unread ones |
| StreamRing.PublishTailKeepsInv | FreeRTOS/src/stream_buffer.c:1215-1222 | moving the tail takes exactly the copied bytes off the unread ones |
| StreamRing.StepKeepsInv | FreeRTOS/src/stream_buffer.c:665-1225 | every access of either side keeps what was sent equal to what was received and what is unread |
| StreamRing.MeasuredExactly | FreeRTOS/src/stream_buffer.c:675-683 | when the loop that reads the tail again ends, the measured space is exact |
| StreamRing.ReceivedIsPrefixOfSent | FreeRTOS/src/stream_buffer.c:665-1473 | in every interleaving, the bytes received are a prefix of those sent and the rest is in the ring in order |
| StreamRing.UnreadGrows | FreeRTOS/src/stream_buffer.c:948-955 | the unread bytes after a publication are the old ones and the copied ones |
| StreamRing.UnreadShrinks | FreeRTOS/src/stream_buffer.c:1215-1222 | the unread bytes after a take are the old ones without the copied ones |
| MessageRing.SeesWholeMessage | FreeRTOS/src/stream_buffer.c:1042-1044 | a reader that sees more than a header sees the whole message |
| MessageRing.StepKeepsWhole | FreeRTOS/src/stream_buffer.c:908-1225 | a publication adds one whole message behind the unread ones, a take moves the first of them behind those received, and no other access changes the messages |
| MessageRing.MessagesArriveInOrder | FreeRTOS/src/stream_buffer.c:908-1225 | in every interleaving the messages received are the first ones sent, whole and in order, the unread bytes are exactly the others, and both lists only grow as the run goes on |
| MessageRing.ReaderNeverSeesPartOfAMessage | FreeRTOS/src/stream_buffer.c:908-1225 | in every interleaving the reader finds nothing or all of the message whose length it reads, and that length is right |
| MessageFraming.HeaderRoundTrip | FreeRTOS/src/stream_buffer.c:212 | a length is read back from its four bytes |
| MessageFraming.FramesOfOneMore | FreeRTOS/src/stream_buffer.c:914-957 | a message is added as its length and its bytes |
| MessageFraming.FramesFront | FreeRTOS/src/stream_buffer.c:1182-1192 | the front of the bytes is the length and the bytes of the first message |
| MessageFraming.NoMessageFits | FreeRTOS/src/stream_buffer.c:1084-1099 | no more than four bytes means no bytes and no message |
| MessageFraming.FramesInjective | FreeRTOS/src/stream_buffer.c:914-957 | the bytes determine the messages |
| StreamBuffer.StreamBuffer.BytesInBuffer | FreeRTOS/src/stream_buffer.c:1455-1473 | the number of unread bytes |
| StreamBuffer.StreamBuffer.SpacesAvailable | FreeRTOS/src/stream_buffer.c:665-699 | the space that is left |
| StreamBuffer.StreamBuffer.WriteBytes | FreeRTOS/src/stream_buffer.c:1365-1408 | the bytes stand in the ring from the given index on, around the end, and no other place has changed |
| StreamBuffer.StreamBuffer.ReadBytes | FreeRTOS/src/stream_buffer.c:1411-1452 | the bytes of the ring from the given index on, around the end |
| StreamBuffer.StreamBuffer.WriteMessage | FreeRTOS/src/stream_buffer.c:908-958 | a message goes in whole or not at all; a stream takes what fits |
| StreamBuffer.StreamBuffer.Send | FreeRTOS/src/stream_buffer.c:719-905 | as above; sending an empty message has no effect |
| StreamBuffer.StreamBuffer.ReadMessage | FreeRTOS/src/stream_buffer.c:1173-1225 | the oldest message if the caller's buffer holds it, and otherwise nothing is touched; a stream gives what there is |
| StreamBuffer.StreamBuffer.Receive | FreeRTOS/src/stream_buffer.c:961-1066 | messages come out whole, in order, each once |
| StreamBuffer.StreamBuffer.NextMessageLength | FreeRTOS/src/stream_buffer.c:1069-1110 | the length of the oldest message or 0, and the assertion in it holds |
| StreamBlocking.StepKeepsSenderOK | FreeRTOS/src/stream_buffer.c:59-73 | a writer that sleeps is entered, and if there is the room it needs the reader is about to notify it |
| StreamBlocking.StepKeepsReceiverOK | FreeRTOS/src/stream_buffer.c:139-150 | a reader that sleeps is entered, and if the trigger level is reached the writer is about to notify it |
| StreamBlocking.NoLostWakeUp | FreeRTOS/src/stream_buffer.c:777-1051 | in every interleaving of sends, receives, timeouts and notifications from elsewhere: a reader sleeps only below the trigger level and a writer only without the room it needs, unless the other side is about to notify it; the assertions on the task handles hold |
| StreamBlocking.BothBlockedIff | FreeRTOS/src/stream_buffer.c:784-835 | some run ends with both sides asleep exactly if trigger level and needed room exceed the capacity by more than one |
| StreamBlocking.NothingElseHappens | FreeRTOS/src/stream_buffer.c:808-1021 | then only a timeout or a notification from elsewhere can go on |
| StreamBlocking.OneByteTriggerIsSafe | FreeRTOS/src/stream_buffer.c:349-354 | with a trigger level of one byte, as message buffers have it, both sides never sleep at once |
| StreamBlocking.ReaderCanBeWokenIff | FreeRTOS/src/stream_buffer.c:426-435 | some run comes to notify a sleeping reader exactly if the trigger level is no more than the capacity |
| EventBits.ControlBitsApart | FreeRTOS/src/include/event_groups.h:48-51 | a wait's bits and its two options can be told apart in one word |
| EventBits.DeliveredMeans | FreeRTOS/src/event_groups.c:612-617 | a released task can tell the release from a timeout and read the bits |
| EventBits.SharesBit | FreeRTOS/src/event_groups.c:772-784 | a conjunction is not zero exactly if some bit position is one in both words |
| EventBits.HasAllBits | FreeRTOS/src/event_groups.c:785-797 | a conjunction is the second word exactly if every bit position of that is one in the first |
| EventGroups.ReleasesExactly | FreeRTOS/src/event_groups.c:568-624 | exactly the waiters whose condition holds on the new bits are released, each with that same value |
| EventGroups.ConditionMetIff | FreeRTOS/src/event_groups.c:766-800 | a wait for any bit is met exactly if some awaited bit position is one, a wait for all bits exactly if every one is |
| EventGroups.SetMeans | FreeRTOS/src/event_groups.c:568-628 | bit by bit: after a set exactly those go on waiting whose condition does not hold on the joint bits, the tasks of the others are released, and a bit is off exactly if it was off before or a released waiter wanted it cleared |
| EventGroups.ClearsExactly | FreeRTOS/src/event_groups.c:600-628 | a bit is cleared exactly if a released waiter asked for it |
| EventGroups.OrderDoesNotMatter | FreeRTOS/src/event_groups.c:568-628 | the order of the wait list has no influence on who is released, with what value, and what is cleared |
| EventGroups.ClearingSatisfiesNone | FreeRTOS/src/event_groups.c:466-495 | clearing bits meets no condition |
| EventGroups.SetSatisfiesAll | FreeRTOS/src/event_groups.c:556-630 | after a set, no waiter that is left has its condition met, despite the deferred clearing |
| EventGroups.WaiterMeans | FreeRTOS/src/event_groups.c:365-387 | the item value says what the task waits for and how |
| EventGroups.PassOneMore | FreeRTOS/src/event_groups.c:568-624 | each turn of the loop extends what the pass has done by one waiter |
| EventGroups.EventGroup.SetEventBits | FreeRTOS/src/event_groups.c:538-635 | the loop computes the release, deliveries and clearing, bit by bit as SetMeans says, remembers for each released task the bits of that moment, and leaves no waiter satisfied |
| EventGroups.EventGroup.ClearEventBits | FreeRTOS/src/event_groups.c:466-495 | returns the old bits, clears, and leaves no waiter satisfied |
| EventGroups.EventGroup.WaitBits | FreeRTOS/src/event_groups.c:306-398 | blocks exactly if there is time and not (some, or if asked for every) awaited bit position is one; otherwise clears the awaited bits if asked to and the condition holds |
| EventGroups.EventGroup.Sync | FreeRTOS/src/event_groups.c:179-243 | sets, then returns with all bits cleared or waits, and leaves no waiter satisfied |
| EventGroups.EventGroup.TimeOut | FreeRTOS/src/event_groups.c:406-417 | a timed out task leaves the list and nothing else changes |
| EventGroups.EventGroup.AfterTimeOut | FreeRTOS/src/event_groups.c:417-452 | a late task returns the bits and clears those it awaited if asked to and its condition, bit by bit, has come to hold meanwhile |
| EventGroups.EventGroup.Collect | FreeRTOS/src/event_groups.c:415-452 | a released task gets exactly the bits that were set when it was released, whatever has become of them since |
| Rendezvous.MetIffAll | FreeRTOS/src/event_groups.c:205-215 | the meeting's bits are all set exactly if all tasks have come |
| Rendezvous.AllOrNone | FreeRTOS/src/event_groups.c:568-628 | tasks that wait for the same bits are released together |
| Rendezvous.LastCall | FreeRTOS/src/event_groups.c:179-243 | the last task to come releases all others with all bits and leaves none set |
| Rendezvous.EarlierCall | FreeRTOS/src/event_groups.c:216-231 | an earlier task leaves its bits and waits |
| Rendezvous.LastCallKeepsInv | FreeRTOS/src/event_groups.c:179-303 | the last arrival starts the next round |
| Rendezvous.EarlierCallKeepsInv | FreeRTOS/src/event_groups.c:179-303 | an earlier arrival keeps the round |
| Rendezvous.ReturnKeepsInv | FreeRTOS/src/event_groups.c:256-293 | a return keeps the round |
| Rendezvous.NobodyIsAhead | FreeRTOS/src/event_groups.c:179-303 | in every run, no task returns from its k-th call before every task has made its k-th call, and each gets the bits of all |
| Crc8.UpdateCrc | Shared/src/LpcProtocol.cpp:6-14 | eight steps of the shift register |
| Crc8.UpdateInjective | Shared/src/LpcProtocol.cpp:6-14 | different registers, or different bytes, lead to different registers |
| Crc8.OneChangeShows | Shared/src/LpcProtocol.cpp:6-14 | bytes that differ in one place have different checksums |
| Crc8.ShiftKeepsOdd | Shared/src/LpcProtocol.cpp:9-12 | a step keeps the parity of the register |
| Crc8.CrcKeepsOdd | Shared/src/LpcProtocol.cpp:6-14 | checksums differ in an odd number of bits exactly if the bytes do |
| CrcErrors.CrcIsLinear | Shared/src/LpcProtocol.cpp:6-14 | the checksum of the bits in which two sequences differ is the bits in which their checksums differ |
| CrcErrors.ResidueIsZero | Shared/src/LpcProtocol.cpp:53-67 | bytes with a checksum behind them leave zero in the register exactly if it is theirs |
| CrcErrors.NeighboursCancelIff | Shared/src/LpcProtocol.cpp:6-14 | an error in two neighbouring bytes cancels exactly if eight steps take the first half of it to the second |
| CrcErrors.BurstShows | Shared/src/LpcProtocol.cpp:6-14 | an error within eight bits in a row does not cancel, over a byte boundary either |
| CrcErrors.WireBurstShowsUnless | Shared/src/LpcProtocol.cpp:6-14 | in the order of the wire it cancels for two patterns only |
| LpcProtocol.Encode | Shared/src/LpcProtocol.cpp:74-93 | sync, type, length, payload and checksum, or nothing for a payload that is too long; the rest of the output is left alone |
| LpcProtocol.Decoder.Reset | Shared/src/LpcProtocol.cpp:16-22 | the decoder looks for a sync byte |
| LpcProtocol.Decoder.Feed | Shared/src/LpcProtocol.cpp:24-72 | the decoder in its fields does what the step function says |
| LpcProtocol.FeedFrame | Shared/src/LpcProtocol.cpp:53-67 | a frame is accepted, on its last byte, exactly if that byte is the checksum |
| LpcProtocol.DecodesWhatWasEncoded | Shared/src/LpcProtocol.cpp:24-93 | encoded frames in a row decode to exactly those frames |
| LpcProtocol.NextRemembers | Shared/src/LpcProtocol.cpp:24-72 | the decoder's memory is always about the last bytes of the stream |
| LpcProtocol.AcceptsOnlyEncodings | Shared/src/LpcProtocol.cpp:24-93 | in any stream, an accepted frame is one whose encoding the stream ends in |
| LpcProtocol.AcceptedAreInTheStream | Shared/src/LpcProtocol.cpp:24-93 | every frame accepted from a stream stands, encoded, somewhere in it |
| LpcProtocol.EncodedPing | Shared/src/LpcProtocol.cpp:74-93 | the bytes of a ping, checksum included, as worked out by hand |
| LpcProtocol.Resynchronises | Shared/src/LpcProtocol.cpp:24-72 | after any garbage and nineteen bytes that are not the sync byte, the frames that follow are decoded |
| LpcProtocol.EighteenAreTooFew | Shared/src/LpcProtocol.cpp:24-72 | eighteen are not enough |
| LpcProtocol.ErrorIsAcceptedIff | Shared/src/LpcProtocol.cpp:24-93 | an error in type, payload and checksum goes unnoticed exactly if its own checksum is zero, and then what was received is what is accepted |
| LpcProtocol.NeighboursErrorIsAcceptedIff | Shared/src/LpcProtocol.cpp:24-93 | an error in two neighbouring bytes goes unnoticed exactly if eight steps of the register take its first half to its second |
| LpcProtocol.BurstIsRejected | Shared/src/LpcProtocol.cpp:24-93 | any error within eight consecutive bits is rejected, in the order in which the register takes them |
| LpcProtocol.WireBurstIsAcceptedIff | Shared/src/LpcProtocol.cpp:24-93 | an error within eight consecutive bits on the wire is accepted exactly for two patterns over a byte boundary |
| LpcProtocol.WireBurstIsMissed | Shared/src/LpcProtocol.cpp:24-93 | such an error exists for every frame and every two neighbouring bytes behind its length |
| LpcProtocol.OneByteErrorIsRejected | Shared/src/LpcProtocol.cpp:24-93 | a change of one byte of type, payload or checksum is rejected |
| LpcProtocol.OddErrorIsRejected | Shared/src/LpcProtocol.cpp:24-93 | an odd number of flipped bits among them is rejected |
| HeaterInterlock.StepKeepsInv | LpcFirmware/src/Thermal.cpp:163-181 | wherever the interrupt hits, a latched heater is off or inside a call that will switch it off |
| HeaterInterlock.StepKeepsSafelyOff | LpcFirmware/src/Thermal.cpp:163-173 | once off and latched, no register write of the main line switches the heater on |
| HeaterInterlock.LatchedMeansOff | LpcFirmware/src/Thermal.cpp:163-181 | in every run, if the latch is set when ApplyHeater is not under way, the heater is off |
| HeaterInterlock.StaysOffUntilCleared | LpcFirmware/src/Thermal.cpp:469-504 | and it stays off at every moment until the latch is cleared, whatever state the main line stores |
| HeaterInterlock.FaultSurvivesIff | LpcFirmware/src/Thermal.cpp:305-421 | in every run up to the next reset the fault of the interrupt stays stored at every moment exactly if none of the stores of the main line follows that was decided on before the interrupt |
| HeaterInterlock.FaultStaysIff | LpcFirmware/src/Thermal.cpp:694-735 | a stored fault stays exactly if no store follows that was decided on before it |
| HeaterInterlock.GuardsKeepFault | LpcFirmware/src/Thermal.cpp:341-735 | each of the places that store a heater state is behind a look at the state that does not lead there from a fault, except for SetFault |
| HeaterInterlock.FaultCanBeOverwritten | LpcFirmware/src/Thermal.cpp:143-161 | at every one of these places but SetFault an interrupt between the look and the store loses its fault, and the heater is off all the same, at every moment of every run until the latch is cleared |
| HeaterInterlock.SecondLookIsNeeded | LpcFirmware/src/Thermal.cpp:169-172 | without the second look at the latch the heater could be left on |
| Pwm.DividedClock | LpcFirmware/src/Pwm.cpp:81-85 | the divided clock suits the timer's width and gives at least two ticks a cycle |
| Pwm.PeriodFits | LpcFirmware/src/Pwm.cpp:81-90 | the period is in range for every frequency that is not zero, so the last check never refuses |
| Pwm.DividerIsLeast | LpcFirmware/src/Pwm.cpp:81-83 | no smaller divider makes the slowest cycle long enough |
| Pwm.PeriodIsLongest | LpcFirmware/src/Pwm.cpp:81-86 | the period is the longest that is not slower than asked for |
| Pwm.PulseIsNearest | LpcFirmware/src/Pwm.cpp:92-93 | the pulse is the nearest whole number of ticks and not longer than the period |
| Pwm.Channel.SetConstant | LpcFirmware/src/Pwm.cpp:52-56 | a constant level without the timer |
| Pwm.Channel.Set | LpcFirmware/src/Pwm.cpp:58-111 | refuses only a duty without a frequency; otherwise the registers give the frequency to one tick of the fastest clock that will do, and the nearest duty |
| Thermal.PidOutput | LpcFirmware/src/Thermal.cpp:424-448 | the output is between 0 and what the model allows; what it is in between is stated by PidAnswers |
| Thermal.ControlOutput | LpcFirmware/src/Thermal.cpp:423-457 | and so is it without PID, and inverted |
| Thermal.BangBang | LpcFirmware/src/Thermal.cpp:449-457 | without PID the heater is full on exactly below its target, or if inverted exactly not below it |
| Thermal.PidAnswers | LpcFirmware/src/Thermal.cpp:424-448 | the limit if proportional and derivative part and expected need exceed it, 0 if they are negative, and otherwise the first two and an integral that gains in proportion to the error, all within the limits |
| Thermal.Inversion | LpcFirmware/src/Thermal.cpp:454-457 | an inverted heater gets what another one would lack |
| Thermal.DutyFollowsError | LpcFirmware/src/Thermal.cpp:423-463 | the duty never falls as the error grows, nor rises if inverted, whatever the model |
| Thermal.IntegralFollowsError | LpcFirmware/src/Thermal.cpp:443-447 | the integral moves in the direction of the error |
| Thermal.OutputResponds | LpcFirmware/src/Thermal.cpp:423-463 | the duty at the limits of what is asked for, and without PID at all times |
| Thermal.DutyIsMonotone | LpcFirmware/src/Thermal.cpp:166-167 | rounding to a duty keeps the order |
| Thermal.ModelStep | LpcFirmware/src/Thermal.cpp:573-649 | what each model message does to the pending and the live model |
| Thermal.AcceptedMeans | LpcFirmware/src/Thermal.cpp:115-124 | in numbers, when three messages make a model and what its flags mean |
| Thermal.PartsAreKept | LpcFirmware/src/Thermal.cpp:589-637 | the three parts together set all of a model |
| Thermal.Thermal.UpdateHeaterState | LpcFirmware/src/Thermal.cpp:143-161 | heating exactly when more than 1.5 degrees too cold, cooling when more than 1.5 too hot, and stable in between; only a new state restarts the fault timers |
| Thermal.Thermal.ApplyHeater | LpcFirmware/src/Thermal.cpp:163-173 | the latch overrules any output; otherwise the duty is within one half of what is asked for |
| Thermal.Thermal.SetFault | LpcFirmware/src/Thermal.cpp:175-181 | a fault switches the heater off |
| Thermal.Thermal.SampleTemperature | LpcFirmware/src/Thermal.cpp:201-248 | when a reading is good, and the error when it is not |
| Thermal.Thermal.CountReading | LpcFirmware/src/Thermal.cpp:277-303 | the error of a fault outlives readings, and bad readings are counted up to 255 |
| Thermal.Thermal.WatchHeating | LpcFirmware/src/Thermal.cpp:350-392 | a heater that heats too slowly faults exactly when it has done so for too long; otherwise, when the rise can be judged, the reference moves on and the fault timer runs down |
| Thermal.Thermal.Watch | LpcFirmware/src/Thermal.cpp:348-421 | a stable heater faults exactly when it has been away from its target for too long, a heating one exactly when it has been too slow for too long, and what becomes of both fault timers |
| Thermal.Thermal.Control | LpcFirmware/src/Thermal.cpp:275-467 | a round with a good reading faults at the limits, and otherwise watches the temperature and leaves the duty that answers the error (PidAnswers, BangBang), never more than the model allows; without one the heater keeps its duty or faults; a fault stays; and what becomes of the memory of the loop |
| Thermal.Thermal.Regulate | LpcFirmware/src/Thermal.cpp:328-467 | an active heater faults only for a cause: limits, latch, or a fault timer that runs out |
| Thermal.Thermal.AdjustedTarget | LpcFirmware/src/Thermal.cpp:339-340 | control aims at the boosted target, and never above the upper limit |
| Thermal.Thermal.Drive | LpcFirmware/src/Thermal.cpp:339-467 | a changed boost is followed, the temperature watched, and the duty is the one that answers the error, or 0 with a fault |
| Thermal.Thermal.ResetConfiguration | LpcFirmware/src/Thermal.cpp:469-504 | everything is unconfigured, and heater and latch are off |
| Thermal.Thermal.Tick | LpcFirmware/src/Thermal.cpp:520-528 | the latch is set exactly when an active heater has had no heartbeat for too long |
| Thermal.Thermal.HostHeartbeat | LpcFirmware/src/Thermal.cpp:535-538 | the link is alive again |
| Thermal.Thermal.ConfigureThermistor | LpcFirmware/src/Thermal.cpp:540-571 | configured exactly if all values are usable; otherwise an active heater faults |
| Thermal.Thermal.RejectModelUpdate | LpcFirmware/src/Thermal.cpp:573-580 | a rejected update stops an active heater |
| Thermal.Thermal.ConfigureModelA | LpcFirmware/src/Thermal.cpp:582-595 | a first part starts over and touches nothing live |
| Thermal.Thermal.ConfigureModelB | LpcFirmware/src/Thermal.cpp:597-614 | a second part counts only right behind a first |
| Thermal.Thermal.ConfigureModelC | LpcFirmware/src/Thermal.cpp:616-649 | the live model changes exactly if three parts came in a row and make a valid model, and then it is all of it from those three; the output is still within the model exactly if it is no more than the new one allows |
| Thermal.Thermal.FinishModel | LpcFirmware/src/Thermal.cpp:628-648 | the whole pending model goes live, or none of it |
| Thermal.Thermal.ConfigureHeater | LpcFirmware/src/Thermal.cpp:651-682 | configured exactly if the frequency is not zero and the limits are in order; otherwise the old ones stay and an active heater faults |
| Thermal.Thermal.TurnOn | LpcFirmware/src/Thermal.cpp:709-729 | active exactly if link, configuration, state, reading, limits and target allow it, heating, cooling or stable by the temperature, and the error says which did not |
| Thermal.Thermal.TurnOff | LpcFirmware/src/Thermal.cpp:694-738 | the heater is off, and a fault stays |
| Thermal.Thermal.ResetFault | LpcFirmware/src/Thermal.cpp:740-757 | a fault is left only with a live link and a good temperature |
| Thermal.Thermal.Command | LpcFirmware/src/Thermal.cpp:684-759 | what each command leaves of state, target, fault and latch; an unknown one changes nothing |
| Thermal.Thermal.ConfigureFeedForward | LpcFirmware/src/Thermal.cpp:761-790 | values that are not finite fault; others leave what the integral holds beyond the expected cost of extrusion and fan as it was |
| Thermal.Thermal.HandleFrame | LpcFirmware/src/Thermal.cpp:792-820 | no frame raises the duty; only the reset command leaves a fault, only the on command makes the heater active; what each frame sets; an output within the model stays so exactly if no stricter model comes to life |
| Thermal.Thermal.PassTimeWithoutHeartbeat | LpcFirmware/src/Thermal.cpp:520-528 | two ticks more than the timeout without a heartbeat leave the heater off and, if it was on, latched, whatever the counters |
| Thermal.Thermal.LiveWithoutHeartbeat | LpcFirmware/src/Thermal.cpp:275-820 | over every sequence of frames, rounds, ticks and resets without a heartbeat: while the time since the last one is more than the timeout and less than a wrap of the counter, the heater is off and cannot be switched on; the link looks alive exactly while that time modulo a wrap is within the timeout |
| Thermal.Thermal.SwitchOnAfter | LpcFirmware/src/Thermal.cpp:128-131 | after any number of milliseconds without a heartbeat a heater that is ready is switched on exactly if the time since the last one modulo a wrap of the counter is within the timeout |
| Thermal.Thermal.ReadBadly | LpcFirmware/src/Thermal.cpp:300-327 | bad readings in a row fault the heater exactly when they exceed the limit, unless the limit is 255, which they never do |
| Thermal.Thermal.StayAstray | LpcFirmware/src/Thermal.cpp:394-408 | rounds in a row with a temperature too far from the target fault a stable heater exactly with the round that makes a quarter of a second for each more than the time allowed |
| Thermal.Thermal.Live | LpcFirmware/src/Thermal.cpp:275-820 | over every sequence of frames, rounds, ticks, heartbeats and resets: an active heater is configured, the live model is one valid triple, fault and latch outlive everything but reset command and configuration reset, and the output is within the model if at every change of the model it was within the new one |
| Thermal.OutputBeyondNewModel | LpcFirmware/src/Thermal.cpp:638-642 | a new model can leave the heater with more than it allows, until the next good reading: the case that the condition of ConfigureModelC leaves out |
| Firmware.Firmware.Dispatch | LpcFirmware/src/main.cpp:36-89 | frames for pins, heartbeat and configuration end leave the heater alone; limits, frequency, target, boost and model parts are set to the numbers made of the bytes of the payload; only a reset clears fault and latch and only the command to switch on makes the heater active; a ping keeps the link alive |
| Firmware.Firmware.HandleByte | LpcFirmware/src/main.cpp:28-90 | the heater changes only with a frame whose encoding the stream ends in |
| Firmware.Firmware.HearFrame | LpcFirmware/src/main.cpp:28-90 | the bytes of an encoded frame, one behind the other, set what the frame says |
| Firmware.Firmware.Spin | LpcFirmware/src/Thermal.cpp:822-830 | a round of control takes place only if the last one began at least 250 ms ago |
| Firmware.Firmware.Run | LpcFirmware/src/main.cpp:25-110 | over every sequence of bytes, looks at the schedule and ticks: the frames acted on are those the decoder accepts from the bytes; fault and latch outlive bytes without a frame that clears them; without a frame that switches it on the heater stays off; without a heartbeat frame it is off once the timeout is over, and with one in time the latch is never set; pins are driven as the frames say, never that of the heater |
| Firmware.CommandOfMessage | LpcFirmware/src/Thermal.cpp:684-692 | what a heater frame commands is what its first payload byte says |
| Firmware.MessageIs | LpcFirmware/src/Thermal.cpp:93-108 | every field of every message as a number made of the bytes of the payload, less significant first |
| Firmware.ActionMeans | LpcFirmware/src/main.cpp:36-89 | in numbers, which frames are heartbeat, reset, end of configuration, or for a pin |
| Firmware.OneMoreEvent | LpcFirmware/src/main.cpp:25-110 | the promises about a run hold for one more event |
| Firmware.FrameIsHeardLast | Shared/src/LpcProtocol.cpp:24-93 | an encoded frame is accepted on its last byte and nothing before |
| Firmware.EvolvesTwice | LpcFirmware/src/main.cpp:25-110 | these promises compose over any events |
| Firmware.HeaterPinIsNotDriven | LpcFirmware/src/main.cpp:63-84 | no sequence of frames drives the heater pin |
| LpcHost.RoundTrip | RepRapFirmware/src/Hardware/SAM4E/LpcInterface.cpp:437-533 | every message of the main board to the heater controller, with all fields in all ranges, is understood as it was sent |
| LpcHost.TicksAreNear | RepRapFirmware/src/Hardware/SAM4E/LpcInterface.cpp:62-72 | a temperature in range loses less than one unit on the way, towards zero |
| LpcHost.ConfigureHeater | RepRapFirmware/src/Hardware/SAM4E/LpcInterface.cpp:492-506 | sent, encoded, decoded and dispatched, the limits in force are those of the main board to a tenth of a degree, refused exactly if they are not in order or there is no frequency |
| LpcHost.ConfigureHeaterModel | RepRapFirmware/src/Hardware/SAM4E/LpcInterface.cpp:469-490 | sent in three frames and heard, the whole model is live if its numbers are in range, and otherwise nothing of it |

## Left out

- tasks.c and the port layer: scheduling, priorities and their inheritance, yields and tick handling are not part of this model; a task is placed on a wait list at a position chosen by the scheduler, the head is removed, and timeouts may happen whenever the scheduler runs.
- Queue sets, co-routines, the queue registry, trace macros, creation from static or dynamic memory, deletion, and more than one core.
- Deleting a task, or ending its delay, while it waits; resetting a stream buffer during a transfer; timer commands with unknown numbers and pended function calls.
- Timers: a timer is a record in a map and the two lists are sequences of items, so pointer identity and memory are only modelled for the list itself; callbacks are recorded, not executed, and do not send commands.
- Timers.TimerDaemon.ProcessCommand: a delete command marks the timer inactive, which is what the code does without dynamic allocation or for timers in static memory; freeing memory is not modelled.
- vTimerSetReloadMode: the reload mode of a timer is fixed when it is created.
- Queue.Queue.Send: a message is one element of the ring, so the bytes of a message and memcpy are not modelled; the blocking loops appear as runs of critical sections, with a task's retry as its next step.
- xQueueGiveFromISR and xQueueSemaphoreTake on semaphores: they move no data and are sends and receives of the state machine.
- RecursiveMutex.RecursiveMutex.SemaphoreTake: priority inheritance and blocking are left out; a blocked take is a later call.
- StreamBuffer.StreamBuffer.Send: one call that need not wait, undisturbed; waiting for space, the trigger level and the notification of the reader are in StreamBlocking, and a reader that is active meanwhile in StreamRing.
- StreamBuffer.StreamBuffer.Receive: one call that need not wait, undisturbed; waiting for data and the notification of the writer are in StreamBlocking.
- StreamBlocking.NoLostWakeUp: one writer and one reader, as the code asserts; a trigger level that is changed while somebody waits is not part of this model.
- StreamBuffer.StreamBuffer.WriteMessage: a message whose length is within four bytes of the range of size_t, which the code asserts against when it sends from a task, is outside its precondition.
- EventGroups.EventGroup.Sync: the task's block time is a flag, and its return after a release or a timeout is a call of its own.
- Setting and clearing bits from interrupts: the code hands both to the timer daemon, where they are the calls modelled here.
- LpcProtocol.Decoder.Feed: payload bytes behind the length of a frame, which keep old values, are not part of a frame.
- Thermal: numbers are reals, so rounding of floats is not modelled, and a value that is not finite is known only as such; the formulas with logarithms, powers and roots (thermistor, cooling rate, PID constants) and the window of earlier temperatures give their results as inputs.
- Thermal.Thermal.SampleTemperature: the ADC and the average of eight readings are part of the sample it is given.
- Thermal.Thermal.ApplyHeater: the second look at the latch can differ from the first only after an interrupt and is modelled in HeaterInterlock.
- The status frame, the status flag, and the polling of input pins.
- Timers.TimerDaemon.StartTimer: a start command is less than one wrap old when it is received; what becomes of older ones is in TimerArithmetic.
- LpcHost.RoundTrip: how a float becomes four bytes is a parameter with an inverse; the main board's own state, which sends most messages only while the link is online, its status reception and the replay of a configuration are not part of this model.
- Firmware.Firmware.Run: how four bytes make up a float is a parameter, as is what the sensor shows; the tick interrupt comes between bytes, and in between register writes only in HeaterInterlock.
- HeaterInterlock.LatchedMeansOff: registers shared with other pins are taken to keep their other bits, and the handler itself is not interrupted.
- GPIO, ADC, UART, CAN and the hardware layer, and the message structures of the CAN library.
