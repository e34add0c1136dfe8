# Verification of the event loop library under swift-uv

swift-uv wraps libuv 1.49.0 for Swift and ships its C sources. These Dafny modules model the parts of that
code that are algorithms or protocols of their own, and prove what the code is for: that encodings can be
decoded, that no work item, command, signal, timer or interest change is lost or seen twice, that walks over
lists survive the callbacks that change them, and that the linked structures stay what they stand for.

Code that changes memory step by step is modelled as methods over arrays and objects, proved against
functions of the input. Code that runs on several threads is modelled as a state machine whose steps are the
atomic regions of the source; "reachable" then means reachable by any sequence of enabled steps. Callbacks
are arbitrary: a walk takes a script for each callback, and the theorems hold for all scripts. Integers are
unbounded in Dafny, so 32 and 64 bit words are subset types or explicit remainders, and every place where
the source relies on the absence of a wrap-around is a proof.

| module | models |
|---|---|
| Basics | words, optional values and sequences without duplicates, for the others |
| Utf8 | the UTF-8 decoder of `idna.c` |
| Punycode | RFC 3492: the decoder of section 6.2, the encoder as a function, the round trip |
| Idna | `uv__idna_toascii_label` and `uv__idna_toascii` with their cursors and buffers |
| Wtf8 | the WTF-8 and UTF-16 conversions and lengths of `idna.c` |
| ThreadPool, ThreadPoolOrder | `threadpool.c` as a state machine, and the order of its work |
| Heap | `heap-inl.h` on linked nodes |
| Queue | the intrusive rings of `queue.h` |
| Rings, Watchers | the walks of `loop-watcher.c` on the rings |
| Inotify | the inotify watcher lists of `linux.c` |
| TimerHeap, Timers | `timer.c` on the linked heap |
| Async | `async.c` and the command queue in front of it as a state machine |
| Jobs | `UVFIFOQueue.swift` and the draining loop of `UVJobs.swift` |
| NextPower | `next_power_of_two` and the sizes of `maybe_resize`, in words |
| IoWatchers | `maybe_resize`, `uv__io_start`, `uv__io_stop` |
| EpollCtl | the submission ring for `EPOLL_CTL` and the registration phase of `uv__io_poll` |
| EpollWait | the loop of `uv__io_poll` over the reported events, with `uv__platform_invalidate_fd` |
| Signals | `signal.c` as a state machine |
| Handles | handle flags, the active count and the closing list |
| InetText, Inet6Text, Inet6Grammar, Inet | the address printers and parsers of `inet.c`, and what they accept |
| ChildStdio | the descriptor setup of `uv__process_child_init` |
| Barrier | the portable barrier of `thread-common.c` as a state machine |
| FsWrite | `uv__fs_write_all` |

## Where the code and its promise differ

Each of these is a lemma or part of a contract.

- `uv__utf8_decode1` accepts more than RFC 3629: four-byte leads before a short tail, and continuation bytes
  whose top bits only cancel out (`Utf8.AcceptsMalformed`). What it accepts is RFC 3629 text exactly when a lead
  byte is followed by as many continuation bytes as it announces (`Utf8.AcceptsStrictlyIff`).
- `uv__wtf8_decode1` accepts overlong forms of three and four bytes (`Wtf8.AcceptsOverlong`), and apart from them only
  the bytes of a code point (`Wtf8.RejectsIff`, `Wtf8.EncodedIff`).
- `uv_wtf8_to_utf16` fails an assertion for U+10000 and U+10FFFF and for no other code point
  (`Wtf8.ToUtf16`).
- `uv_utf16_to_wtf8` reports a wrong size with `UV_ENOBUFS` exactly when the buffer is not empty and the first
  code point does not fit: the capacity is added to the size (`Wtf8.FillBuffer`, `Wtf8.SizeIsRightIff`, and for an
  input `Wtf8.SizeIsWrong`).
- `uv__io_start` allows the descriptor `INT_MAX - 1`, but `next_power_of_two` wraps to 0 for it: `maybe_resize`
  then takes 2 to the 32 minus 2 for the number of slots, allocates nothing and aborts
  (`NextPower.LargestDescriptor`); for every smaller descriptor the slots suffice (`NextPower.GrowsIff`,
  `IoWatchers.IoLoop.Start`).
- `UV_SIGNAL_ONE_SHOT` is never cleared: a message stops its watcher exactly if the watcher was ever started
  one-shot (`Signals.OneShotForever`), also when `uv_signal_start` has started it since
  (`Signals.RegularStartStopped`).
- A watched signal can have its default disposition, and not only until the message of the one-shot watcher is
  dispatched: a second one-shot watcher that starts before that installs no handler and is left active without
  one (`Signals.Stranded`). The disposition is the default exactly if a one-shot handler has been used up and no
  start has installed one since (`Signals.WatchedAtDefault`), and persistent exactly as `Signals.WatchedPersistently`
  says.
- `UVExecutionThread.cancel` adds a `.stop` each time it is called. The second one closes the handle of the loop
  again, which fails the assertion of `uv_close`: the commands behind it are not taken out (`Jobs.TwoStops`). The
  queue is drained exactly if at most one stop is taken out of it, the one that closed the handle earlier
  counted (`Jobs.UVJobs.HandleJobs`).
- `uv_prepare_start`, `uv_check_start`, `uv_idle_start` and `uv_fs_event_start` accept a closing handle. From then
  on the reference macros move the count of active handles away from the handles that are active and
  referenced, by any amount and in either direction (`Handles.CountIsOffByAny`): a loop can stay alive with
  everything closed (`Handles.StartWhileClosing`), or end under a running timer (`Handles.RefWhileClosing`). The
  count is right in every run without such a start (`Handles.CountStaysRight`).
- In `inet_ntop6` a run of seven words never reaches the test for one (`Inet.FormatWord`), and `heap_remove` resets
  a `min` that has been cleared already (`Heap.MinHeap.Remove`).

## Model

| member | source | states |
|---|---|---|
| Utf8.Decode1 | Sources/Clibuv/src/idna.c:138-149 | a result other than the error is a scalar value, and the cursor advances without passing the end |
| Utf8.DecodesWellFormed | Sources/Clibuv/src/idna.c:71-149 | a well-formed sequence of section 3 of RFC 3629 gives its scalar value and its exact length |
| Utf8.DecodesText | Sources/Clibuv/src/idna.c:71-149 | decoding a whole well-formed text gives back what was encoded |
| Utf8.AcceptsStrictlyIff | Sources/Clibuv/src/idna.c:71-133 | accepted input is RFC 3629 text if and only if the lead byte is followed by the continuation bytes it announces |
| Utf8.RejectsIff | Sources/Clibuv/src/idna.c:71-149 | an input is rejected if and only if its bytes say so: no lead byte, nothing behind it, top bits that do not pass, overlong, a surrogate or too large; else the low bits of the bytes are the result |
| Utf8.TwoBytesNeedContinuation | Sources/Clibuv/src/idna.c:107-117 | a two-byte lead without a continuation byte is always rejected |
| Utf8.AcceptsMalformed | Sources/Clibuv/src/idna.c:82-117 | two accepted inputs that RFC 3629 forbids |
| Utf8.BoundIrrelevant | Sources/Clibuv/src/idna.c:174-187 | a character read inside a label is the one read in the whole name |
| Punycode.VarRoundTrip | Sources/Clibuv/src/idna.c:261-287 | the variable-length integers of section 3.3 of RFC 3492 are read back, for every bias |
| Punycode.RunRoundTrip | Sources/Clibuv/src/idna.c:227-312 | from any point of the encoder's run, decoding what it still writes completes the label |
| Punycode.PassRoundTrip | Sources/Clibuv/src/idna.c:249-308 | the same from any position inside a pass: each delta is an insertion at the right place |
| Punycode.RoundTrip | Sources/Clibuv/src/idna.c:152-315 | section 6.2 of RFC 3492 decodes the encoding of every label to exactly its code points |
| Punycode.LabelTextDecodes | Sources/Clibuv/src/idna.c:189-220 | the text of a label is the label itself if it is ASCII, else "xn--" and a text that decodes to it |
| Punycode.EncodingIsInjective | Sources/Clibuv/src/idna.c:152-315 | different labels never get the same encoding |
| Punycode.ShortLabelsFit | Sources/Clibuv/src/idna.c:240-256 | no label of up to 3854 code points overflows |
| Punycode.AdaptIs | Sources/Clibuv/src/idna.c:289-305 | the bias is 36 for each division by 35 that leaves more than 455, and the fraction of the rest; the first delta is divided by 700, the others by 2, and each is increased by its share |
| Punycode.DigitIs | Sources/Clibuv/src/idna.c:154 | the digits are the letters and then the decimal digits |
| Punycode.Sample | Sources/Clibuv/src/idna.c:152-315 | the label größe becomes xn--gre-6ka8i, byte for byte |
| Idna.Count | Sources/Clibuv/src/idna.c:170-187 | the first loop accepts exactly the labels that decode, and counts their ASCII and other characters |
| Idna.CopyBasic | Sources/Clibuv/src/idna.c:197-212 | the second loop writes the ASCII characters in order |
| Idna.FindSmallest | Sources/Clibuv/src/idna.c:228-238 | the smallest code point not handled yet |
| Idna.OverflowTest | Sources/Clibuv/src/idna.c:240-246 | the division test is exactly the overflow of the 32 bit sum |
| Idna.PutDelta | Sources/Clibuv/src/idna.c:261-287 | the digit loop writes the variable-length integer of section 3.3 of RFC 3492, within 32 bits |
| Idna.AdaptBias | Sources/Clibuv/src/idna.c:289-305 | the bias is that of section 6.1 of RFC 3492, by Punycode.AdaptIs: halving and dividing by 350 is dividing by 700 |
| Idna.WritePass | Sources/Clibuv/src/idna.c:249-308 | a pass writes exactly what the encoder function writes, or the label overflows |
| Idna.WriteDeltas | Sources/Clibuv/src/idna.c:222-312 | the outer loop terminates, writes the deltas of the label, and fails exactly if it overflows |
| Idna.ToAsciiLabel | Sources/Clibuv/src/idna.c:152-315 | the buffer holds the label's text, cut at its end; UV_EINVAL exactly for undecodable and UV_E2BIG exactly for overflowing labels |
| Idna.LabelAgrees | Sources/Clibuv/src/idna.c:197-202 | decoding inside a label agrees with decoding the name, so the later assertions never fail |
| Idna.NameLabels | Sources/Clibuv/src/idna.c:318-367 | the pieces between the full stops of the ASCII form are the encoded labels between the four separators of the name, one for one; there is none exactly if a label overflows |
| Idna.ToAscii | Sources/Clibuv/src/idna.c:318-367 | a non-negative result is the untruncated length with its NUL, and the buffer holds the converted name |
| Wtf8.Decodes | Sources/Clibuv/src/idna.c:28-68 | every code point but 0, surrogates included, is decoded from its bytes |
| Wtf8.RejectsIff | Sources/Clibuv/src/idna.c:28-68 | bytes are accepted if and only if a lead byte is followed by the continuation bytes it announces, within U+10FFFF, and their low bits are the code point |
| Wtf8.EncodedIff | Sources/Clibuv/src/idna.c:28-68 | what is accepted is the encoding of its code point if and only if it is not an overlong form of three or four bytes |
| Wtf8.AcceptsOverlong | Sources/Clibuv/src/idna.c:50-65 | E0 80 80 is accepted as U+0000 |
| Wtf8.RoundTrip | Sources/Clibuv/src/idna.c:28-68 | UTF-16 to WTF-8 to UTF-16 is the identity on units without NUL; the two exceptions of the writer are two surrogate pairs |
| Wtf8.LengthAsUtf16 | Sources/Clibuv/src/idna.c:370-384 | exactly the units the writer emits and the NUL, or -1 exactly for bytes that are not WTF-8 |
| Wtf8.ToUtf16 | Sources/Clibuv/src/idna.c:387-409 | writes the units of the code points exactly if U+10000 and U+10FFFF are not among them, and else fails an assertion |
| Wtf8.SurrogateValue | Sources/Clibuv/src/idna.c:412-424 | the next code point of units with a length or a NUL |
| Wtf8.LengthAsWtf8 | Sources/Clibuv/src/idna.c:427-457 | exactly the bytes the writer emits |
| Wtf8.FillBuffer | Sources/Clibuv/src/idna.c:460-560 | the text or its longest prefix that fits, a NUL, and the reported size in every case |
| Wtf8.Allocate | Sources/Clibuv/src/idna.c:472-490 | without a buffer the whole text is always written |
| Wtf8.SizeIsWrong | Sources/Clibuv/src/idna.c:552-557 | an input for which the reported size is 4 and the text has 3 bytes |
| Wtf8.SizeIsRightIff | Sources/Clibuv/src/idna.c:506-557 | the reported size is that of the text exactly if the text or its first code point fits, or the buffer is empty |
| ThreadPool.InExactlyOnePlace | Sources/Clibuv/src/threadpool.c:57-160 | in every interleaving a submitted item that is not completed is in exactly one place, once |
| ThreadPool.DoneOnce | Sources/Clibuv/src/threadpool.c:281-345 | done runs at most once, with UV_ECANCELED exactly when a cancel returned 0 and exactly when the work function did not run |
| ThreadPool.CancelledNeverRuns | Sources/Clibuv/src/threadpool.c:281-305 | after a successful cancel no continuation runs the work function |
| ThreadPool.SlowWorkCapped | Sources/Clibuv/src/threadpool.c:45-160 | the counters count what they should, slow work never exceeds (nthreads + 1) / 2, and pending slow work is announced |
| ThreadPool.NoMissedWakeup | Sources/Clibuv/src/threadpool.c:69-80 | while a worker is blocked, as many workers come to the queue as there are runnable entries |
| ThreadPool.SomeWorkerMoves | Sources/Clibuv/src/threadpool.c:57-140 | while there is runnable work some worker has a step other than waiting |
| ThreadPoolOrder.TakenInOrder | Sources/Clibuv/src/threadpool.c:86-116 | in every run a worker takes, of the fast or of the slow work that waits, what was submitted first |
| ThreadPoolOrder.DoneInOrder | Sources/Clibuv/src/threadpool.c:312-333 | in every run a loop calls back, of the items it has, the one that was handed to it first |
| Heap.MinHeap.Swap | Sources/Clibuv/src/heap-inl.h:72-104 | parent and child change places in the tree and all links agree again |
| Heap.PathTo | Sources/Clibuv/src/heap-inl.h:119-124 | the bits collected are the path to the position, and fit the word |
| Heap.MinHeap.Descend | Sources/Clibuv/src/heap-inl.h:126-136 | the walk along the bits ends at the slot of the position and remembers the one before |
| Heap.MinHeap.Append | Sources/Clibuv/src/heap-inl.h:109-141 | the tree stays complete, with the new node in its last position |
| Heap.MinHeap.Detach | Sources/Clibuv/src/heap-inl.h:160-186 | the last node is cut off and the tree stays complete |
| Heap.MinHeap.Replace | Sources/Clibuv/src/heap-inl.h:195-214 | a node takes the position of another with all links |
| Heap.MinHeap.Insert | Sources/Clibuv/src/heap-inl.h:106-148 | for every strict weak order the tree stays a complete ordered heap and gains exactly the new node |
| Heap.MinHeap.Remove | Sources/Clibuv/src/heap-inl.h:150-237 | the tree stays a complete ordered heap and loses exactly the given node |
| Heap.MinHeap.Dequeue | Sources/Clibuv/src/heap-inl.h:239-241 | takes out a node that no other is less than |
| Heap.MinHeap.MinIsLeast | Sources/Clibuv/src/heap-inl.h:67-69 | min is null exactly for the empty heap, and else a least element |
| Heap.RootIsLeast | Sources/Clibuv/src/heap-inl.h:67-69 | in an ordered tree nothing is less than the root |
| Heap.SiftUp | Sources/Clibuv/src/heap-inl.h:143-147 | a swap with the parent moves the one wrong edge up |
| Heap.SiftDown | Sources/Clibuv/src/heap-inl.h:216-229 | a swap with the smaller child moves the wrong edges down |
| Queue.InsertHead | Sources/Clibuv/src/queue.h:69-75 | puts an element in front |
| Queue.InsertTail | Sources/Clibuv/src/queue.h:77-83 | puts an element behind |
| Queue.Remove | Sources/Clibuv/src/queue.h:85-88 | takes one element out and keeps the order of the others |
| Queue.Split | Sources/Clibuv/src/queue.h:51-60 | the elements from one on become a list of their own |
| Queue.Move | Sources/Clibuv/src/queue.h:62-67 | all elements go to another head, the list is empty |
| Queue.Add | Sources/Clibuv/src/queue.h:44-49 | one list is appended to another |
| Queue.Empty | Sources/Clibuv/src/queue.h:32-34 | true exactly for a list without elements |
| Rings.Pair.InsertHead | Sources/Clibuv/src/queue.h:69-75 | a handle goes to the front of the linked list, and the other list of links is untouched |
| Rings.Pair.Remove | Sources/Clibuv/src/queue.h:85-88 | the link is cut out of whichever ring it is in, without looking which |
| Rings.Pair.Rotate | Sources/Clibuv/src/unix/loop-watcher.c:53-57 | one turn of the walk on the links: the first handle of the local ring is now the last of the other |
| Watchers.LoopHandles.StartHandle | Sources/Clibuv/src/unix/loop-watcher.c:32-39 | starts a handle at the head of the ring once, and rejects a null callback |
| Watchers.LoopHandles.StopHandle | Sources/Clibuv/src/unix/loop-watcher.c:41-46 | takes a handle out of whichever list it is in |
| Watchers.LoopHandles.Run | Sources/Clibuv/src/unix/loop-watcher.c:48-60 | for all callbacks, on the linked rings: the handles of the start are called back in order and once, but for those stopped before their turn; none started meanwhile is |
| Watchers.KeepOrder | Sources/Clibuv/src/unix/loop-watcher.c:48-60 | the handles that are called back keep their order |
| Inotify.Lists.StartHandle | Sources/Clibuv/src/unix/linux.c:2612-2668 | a handle joins the list of its descriptor, which exists from then on |
| Inotify.Lists.StopHandle | Sources/Clibuv/src/unix/linux.c:2671-2688 | a handle leaves its list, which is freed with its last handle unless it is walked |
| Inotify.Lists.MaybeFree | Sources/Clibuv/src/unix/linux.c:2519-2527 | afterwards the list is in the tree exactly if it is walked or a handle is active for it, and the lists are consistent again |
| Inotify.Lists.Dispatch | Sources/Clibuv/src/unix/linux.c:2557-2600 | the walk visits as above, its list is in the tree until it ends, and stays exactly if it has a handle |
| Timers.Deadline | Sources/Clibuv/src/timer.c:79-81 | the end of the wait, clamped exactly where 64 bits wrap |
| TimerHeap.TimerOrder | Sources/Clibuv/src/timer.c:38-55 | the order of timers is a strict weak order |
| TimerHeap.Tree.Insert | Sources/Clibuv/src/timer.c:89-91 | the linked heap gains exactly the timer |
| TimerHeap.Tree.Remove | Sources/Clibuv/src/timer.c:99-102 | the linked heap loses exactly the timer |
| Timers.TimerLoop.HeapMin | Sources/Clibuv/src/timer.c:149-154 | the root of the linked heap is the one least timer, if there is any |
| Timers.TimerLoop.Start | Sources/Clibuv/src/timer.c:68-95 | restarts a timer in the heap and nowhere else, or fails for a closing handle or null callback and changes nothing |
| Timers.TimerLoop.Stop | Sources/Clibuv/src/timer.c:98-110 | takes a timer out of the heap or the ready queue |
| Timers.TimerLoop.Again | Sources/Clibuv/src/timer.c:113-123 | reschedules a repeating timer one period from now and leaves the others alone |
| Timers.TimerLoop.NextTimeout | Sources/Clibuv/src/timer.c:144-162 | the sleep ends at the earliest deadline, is 0 exactly if one is due, and -1 exactly without timers |
| Timers.TimerLoop.Collect | Sources/Clibuv/src/timer.c:173-184 | exactly the due timers leave the heap, in (timeout, start id) order |
| Timers.TimerLoop.RunTimers | Sources/Clibuv/src/timer.c:165-195 | for all callbacks, on the linked heap: the timers due at entry fire, in order and once, but for exactly those that the callbacks before their turn withdraw: by a stop, a close, a start with a callback, or `uv_timer_again` with a repeat that is not 0 by then; a repeating timer is rescheduled before its callback |
| Timers.FiresIff | Sources/Clibuv/src/timer.c:186-194 | a due timer fires if and only if the callbacks of those that fire before it do not withdraw it |
| Async.NothingLost | Sources/Clibuv/src/unix/async.c:93-117 | commands run in order; one that has not run has the flag set or about to be set or the callback at work; a set flag has a wakeup coming |
| Async.SleepOnlyWhenDone | Sources/Clibuv/src/unix/async.c:160-213 | the loop blocks, with every sender gone, only when all commands have run |
| Async.EverythingAddedRuns | Sources/Clibuv/src/unix/async.c:160-213 | from every reachable state with the senders gone the loop alone runs every command |
| Async.NoWriteAfterClose | Sources/Clibuv/src/unix/async.c:120-157 | after uv__async_spin no sender is, or ever again becomes, inside the wakeup write |
| Async.SpinWaitsForASender | Sources/Clibuv/src/unix/async.c:132-149 | while the spin waits some sender is inside the region it waits for |
| Async.OneCallbackPerSend | Sources/Clibuv/src/unix/async.c:93-213 | in every run a callback is entered at most as often as a send has found its flag clear, and for an open handle exactly as often but for a flag still set |
| Async.SendBetweenEntries | Sources/Clibuv/src/unix/async.c:201-212 | between two entries of a callback a send has found the flag clear |
| Async.WalksKeepOrder | Sources/Clibuv/src/unix/async.c:191-201 | in every run without a new or a closed handle the walks keep the order of the handles |
| Jobs.FifoQueue.Enqueue | Sources/UVCore/Utilities/UVFIFOQueue.swift:8-13 | what was ever put in is what was taken out and what is left, in order, and now ends with the element |
| Jobs.FifoQueue.Dequeue | Sources/UVCore/Utilities/UVFIFOQueue.swift:15-23 | the k-th element taken out is the k-th put in; nothing exactly when all have been taken out |
| Jobs.UVJobs.HandleJobs | Sources/UVCore/Jobs/UVJobs.swift:74-118 | for everything the commands do: if at most one stop closes the handle the queue is drained, those added meanwhile included, in order, and a command is performed exactly if its delegate is set by then; else those up to the failing command have been taken out and the others are left |
| Jobs.DrainTakesAll | Sources/UVCore/Jobs/UVJobs.swift:74-118 | the commands of the queue are handled first and in order, added ones behind them; what is not handled is left in order |
| Jobs.SecondStopFails | Sources/UVCore/Jobs/UVJobs.swift:48-83 | the drain ends at the second stop, and there only, unless the work of another command fails an assertion |
| Jobs.TwoStops | Sources/UVCore/UVExecutionThread.swift:68-71 | two stops in the queue: the command behind them is not taken out |
| Jobs.DelegatesStay | Sources/UVCore/Jobs/UVJobs.swift:60-72 | exactly the scheduling commands without the timers and the TCP commands without the TCP manager are dropped; a delegate that is set stays set, so nothing behind it is dropped for lack of it |
| NextPower.LeastPower | Sources/Clibuv/src/unix/core.c:857-866 | the bit smearing gives the least power of two that is at least the argument, or 0 where that does not fit |
| NextPower.ZeroWraps | Sources/Clibuv/src/unix/core.c:857-866 | of 0 the result is 0 |
| NextPower.CoversIff | Sources/Clibuv/src/unix/core.c:857-866 | the result covers the argument exactly up to the highest power of two of the word |
| NextPower.GrowsIff | Sources/Clibuv/src/unix/core.c:868-890 | maybe_resize allocates exactly if the length and two more slots fit 2 to the 31, and then the slots suffice |
| NextPower.LargestDescriptor | Sources/Clibuv/src/unix/core.c:868-893 | for the length INT_MAX it asks for 2 to the 32 minus 2 slots and allocates nothing |
| IoWatchers.IoLoop.Resize | Sources/Clibuv/src/unix/core.c:868-900 | aborts exactly for the length INT_MAX; else the slots grow to the length asked for, keep their watchers and are empty behind them |
| IoWatchers.IoLoop.Start | Sources/Clibuv/src/unix/core.c:915-940 | a watcher whose wanted mask is not the kernel's is queued, nfds stays the number of taken slots, and slots stay exclusive unless the descriptor has another watcher; aborts exactly for INT_MAX - 1 |
| IoWatchers.IoLoop.Stop | Sources/Clibuv/src/unix/core.c:943-971 | the same invariant; a watcher that wants nothing leaves the queue and its slot |
| IoWatchers.IoLoop.IdleMeansNothingQueued | Sources/Clibuv/src/unix/linux.c:1425-1428 | the early end of the poll with nfds of 0 leaves no change behind |
| EpollCtl.UserDataRoundTrip | Sources/Clibuv/src/unix/linux.c:1253-1307 | operation, slot and descriptor can be taken out of the user data again |
| EpollCtl.RetryCompletes | Sources/Clibuv/src/unix/linux.c:1291-1324 | retrying failed additions as modifications has the effect of all entries succeeding |
| EpollCtl.RetryCompletesIff | Sources/Clibuv/src/unix/linux.c:1291-1324 | for any batch the retry has the effect of all entries succeeding exactly if each descriptor's last failed entry asks for the same as its last entry |
| EpollCtl.TwoEntriesForOneDescriptor | Sources/Clibuv/src/unix/linux.c:1291-1324 | a batch for which it has not |
| EpollCtl.Ctl.Prep | Sources/Clibuv/src/unix/linux.c:1224-1257 | one more entry will take effect, although slots are reused and indices wrap |
| EpollCtl.Ctl.Flush | Sources/Clibuv/src/unix/linux.c:1260-1325 | nothing intended is lost, what is left are modifications, and the flush that re-enters itself terminates |
| EpollCtl.Settle | Sources/Clibuv/src/unix/linux.c:1430-1435 | the loop before the poll terminates with everything in effect |
| EpollCtl.Register | Sources/Clibuv/src/unix/linux.c:1384-1435 | before the poll the kernel's interest is exactly what every watcher wants, with and without the ring |
| EpollCtl.Close | Sources/Clibuv/src/unix/core.c:974-981 | a closed watcher leaves the kernel, and the others stay registered |
| EpollWait.Invalidate | Sources/Clibuv/src/unix/linux.c:696-708 | exactly the events of the closed descriptor are marked, the others stay as reported |
| EpollWait.Disarm | Sources/Clibuv/src/unix/linux.c:1501-1513 | a reported descriptor that nobody watches leaves the kernel, and every watcher stays registered |
| EpollWait.Dispatch | Sources/Clibuv/src/unix/linux.c:1479-1554 | for all callbacks that start, stop and close watchers: each event has the outcome its turn gives it, every descriptor has a slot, and the loop and the kernel agree afterwards |
| EpollWait.ReachesIff | Sources/Clibuv/src/unix/linux.c:1486-1552 | an event reaches a watcher if and only if its descriptor was not closed in this pass and the watcher wants, at its turn, something of what is reported |
| EpollWait.ToldIff | Sources/Clibuv/src/unix/linux.c:1515-1539 | a callback is told a flag if and only if its watcher wants it and it was reported, or nothing wanted was and exactly one of error and hangup; descriptor, error and hangup are as reported |
| EpollWait.NoStaleEvent | Sources/Clibuv/src/unix/linux.c:696-708 | after a callback has closed a watcher, no event of the pass for its descriptor reaches anybody, not even a new watcher of the descriptor |
| Signals.Conservation | Sources/Clibuv/src/unix/signal.c:183-221 | caught minus dispatched signals are the messages of the watcher on their way |
| Signals.HandlerNotifies | Sources/Clibuv/src/unix/signal.c:183-221 | each run of the handler sends one message to every watcher of the signum, but for full pipes, and none to others |
| Signals.NoMessageAfterClose | Sources/Clibuv/src/unix/core.c:328-340 | after the close callback no message names the watcher, ever |
| Signals.CloseFinishes | Sources/Clibuv/src/unix/core.c:328-340 | a close stops the watcher, and its callback comes exactly when no caught signal is left undispatched |
| Signals.NoCallbackWhileClosing | Sources/Clibuv/src/unix/signal.c:472-485 | the assertion of the dispatch loop holds |
| Signals.CalledIff | Sources/Clibuv/src/unix/signal.c:476-479 | a message calls back exactly if its watcher watches its signum then |
| Signals.CaughtAreCalled | Sources/Clibuv/src/unix/signal.c:449-487 | while a watcher keeps watching a signum, the signals caught for it are those called back and those still waiting |
| Signals.Dispositions | Sources/Clibuv/src/unix/signal.c:369-430 | default disposition without a watcher, the persistent handler with one not flagged one-shot |
| Signals.LeftToOneShot | Sources/Clibuv/src/unix/signal.c:536-574 | when the last unflagged watcher of a signum leaves it to flagged ones the one-shot handler is installed |
| Signals.WatchedPersistently | Sources/Clibuv/src/unix/signal.c:369-574 | in every run a watched signum has the persistent handler exactly if the last start that installed one was regular and it has not been left to one-shot watchers since |
| Signals.OneShotForever | Sources/Clibuv/src/unix/signal.c:419-484 | in every run a dispatched message stops its watcher exactly if some effective start of it was one-shot |
| Signals.RegularStartStopped | Sources/Clibuv/src/unix/signal.c:355-484 | a run in which a watcher started with uv_signal_start, under the persistent disposition, is stopped by its first message |
| Signals.WatchedAtDefault | Sources/Clibuv/src/unix/signal.c:369-430 | in every run a watched signal is at its default exactly if a one-shot handler was used up and no start installed one since |
| Signals.Stranded | Sources/Clibuv/src/unix/signal.c:369-484 | a run that leaves a watcher active with the default disposition and nothing on its way to it |
| Handles.Loop.Start | Sources/Clibuv/src/uv-common.h:278-284 | the handle is active, closing or not, and the count keeps its distance to the number of active referenced handles |
| Handles.Loop.Stop | Sources/Clibuv/src/uv-common.h:286-292 | the same for a stop |
| Handles.Loop.Ref | Sources/Clibuv/src/uv-common.h:294-301 | the distance is kept, but falls by one exactly for a closing active handle without reference |
| Handles.Loop.Unref | Sources/Clibuv/src/uv-common.h:303-310 | the distance is kept, but grows by one exactly for a closing active handle with reference |
| Handles.Loop.Close | Sources/Clibuv/src/unix/core.c:157-236 | a closing handle is not active and waits on the closing list once |
| Handles.Loop.MarkClosed | Sources/Clibuv/src/unix/core.c:301-357 | the end of a close leaves the count right if and only if the handle is not both active and referenced, or goes back to the list |
| Handles.Loop.FinishClose | Sources/Clibuv/src/unix/core.c:301-361 | the handle is closed, or waits again with signals trapped, and then its callback has been called |
| Handles.Loop.RunClosingHandles | Sources/Clibuv/src/unix/core.c:301-378 | for all callbacks, late starts included: the handles of the list are closed, each callback called once; trapped signals and handles closed meanwhile wait for the next pass; the count moves by exactly the slips of the run |
| Handles.Loop.Alive | Sources/Clibuv/src/unix/core.c:391-396 | with the count right, alive exactly while a handle is active and referenced or something is pending; a loop that is not alive has no handle waiting to be closed |
| Handles.QuietUntilLateStart | Sources/Clibuv/src/unix/loop-watcher.c:32-39 | with no closing handle active, a step makes one active exactly if it starts a closing handle, and leaves the count right |
| Handles.CountStaysRight | Sources/Clibuv/src/uv-common.h:278-310 | in every run without a start of a closing handle the count is the number of active referenced handles |
| Handles.OnlyRefLowers | Sources/Clibuv/src/uv-common.h:294-310 | a count that is too high stays so in every run without uv_ref |
| Handles.CountIsOffByAny | Sources/Clibuv/src/uv-common.h:278-310 | one closing handle can move the count by any amount up or down |
| Handles.StartWhileClosing | Sources/Clibuv/src/unix/loop-watcher.c:32-39 | a run that ends with every handle closed and the loop alive |
| Handles.RefWhileClosing | Sources/Clibuv/src/uv-common.h:294-301 | a run that ends with a timer active and the loop not alive |
| InetText.Parse4Iff | Sources/Clibuv/src/inet.c:175-211 | inet_pton4 accepts exactly the texts that inet_ntop4 prints |
| Inet6Text.RoundTrip6 | Sources/Clibuv/src/inet.c:214-298 | whatever run of zero words is printed as "::", parsing the text gives the bytes back, embedded IPv4 forms included |
| Inet6Text.EmbeddedIff | Sources/Clibuv/src/inet.c:121-132 | the text has dots exactly for IPv4-mapped addresses and for compatible ones whose seventh word is not 0, and is then the prefix and the dotted address |
| Inet6Grammar.Parse6Iff | Sources/Clibuv/src/inet.c:214-298 | inet_pton6 accepts exactly groups of one to four digits of either case with at most one gap and perhaps an IPv4 address at the end, and returns the bytes they stand for |
| Inet6Grammar.CaseAlike | Sources/Clibuv/src/inet.c:215-241 | upper and lower case digits parse alike |
| Inet6Text.BestIsUnique | Sources/Clibuv/src/inet.c:83-107 | the run to be compressed is unique |
| Inet.FindRun | Sources/Clibuv/src/inet.c:83-107 | the run is the leftmost longest of at least two zero words, as in section 4.2 of RFC 5952 |
| Inet.Ntop4 | Sources/Clibuv/src/inet.c:48-59 | the dotted text, or UV_ENOSPC exactly if it does not fit |
| Inet.Ntop6 | Sources/Clibuv/src/inet.c:62-143 | the text of the address with its best run, within 46 bytes, or UV_ENOSPC exactly if it does not fit |
| Inet.Pton4 | Sources/Clibuv/src/inet.c:175-211 | the loop computes the parse, UV_EINVAL exactly where there is none |
| Inet.Pton6 | Sources/Clibuv/src/inet.c:214-298 | the same for IPv6 |
| Inet.Shift | Sources/Clibuv/src/inet.c:278-293 | the overlapping shift in place moves the bytes behind "::" to the end and leaves zeros |
| Inet.Pton | Sources/Clibuv/src/inet.c:146-172 | a zone behind a percent sign is cut off first |
| Inet.PrintedParses | Sources/Clibuv/src/inet.c:62-298 | every printed address, with or without a zone, parses to itself and fits 46 bytes |
| ChildStdio.Process.Duplicate | Sources/Clibuv/src/unix/process.c:307-327 | afterwards every source can be read until its slot's turn |
| ChildStdio.Process.Place | Sources/Clibuv/src/unix/process.c:329-367 | one slot gets its file and every other descriptor stays |
| ChildStdio.Process.Arrange | Sources/Clibuv/src/unix/process.c:307-367 | the setup is a parallel move for all permutations, cycles and shared sources |
| Barrier.OutExcludesIn | Sources/Clibuv/src/thread-common.c:85-120 | while threads leave, none is counted for the next round |
| Barrier.RoundsAreExact | Sources/Clibuv/src/thread-common.c:85-120 | no early return, exactly the threshold of returns a round with exactly one 1, and no arrival before the round before is drained |
| Barrier.NoMissedBroadcast | Sources/Clibuv/src/thread-common.c:102-117 | a thread that is not woken has a reason to wait, and a draining round has a woken thread |
| Barrier.RunsGoOn | Sources/Clibuv/src/thread-common.c:85-120 | every step a thread can take in a reachable state is defined, and leads to a reachable one |
| Barrier.OneThread | Sources/Clibuv/src/thread-common.c:85-120 | a barrier for one thread lets it pass at once with a 1 |
| FsWrite.BufOffset | Sources/Clibuv/src/unix/fs.c:1630-1642 | exactly the given number of bytes is dropped from the buffers |
| FsWrite.WriteAll | Sources/Clibuv/src/unix/fs.c:1644-1687 | for all sequences of short, empty, interrupted and failed writes the file gets exactly the prefix that is reported, at consecutive offsets; the code of the first write is returned if it fails, and a later failure leaves the number of bytes |

## Left out

- Real system calls, sockets, event delivery and the other platforms: each module has the small part of the
  kernel it needs, with its failures as parameters.
- Weak memory: atomics are sequentially consistent, so the relaxed load in `uv_async_send` is read as an
  ordinary one.
- Thread pool start, teardown and fork: runs end before `exit_message` is posted. `uv_cancel` is called by the
  thread of the item's loop.
- Idna.ToAsciiLabel: labels of 2 GiB and more are not covered, because the source's counters would wrap there.
- Idna.ToAscii: names of 2 GiB and more are not covered, for the same reason; neither is the order of errors in
  a name that has several.
- Heap.MinHeap.Insert: the key of a node does not change while it is in the heap and the comparison depends on
  the keys alone, as for timers.
- Timers.TimerLoop.RunTimers: the counter of start ids is unbounded, so its wrap after 2 to the 64 starts is
  not modelled.
- Inotify.Lists.Dispatch and the ready queue of Timers: their lists are sequences; only those of Watchers run on
  links.
- EpollCtl.Register: one watcher a descriptor (`IoWatchers.IoLoop.Exclusive`); the kernel runs the submissions of
  one entry in order, additions fail only with EEXIST, and the completion ring is a queue without its indices.
- EpollWait.Dispatch: one watcher a descriptor here too, so a start or a close of another one has no effect; events
  of the `io_uring` ring, the callback of the signal watcher behind the others (Signals), further polls of the
  same call, and time.
- IoWatchers.IoLoop.Resize: an allocation that fails for lack of memory, which aborts as well; the two pointers
  for event invalidation behind the slots.
- Signals: fork handling and the partial reads that the source says do not happen.
- Handles.Loop.RunClosingHandles: streams, pipes, terminals, UDP and file system poll handles.
- ChildStdio.Process.Arrange: setting slots 0 to 2 to blocking mode, and failing system calls, which end the
  child.
- FsWrite.WriteAll: the batch limit is a parameter; offsets do not overflow.
- Jobs.UVJobs.HandleJobs: what a command does beyond the queue, the delegates and the handle of the loop; whether
  such work fails an assertion (a TCP command behind a stop may) is a parameter.
- `fs-poll.c`, process titles, random sources, and the Swift TCP, timer and executor classes.
