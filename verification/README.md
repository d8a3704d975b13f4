# Nios II runtime and sprite compiler: verified model

The repository is an FPGA game whose soft processor runs a small C runtime, with helper tools that compile images to
hardware tables. This project models the parts of the two in which the state is hard to keep right, and proves what
they promise. Each Dafny file is one component.

- `Ring.dfy`, `JtagUart.dfy`: the interrupt-driven JTAG UART driver. The object holds both rings as arrays and the two
  index pairs; the foreground calls let any number of interrupts and alarm callbacks happen before every shared access
  and every copied byte. The invariant says that nothing is lost, duplicated or reordered, and that an interrupt enable
  bit is clear only while there is nothing to do or a running call will set it. The ring length is a parameter of at
  least 2.
- `AlarmTimer.dfy`, `RingList.dfy`, `AlarmQueue.dfy`: the tick counter, the 32-bit deadlines with their rollover flag
  against an unbounded clock, and the circular doubly linked list of alarms that a tick walks while callbacks start and
  stop other alarms.
- `WallClock.dfy`: settimeofday and gettimeofday on the tick counter.
- `FdPool.dfy`, `FdTable.dfy`: the file descriptor pool as a state machine over whole calls, with runs and exclusive
  locks; and the array with its scanning loops, proved to be that machine.
- `ColourMerge.dfy`, `SpriteTiles.dfy`: the sprite compiler's colour grouping, in-place palette indexing, tiling, and
  the chain of range tests that reads the image back.
- `NumberFormat.dfy`, `Printf.dfy`: the integer conversions of the two printf functions, and their format strings.
- `HeapBreak.dfy`: sbrk and the profiler's slab allocator on top of it.
- `IrqNesting.dfy`: the interrupt masks, the dispatch loop and nested interrupts as a state machine, and the same as
  code with recursive handlers.
- `Words.dfy`, `Division.dfy`: 32-bit words, and facts about division by an unknown number.

Assumptions about the hardware and the callers are preconditions or the ways the environment can act: the UART core
raises a write interrupt only with space and reports no available bytes once its FIFO is empty; the host acts finitely
often within one interrupt; an alarm is not started while it is registered, and a callback does not stop the alarm
saved as next (`InsertTwice`, `CircleWalk` and `StrandedWalk` say what happens otherwise); a descriptor passed to a call is negative, or one of the pool, and open where its device
is used; a service routine passes its own number to the bracket and the saved mask back.

Where the code and its comments differ, the code is modelled. Closing a standard descriptor does not release its lock
(`ClosingStandardKeepsLock`; alt_fd_lock.c says that closing does). The lock scan stops before the high-water mark, so
"no other open file descriptors" is not always checked (`GrantIsExclusiveIff`). A time set late after reset is not
returned by an immediate read (`LinearIff`, `ClockSetTooLate`; alt_settod.c says that it is). An alarm with
nticks = 2^32-1 is called at the next tick (`CalledAtNextTick`, `OnTimeIff`). A zero-length blocking read or write of the UART returns the
I/O error. The palette's indices are written over the list they index, which fails for an image with a
colour below its place among the colours in order of first occurrence (`ReadBackIff`, `TwoPixelsFail`). An interrupt
enabled inside a bracket lets a handler interrupt itself (`SelfInterruptedRun`).

To check everything: `dafny verify dfyconfig.toml`.

## Model

| member | source | states |
|---|---|---|
| `Ring.HoldsContents` | software/usb_kb_bsp/drivers/src/altera_avalon_jtag_uart_write.c:105-114 | The stored queue is exactly what the two indices delimit in the array: one slice, or two when the ring wraps |
| `Ring.RunBounds` | software/usb_kb_bsp/drivers/src/altera_avalon_jtag_uart_write.c:109-117 | The run lengths both loops compute stay inside the array, fit the free or stored items, and vanish exactly on a full, respectively empty, ring |
| `Ring.WriteToFreePlace` | software/usb_kb_bsp/drivers/src/altera_avalon_jtag_uart_write.c:122 | Copying into the free run overwrites no stored item |
| `Ring.Publish` | software/usb_kb_bsp/drivers/src/altera_avalon_jtag_uart_write.c:126 | Publishing the producer's index last appends exactly the run just copied, in order |
| `Ring.Consume` | software/usb_kb_bsp/drivers/src/altera_avalon_jtag_uart_read.c:136-140 | Publishing the consumer's index removes exactly the oldest items, and those are the run that was copied out |
| `Ring.IndexTellsMovement` | software/usb_kb_bsp/drivers/src/altera_avalon_jtag_uart_write.c:183-184 | An index shows its snapshot value again only if no item moved: at most N-1 items can, one too few to come round |
| `JtagUart.Uart.constructor` | software/usb_kb_bsp/drivers/src/altera_avalon_jtag_uart_init.c:66-100 | Both rings start empty with RE set and WE clear; the timeout is INT_MAX when no alarm could be started |
| `JtagUart.Uart.StoreRx` | software/usb_kb_bsp/drivers/src/altera_avalon_jtag_uart_init.c:149-150 | A received byte is appended to the receive ring, for a ring with room |
| `JtagUart.Uart.FetchRx` | software/usb_kb_bsp/drivers/src/altera_avalon_jtag_uart_init.c:130-154 | Bytes popped from the device are exactly appended to the ring, none is popped without room, and a remaining count means that the ring is full |
| `JtagUart.Uart.ServiceRx` | software/usb_kb_bsp/drivers/src/altera_avalon_jtag_uart_init.c:125-167 | Fetches until the ring is full or the device has no byte left, and keeps the invariant: RE is cleared only with a full ring |
| `JtagUart.Uart.DrainTx` | software/usb_kb_bsp/drivers/src/altera_avalon_jtag_uart_init.c:174-184 | Bytes move from the ring to the device in order, within the space read; space is left over only if the ring is empty |
| `JtagUart.Uart.ServiceTx` | software/usb_kb_bsp/drivers/src/altera_avalon_jtag_uart_init.c:169-195 | Sends as many bytes as the space read allows, and clears WE exactly if that empties the ring with space left over |
| `JtagUart.Uart.Irq` | software/usb_kb_bsp/drivers/src/altera_avalon_jtag_uart_init.c:117-197 | Returns once the host pauses, and only when the control register last read showed neither interrupt pending; the whole routine keeps the invariant |
| `JtagUart.Uart.TimeoutTick` | software/usb_kb_bsp/drivers/src/altera_avalon_jtag_uart_init.c:204-225 | With AC set in the register it read it clears AC and resets host_inactive; otherwise it counts it up by one, not beyond INT_MAX-2 |
| `JtagUart.Uart.CopyToTx` | software/usb_kb_bsp/drivers/src/altera_avalon_jtag_uart_write.c:122 | A block copy with interrupts between any two bytes leaves the bytes in the free run and the queue intact |
| `JtagUart.Uart.TxRoom` | software/usb_kb_bsp/drivers/src/altera_avalon_jtag_uart_write.c:106-114 | The room computed from two reads with interrupts in between is the free run; none means the ring was full at the snapshot |
| `JtagUart.Uart.Fill` | software/usb_kb_bsp/drivers/src/altera_avalon_jtag_uart_write.c:103-127 | The inner loop appends a prefix of the bytes; it stops short only at a full ring, and moves a byte if there was room |
| `JtagUart.Uart.TxMoved` | software/usb_kb_bsp/drivers/src/altera_avalon_jtag_uart_write.c:183 | Comparing tx_out with the snapshot tells exactly whether a byte has left the full ring |
| `JtagUart.Uart.WaitForRoom` | software/usb_kb_bsp/drivers/src/altera_avalon_jtag_uart_write.c:183-184 | Ends at once if there is room; leaving without a timeout means that there is room, so the next copy pass moves a byte; while it waits on a non-empty ring WE stays set; it goes on only with the host not timed out, and is given up only after all its turns |
| `JtagUart.Uart.RoomTest` | software/usb_kb_bsp/drivers/src/altera_avalon_jtag_uart_write.c:183-184 | The wait ends only with room or a host timed out; it goes on only without room at its start and with the host not timed out |
| `JtagUart.Uart.WriteTurn` | software/usb_kb_bsp/drivers/src/altera_avalon_jtag_uart_write.c:101-190 | One turn accepts a prefix, sets WE for it, and stops early only when told not to block or with the host inactive |
| `JtagUart.Uart.Write` | software/usb_kb_bsp/drivers/src/altera_avalon_jtag_uart_write.c:84-215 | A positive result r means that exactly the first r bytes were appended, in order, under every interleaving; an error means that none was; less than everything only after meeting a full ring, and for a blocking call only with host_inactive non-zero |
| `JtagUart.Uart.CopyFromRx` | software/usb_kb_bsp/drivers/src/altera_avalon_jtag_uart_read.c:136 | A block copy with interrupts between any two bytes yields the oldest stored bytes and leaves the rest of the buffer alone |
| `JtagUart.Uart.Take` | software/usb_kb_bsp/drivers/src/altera_avalon_jtag_uart_read.c:120-142 | The inner loop delivers the next bytes of the stream to the front of the buffer, and some if any were stored |
| `JtagUart.Uart.RxMoved` | software/usb_kb_bsp/drivers/src/altera_avalon_jtag_uart_read.c:173-177 | Comparing rx_in with the snapshot tells exactly whether a byte has arrived since the ring was empty |
| `JtagUart.Uart.WaitForData` | software/usb_kb_bsp/drivers/src/altera_avalon_jtag_uart_read.c:173-174 | Ends at once if a byte is stored; leaving means that there is data or that the host has been found gone; while it waits on an empty ring RE stays set; it goes on only with the host not timed out, and is given up only after all its turns |
| `JtagUart.Uart.Read` | software/usb_kb_bsp/drivers/src/altera_avalon_jtag_uart_read.c:101-203 | A positive result n says that the buffer holds the next n bytes of the stream, the rest of it is untouched, and RE is set again; stored bytes are always delivered; a blocking call for a positive count fails only with an empty ring after the host has been found gone |
| `JtagUart.Uart.Close` | software/usb_kb_bsp/drivers/src/altera_avalon_jtag_uart_init.c:241-254 | Returns success only with everything sent or the host timed out, and with an empty ring always; would-block only with bytes left |
| `JtagUart.Uart.BetweenCalls` | software/usb_kb_bsp/drivers/src/altera_avalon_jtag_uart_write.c:130-141 | Between calls the indices delimit what is not yet sent and not yet returned, bytes left to send leave the write interrupt enabled in the device, and a place left in the receive ring the read interrupt |
| `JtagUart.Session` | software/usb_kb_bsp/drivers/src/altera_avalon_jtag_uart_write.c:84-215 | Over any list of calls and any interrupts: the bytes reported as written are the bytes sent followed by the transmit ring's contents, the bytes popped are those returned followed by the receive ring's contents, every call has an outcome of its kind, and no wakeup is lost: WE is set in the device while bytes are left to send, and RE while the receive ring has a place |
| `AlarmTimer.StartTracks` | software/usb_kb_bsp/HAL/src/alt_alarm_start.c:80-96 | The time and rollover fields stand for the unbounded deadline, with rollover meaning the next epoch, exactly for nticks < 2^32-1 |
| `AlarmTimer.TickTracks` | software/usb_kb_bsp/HAL/src/alt_tick.c:109-115 | A tick expires the alarm exactly at its deadline and otherwise keeps the fields on it, over counter rollovers |
| `AlarmTimer.RearmTracks` | software/usb_kb_bsp/HAL/src/alt_tick.c:127-137 | The next deadline is the one just met plus the returned period: no drift |
| `AlarmTimer.SelfRestartTracks` | software/usb_kb_bsp/HAL/src/alt_tick.c:127-137 | A period returned by a callback that has restarted its own alarm moves the new deadline on, exactly while the sum stays within one turn of the counter |
| `AlarmTimer.TrackedRun` | software/usb_kb_bsp/HAL/src/alt_tick.c:96-141 | Any number of ticks calls back at exactly the ticks an unbounded clock would |
| `AlarmTimer.AlarmIsExact` | software/usb_kb_bsp/HAL/src/alt_alarm_start.c:80-96 | For nticks < 2^32-1 the first call comes nticks+1 ticks after the start, then one at each returned period |
| `AlarmTimer.CalledAtNextTick` | software/usb_kb_bsp/HAL/src/alt_alarm_start.c:82-96 | With nticks = 2^32-1 the callback runs at the very next tick, unless the alarm is started on the last tick of an epoch |
| `AlarmTimer.OnTimeIff` | software/usb_kb_bsp/HAL/src/alt_alarm_start.c:82-96 | An alarm is on time exactly if nticks < 2^32-1 or it starts on the last tick of an epoch |
| `RingList.DropKeepsRing` | software/usb_kb_bsp/HAL/inc/sys/alt_llist.h:105-117 | Deleting one node leaves a ring with all the others |
| `RingList.WalkedInsert` | software/usb_kb_bsp/HAL/src/alt_tick.c:100-141 | Starting an alarm during the walk adds nothing to the rest of the walk |
| `RingList.WalkedRemove` | software/usb_kb_bsp/HAL/src/alt_tick.c:100-141 | Stopping any alarm but the saved next one takes only that alarm out of the walk |
| `AlarmQueue.Clock.Insert` | software/usb_kb_bsp/HAL/inc/sys/alt_llist.h:90-98 | Keeps the list circular with mutually inverse pointers, and prepends |
| `AlarmQueue.Clock.Remove` | software/usb_kb_bsp/HAL/inc/sys/alt_llist.h:105-117 | Deletes exactly that node and leaves it pointing to itself; a second removal changes no pointer |
| `AlarmQueue.Clock.Start` | software/usb_kb_bsp/HAL/src/alt_alarm_start.c:64-112 | Registers the alarm for tick clock+nticks+1 at the front, or refuses with the right error and changes no alarm |
| `AlarmQueue.Clock.InsertTwice` | software/usb_kb_bsp/HAL/inc/sys/alt_llist.h:90-98 | Inserting a registered entry again links it and the entries before it to a circle without the list head |
| `AlarmQueue.Clock.CircleWalk` | software/usb_kb_bsp/HAL/src/alt_tick.c:90-141 | A tick that walks such a circle never gets back to the list head, however many turns it makes |
| `AlarmQueue.Clock.Stop` | software/usb_kb_bsp/HAL/src/alt_tick.c:66-73 | Unregisters the alarm; stopping it again changes nothing |
| `AlarmQueue.Clock.Expire` | software/usb_kb_bsp/HAL/src/alt_tick.c:109-115 | Clears the flag on a rollover and finds the alarm expired exactly if its planned tick is now |
| `AlarmQueue.Clock.Callback` | software/usb_kb_bsp/HAL/src/alt_tick.c:117 | Whatever a callback stops and starts, its own alarm included, the saved next alarm stays on the list and the walk can go on; no other alarm changes; what it returns, and nothing else, is added to the alarm's answers |
| `AlarmQueue.Clock.Rearm` | software/usb_kb_bsp/HAL/src/alt_tick.c:125-138 | A returned period is added to the deadline just met, or, if the callback has restarted the alarm, to its new deadline |
| `AlarmQueue.Clock.Settle` | software/usb_kb_bsp/HAL/src/alt_tick.c:121-138 | After the callback the alarm is rearmed, or, on zero, unregistered, also if the callback has restarted it |
| `AlarmQueue.Clock.Visit` | software/usb_kb_bsp/HAL/src/alt_tick.c:102-140 | One alarm is called exactly if its planned tick is now, once, then unregistered or planned anew by the very period its callback returned, from the new deadline if its callback restarted it; nothing else changes but what its callback touched |
| `AlarmQueue.Clock.SoFarStep` | software/usb_kb_bsp/HAL/src/alt_tick.c:100-141 | A visit takes exactly one alarm from those still to be visited to those visited |
| `AlarmQueue.Clock.Tick` | software/usb_kb_bsp/HAL/src/alt_tick.c:87-148 | Terminates and keeps every alarm on plan; every alarm registered at entry and not stopped or started by a callback of this tick is called, once, exactly if this is its planned tick, and is planned for as many ticks from now as its callback returned, or unregistered on zero, for any set of alarms that the callbacks may stop and start |
| `AlarmQueue.Clock.StrandedWalk` | software/usb_kb_bsp/HAL/src/alt_tick.c:100-141 | Left at an alarm off the list, because a callback stopped the one saved as next, the walk never ends as long as that alarm is not started again |
| `WallClock.Clock.SetTimeOfDay` | software/usb_kb_bsp/HAL/src/alt_settod.c:72-96 | Stores the reset time with its 32-bit product, or fails without a clock and changes nothing |
| `WallClock.Clock.GetTimeOfDay` | software/usb_kb_bsp/HAL/src/alt_gettod.c:89-121 | The normalising loops give the same number of microseconds in normal form, or zero when there are no seconds to borrow |
| `WallClock.SettledIs` | software/usb_kb_bsp/HAL/src/alt_gettod.c:95-112 | What the loops leave has a proper microsecond part and is the same number of microseconds, or zero exactly if a negative microsecond part makes the sum negative |
| `WallClock.TicksSplit` | software/usb_kb_bsp/HAL/src/alt_gettod.c:91-93 | Whole seconds and the rest add up to the ticks in microseconds, for a rate that divides a million |
| `WallClock.UptimeIsRead` | software/usb_kb_bsp/HAL/src/alt_gettod.c:89-112 | Before the first set the clock reads the time since reset, in normal form |
| `WallClock.RawReading` | software/usb_kb_bsp/HAL/src/alt_settod.c:82-84 | A reading is the set time plus the elapsed ticks, off by what the 32-bit product lost, less than a second |
| `WallClock.WallClockIsLinear` | software/usb_kb_bsp/HAL/src/alt_gettod.c:91-112 | Set at tick n1 and read at n2, the clock shows the set time plus (n2-n1)*(10^6/rate) microseconds, normalised, if the set side's product fits 32 bits |
| `WallClock.LostNothing` | software/usb_kb_bsp/HAL/src/alt_settod.c:83-84 | The 32-bit product loses nothing exactly if it wrapped a multiple of 15625 times |
| `WallClock.LinearIff` | software/usb_kb_bsp/HAL/src/alt_settod.c:82-84 | Without that bound the clock is right exactly when the product wrapped a multiple of 15625 times, or time zero is read on the tick it was set and the negative sum is clamped to zero |
| `WallClock.SetThenGetIff` | software/usb_kb_bsp/HAL/src/alt_settod.c:60-63 | An immediate read returns the time that was set exactly under the same condition |
| `WallClock.ClockSetTooLate` | software/usb_kb_bsp/HAL/src/alt_settod.c:83-84 | A concrete time set 4295 seconds after reset reads 32704 microseconds early |
| `FdPool.StepKeepsInv` | software/usb_kb_bsp/HAL/src/alt_dev.c:118-149 | Every call keeps the standard descriptors allocated and every other open one at or below the high-water mark |
| `FdPool.PoolIsBounded` | software/usb_kb_bsp/HAL/src/alt_dev.c:118-149 | So it is in every state reached from the initial pool |
| `FdPool.OpenTakesLowest` | software/usb_kb_bsp/HAL/src/alt_open.c:130-170 | A successful open takes the lowest free descriptor and touches no other; a failed one leaves the open set and every open descriptor unchanged |
| `FdPool.OpenRefusedIff` | software/usb_kb_bsp/HAL/src/alt_open.c:79-91 | With a slot left, opening a device is refused exactly if some open descriptor holds its lock |
| `FdPool.OpenAnswers` | software/usb_kb_bsp/HAL/src/alt_open.c:118-165 | The answer of open, in order: no such name, no free descriptor, a locked device, the driver's refusal, and success otherwise |
| `FdPool.OpenStores` | software/usb_kb_bsp/HAL/src/alt_open.c:139-170 | The new descriptor has the flags given, bit by bit, without the lock bit and with the device bit exactly for a device; the high-water mark rises to it if it was below |
| `FdPool.CloseFrees` | software/usb_kb_bsp/HAL/src/alt_close.c:84-94 | After closing f a descriptor is open exactly if it was and is not f, or f is a standard one; all others and the mark are as they were, and the driver's result decides the answer |
| `FdPool.CloseUndoesOpen` | software/usb_kb_bsp/HAL/src/alt_close.c:64-95 | Closing what was just opened gives back all open descriptors, and the next open takes the same descriptor |
| `FdPool.FlagsReadBack` | software/usb_kb_bsp/HAL/src/alt_fcntl.c:82-96 | F_GETFL after F_SETFL returns the masked bits as set and the others as they were without the reserved ones, which stay; nothing else changes; an unknown command is refused |
| `FdPool.IoctlAnswers` | software/usb_kb_bsp/HAL/src/alt_ioctl.c:119-168 | A device's lock is granted exactly if no other descriptor of it lies below the mark and released always; every other request gets the driver's result, or ENOTTY without one; at most the lock bit changes |
| `FdPool.UnlockUndoesLock` | software/usb_kb_bsp/HAL/src/alt_fd_unlock.c:52-56 | TIOCNXCL after TIOCEXCL gives the pool back |
| `FdPool.NegativeIsRefused` | software/usb_kb_bsp/HAL/src/alt_close.c:75-100 | close, ioctl and fcntl refuse a negative descriptor with EBADFD and change nothing |
| `FdPool.RedirectMoves` | software/usb_kb_bsp/HAL/src/alt_io_redirect.c:58-72 | The standard slot gets what a plain open would have made, the temporary descriptor is free again, all others stay; if the open fails all open descriptors stay |
| `FdPool.GrantIsExclusiveIff` | software/usb_kb_bsp/HAL/src/alt_fd_lock.c:61-69 | A granted TIOCEXCL is really exclusive exactly if the descriptor at the high-water mark, which the scan skips, is not another one of the device |
| `FdPool.GrantCanBeShared` | software/usb_kb_bsp/HAL/src/alt_fd_lock.c:61-69 | Three calls after which a lock is granted although a second descriptor of the device is open |
| `FdPool.StepKeepsLock` | software/usb_kb_bsp/HAL/src/alt_fd_lock.c:43-51 | A call keeps an exclusive lock exactly if it is not one that ends it: close of a descriptor above 2, TIOCNXCL, or a successful redirection onto it |
| `FdPool.LockedIsRefused` | software/usb_kb_bsp/HAL/src/alt_fd_lock.c:43-45 | While the lock is held every open of the device fails |
| `FdPool.LockStaysExclusive` | software/usb_kb_bsp/HAL/src/alt_fd_lock.c:43-51 | No run of open, close, ioctl, fcntl and redirection that does not end the lock leaves a second open descriptor on the device |
| `FdPool.ClosingStandardKeepsLock` | software/usb_kb_bsp/HAL/src/alt_release_fd.c:44-51 | Closing descriptor 0, 1 or 2 does not release its lock, so the device stays refused |
| `FdPool.LockOutlivesClose` | software/usb_kb_bsp/HAL/src/alt_fd_lock.c:47 | A run from the initial pool, redirect, lock and close, after which the lock of standard output is held and the device refused |
| `FdTable.Table.GetFd` | software/usb_kb_bsp/HAL/src/alt_get_fd.c:54-101 | Takes the lowest free slot and raises the high-water mark, or returns -1 and changes nothing |
| `FdTable.Table.ReleaseFd` | software/usb_kb_bsp/HAL/src/alt_release_fd.c:44-51 | Frees the slot, except for the standard descriptors |
| `FdTable.Table.FileLocked` | software/usb_kb_bsp/HAL/src/alt_open.c:64-92 | Marks the descriptor as a device's and finds a lock at or below the high-water mark exactly if there is one |
| `FdTable.Table.Open` | software/usb_kb_bsp/HAL/src/alt_open.c:105-171 | On the array, is the pool's open step, result included |
| `FdTable.Table.Close` | software/usb_kb_bsp/HAL/src/alt_close.c:64-101 | On the array, is the pool's close step, of which CloseFrees says what it frees and keeps |
| `FdTable.Table.Lock` | software/usb_kb_bsp/HAL/src/alt_fd_lock.c:54-75 | Grants exactly if no other descriptor of the device lies below the high-water mark |
| `FdTable.Table.Unlock` | software/usb_kb_bsp/HAL/src/alt_fd_unlock.c:52-56 | Clears the lock bit of that descriptor only |
| `FdTable.Table.Ioctl` | software/usb_kb_bsp/HAL/src/alt_ioctl.c:106-150 | Is the pool's ioctl step, whose answers IoctlAnswers lists |
| `FdTable.Table.Fcntl` | software/usb_kb_bsp/HAL/src/alt_fcntl.c:66-101 | Is the pool's fcntl step, for which FlagsReadBack says what is read back |
| `FdTable.Table.OpenFd` | software/usb_kb_bsp/HAL/src/alt_io_redirect.c:58-72 | Is the pool's redirection step, of which RedirectMoves says what moves |
| `FdTable.Table.IoRedirect` | software/usb_kb_bsp/HAL/src/alt_io_redirect.c:85-94 | Is the run of the three redirections, in the code's order |
| `ColourMerge.GroupsAscend` | ECE385-HelperTools-master/ECE385-HelperTools-master/PNG To Hex/On-Chip Memory/scripts/conv_to_sv.py:242-259 | Later groups start, and have their keys, more than dist above earlier keys |
| `ColourMerge.KeysCover` | ECE385-HelperTools-master/ECE385-HelperTools-master/PNG To Hex/On-Chip Memory/scripts/conv_to_sv.py:242-263 | Every value of the image is within dist of a key, and keys are values of the image |
| `ColourMerge.CoverPrefix` | ECE385-HelperTools-master/ECE385-HelperTools-master/PNG To Hex/On-Chip Memory/scripts/conv_to_sv.py:242-263 | Any palette of image values needs at least n colours up to the n-th key |
| `ColourMerge.GreedyIsMinimum` | ECE385-HelperTools-master/ECE385-HelperTools-master/PNG To Hex/On-Chip Memory/scripts/conv_to_sv.py:242-263 | The keys are a palette of least size among all subsets of the image's values that have a member within dist of every value |
| `ColourMerge.MergeIsGentle` | ECE385-HelperTools-master/ECE385-HelperTools-master/PNG To Hex/On-Chip Memory/scripts/conv_to_sv.py:242-281 | Merging moves a value by at most dist, keeps order, fixes keys, and leaves different results more than dist apart |
| `ColourMerge.CountsConserved` | ECE385-HelperTools-master/ECE385-HelperTools-master/PNG To Hex/On-Chip Memory/scripts/conv_to_sv.py:261-263 | A key occurs in the merged channel as often as all the values of its group did before, which is the count reported for it |
| `ColourMerge.MergingTwiceChangesNothing` | ECE385-HelperTools-master/ECE385-HelperTools-master/PNG To Hex/On-Chip Memory/scripts/conv_to_sv.py:269-281 | Merging the merged channel again changes nothing |
| `ColourMerge.GroupingIsUnique` | ECE385-HelperTools-master/ECE385-HelperTools-master/PNG To Hex/On-Chip Memory/scripts/conv_to_sv.py:242-259 | The values and the distance admit one grouping only |
| `ColourMerge.MergedIsUnique` | ECE385-HelperTools-master/ECE385-HelperTools-master/PNG To Hex/On-Chip Memory/scripts/conv_to_sv.py:269-281 | The list and the distance determine the merged channel |
| `ColourMerge.FormGroups` | ECE385-HelperTools-master/ECE385-HelperTools-master/PNG To Hex/On-Chip Memory/scripts/conv_to_sv.py:242-259 | The loop's groups are a grouping of the ascending values: each key the largest within dist of the first, each group as long as dist of the key allows |
| `ColourMerge.CombineCore` | ECE385-HelperTools-master/ECE385-HelperTools-master/PNG To Hex/On-Chip Memory/scripts/conv_to_sv.py:261-267 | The dictionary has exactly the keys of the groups, each with its group's total count, and each replacement has exactly the other values of its group |
| `ColourMerge.ReplaceOne` | ECE385-HelperTools-master/ECE385-HelperTools-master/PNG To Hex/On-Chip Memory/scripts/conv_to_sv.py:278-280 | Going through all replacements turns an element into the key of its own group |
| `ColourMerge.CombineChannels` | ECE385-HelperTools-master/ECE385-HelperTools-master/PNG To Hex/On-Chip Memory/scripts/conv_to_sv.py:269-281 | Rewrites the list in place so that every element becomes the key of its group in a grouping of the list's own values, which is the merged channel |
| `SpriteTiles.PaletteLists` | ECE385-HelperTools-master/ECE385-HelperTools-master/PNG To Hex/On-Chip Memory/scripts/conv_to_sv.py:415-420 | The palette of a list has its distinct colours, each once |
| `SpriteTiles.PaletteInOrder` | ECE385-HelperTools-master/ECE385-HelperTools-master/PNG To Hex/On-Chip Memory/scripts/conv_to_sv.py:415-418 | Colours met earlier come earlier in the palette |
| `SpriteTiles.ReadBackIff` | ECE385-HelperTools-master/ECE385-HelperTools-master/PNG To Hex/On-Chip Memory/scripts/conv_to_sv.py:429-439 | After the in-place indexing the image's palette, in the order of first occurrence, gives every colour back exactly if its entry b is at least b for every b; otherwise an index is taken for a colour |
| `SpriteTiles.OneBeforeZero` | ECE385-HelperTools-master/ECE385-HelperTools-master/PNG To Hex/On-Chip Memory/scripts/conv_to_sv.py:431-434 | The list of colour 1 and then colour 0 is not read back: both get the index of colour 0 |
| `SpriteTiles.IndexedAfter` | ECE385-HelperTools-master/ECE385-HelperTools-master/PNG To Hex/On-Chip Memory/scripts/conv_to_sv.py:431-434 | A colour's index is kept exactly until a later colour equals it |
| `SpriteTiles.Colours` | ECE385-HelperTools-master/ECE385-HelperTools-master/PNG To Hex/On-Chip Memory/scripts/conv_to_sv.py:415-420 | The loop lists the distinct colours in the order of their first occurrence |
| `SpriteTiles.IndexColours` | ECE385-HelperTools-master/ECE385-HelperTools-master/PNG To Hex/On-Chip Memory/scripts/conv_to_sv.py:431-434 | The two loops relabel every element one palette entry after another, in place |
| `SpriteTiles.TileOf` | ECE385-HelperTools-master/ECE385-HelperTools-master/PNG To Hex/On-Chip Memory/scripts/conv_to_sv.py:445-462 | Pixel x lies in tile x//N, at x%N, within the tile's size, also in the partial last tile |
| `SpriteTiles.TilePlacesArePixels` | ECE385-HelperTools-master/ECE385-HelperTools-master/PNG To Hex/On-Chip Memory/scripts/conv_to_sv.py:445-458 | The places of the tiles are exactly the pixels: tile i exists exactly if it starts before the end, and place c of it is pixel i*N+c exactly if that lies in the image, so the last tile is cut to the image |
| `SpriteTiles.PutEntry` | ECE385-HelperTools-master/ECE385-HelperTools-master/PNG To Hex/On-Chip Memory/scripts/conv_to_sv.py:462 | Setting one pixel's entry changes that pixel's entry only and keeps all table shapes |
| `SpriteTiles.EmptyTables` | ECE385-HelperTools-master/ECE385-HelperTools-master/PNG To Hex/On-Chip Memory/scripts/conv_to_sv.py:445-458 | There is a table for every tile and for no other, with as many rows and columns as the tile has pixels |
| `SpriteTiles.SplitTable` | ECE385-HelperTools-master/ECE385-HelperTools-master/PNG To Hex/On-Chip Memory/scripts/conv_to_sv.py:445-462 | After the loops every pixel's entry is its list element |
| `SpriteTiles.TablesHoldPixels` | ECE385-HelperTools-master/ECE385-HelperTools-master/PNG To Hex/On-Chip Memory/scripts/conv_to_sv.py:460-462 | Pixel (x, y) has its entry in table (x//NC, y//NR), row y%NR, column x%NC |
| `SpriteTiles.PixelOf` | ECE385-HelperTools-master/ECE385-HelperTools-master/PNG To Hex/On-Chip Memory/scripts/conv_to_sv.py:460-462 | Element p of the list is pixel p%w of row p//w |
| `SpriteTiles.OwnRangeOnly` | ECE385-HelperTools-master/ECE385-HelperTools-master/PNG To Hex/On-Chip Memory/scripts/conv_to_sv.py:384-397 | Below 1024 pixels a pixel passes the range test of its own tile and no other |
| `SpriteTiles.LastPixelIsLost` | ECE385-HelperTools-master/ECE385-HelperTools-master/PNG To Hex/On-Chip Memory/scripts/conv_to_sv.py:397 | From 1024 pixels on, pixel 1023 passes no ten-bit range test |
| `SpriteTiles.PlacesRightIff` | ECE385-HelperTools-master/ECE385-HelperTools-master/PNG To Hex/On-Chip Memory/scripts/conv_to_sv.py:566-570 | The computed X_Index or Y_Index is the place in the tile, for all pixels, exactly if the tile size is below 1024 or its ten low bits are not below the image's size |
| `SpriteTiles.EachPixelSelectedOnce` | ECE385-HelperTools-master/ECE385-HelperTools-master/PNG To Hex/On-Chip Memory/scripts/conv_to_sv.py:386-402 | Every addressable pixel of the image passes exactly the test of its own tile exactly if the image is less than 1024 pixels wide and high |
| `SpriteTiles.ChainReadsBack` | ECE385-HelperTools-master/ECE385-HelperTools-master/PNG To Hex/On-Chip Memory/scripts/conv_to_sv.py:472-479 | The generated chain, in whatever order, reads the pixel's own entry, and zero outside the image |
| `SpriteTiles.SplitSpriteTable` | ECE385-HelperTools-master/ECE385-HelperTools-master/PNG To Hex/On-Chip Memory/scripts/conv_to_sv.py:403-462 | The palette is that of the list, in order; the tables, cut to the image, hold the relabelled list; raises ValueError exactly for a channel of one colour or none |
| `SpriteTiles.SpriteReadsBackIff` | ECE385-HelperTools-master/ECE385-HelperTools-master/PNG To Hex/On-Chip Memory/scripts/conv_to_sv.py:566-570 | For every image below 1024 pixels a side, with tile sizes that meet PlacesRightIff, the generated module shows every pixel in its own colour exactly if entry b of the image's palette is at least b for every b |
| `SpriteTiles.TwoPixelsFail` | ECE385-HelperTools-master/ECE385-HelperTools-master/PNG To Hex/On-Chip Memory/scripts/conv_to_sv.py:429-462 | An image of two pixels that is not shown right, for all those tile sizes |
| `SpriteTiles.GenerateChannel` | ECE385-HelperTools-master/ECE385-HelperTools-master/PNG To Hex/On-Chip Memory/scripts/conv_to_sv.py:513-525 | From raw channel to module: it shows the merged channel, within dist of the original, exactly if entry b of the merged channel's palette is at least b for every b |
| `NumberFormat.DigitsReadBack` | software/usb_kb_bsp/HAL/src/alt_log_printf.c:247-296 | The canonical digits stand for the number and have no leading zero |
| `NumberFormat.DigitCharIs` | software/usb_kb_bsp/HAL/src/alt_log_printf.c:286-291 | The digit characters are 0 to 9, then A to F for upper case and a to f otherwise |
| `NumberFormat.FallingIsDigits` | software/usb_kb_bsp/HAL/src/alt_log_printf.c:282-296 | Dividing by falling powers from the largest one that fits gives the canonical digits |
| `NumberFormat.NibblesAreFalling` | software/usb_kb_bsp/HAL/src/alt_printf.c:96-105 | Masking nibbles gives the digits of dividing by falling powers of sixteen |
| `NumberFormat.BitsReadBack` | software/usb_kb_bsp/HAL/src/alt_printf.c:82-96 | The 32 bits of a word stand for it |
| `NumberFormat.MaskAndShift` | software/usb_kb_bsp/HAL/src/alt_printf.c:96-104 | Masking with 0xF << s and shifting right by s, bit by bit, is dividing by the power of sixteen and taking the remainder, and the mask leaves zero exactly if that is zero |
| `NumberFormat.CountDigits` | software/usb_kb_bsp/HAL/src/alt_log_printf.c:247-255 | The loop counts the digits and finds the place value of the first; its 32-bit product never wraps |
| `NumberFormat.PrintLead` | software/usb_kb_bsp/HAL/src/alt_log_printf.c:257-279 | Sign and padding, in the order of the code, for a zero flag and without |
| `NumberFormat.PrintDigits` | software/usb_kb_bsp/HAL/src/alt_log_printf.c:281-296 | The print loop ends and emits exactly the digits |
| `NumberFormat.StripSign` | software/usb_kb_bsp/HAL/src/alt_log_printf.c:238-245 | Complement and add one gives the magnitude of every negative 32-bit value, the smallest included, with the sign of the number GivenIff determines |
| `NumberFormat.GivenIff` | software/usb_kb_bsp/HAL/src/alt_log_printf.c:228-245 | The number printed for an argument word is the only one of int's range, or of unsigned's, that is the word modulo 2^32 |
| `NumberFormat.PrintInteger` | software/usb_kb_bsp/HAL/src/alt_log_printf.c:212-297 | Prints the padded field of the number the argument word stands for, signed or unsigned; by ArgumentReadsBack the word is known from the field |
| `NumberFormat.FieldReadsBack` | software/usb_kb_bsp/HAL/src/alt_log_printf.c:257-296 | A field reads back as the number and is as long as the wider of its width and sign plus digits |
| `NumberFormat.ArgumentReadsBack` | software/usb_kb_bsp/HAL/src/alt_log_printf.c:228-296 | Reading the field gives the argument word back, modulo 2^32, and a negative number is not printed as an unsigned one |
| `NumberFormat.FieldShape` | software/usb_kb_bsp/HAL/src/alt_log_printf.c:257-296 | A field is, place by place, blanks, the sign and the digits, or with a zero flag the sign, zeros and the digits |
| `NumberFormat.PrintHex` | software/usb_kb_bsp/HAL/src/alt_printf.c:82-110 | The mask and shift loops print the canonical hexadecimal digits, the same as the dividing loop without a width |
| `Printf.PlainText` | software/usb_kb_bsp/HAL/src/alt_log_printf.c:134-150 | Text without a percent sign is printed as it stands |
| `Printf.WidthIsRead` | software/usb_kb_bsp/HAL/src/alt_log_printf.c:176-190 | A row of digits is read as the field width it stands for |
| `Printf.IntegerDirective` | software/usb_kb_bsp/HAL/src/alt_log_printf.c:152-299 | Zero flag, width and letter print the next argument in a field of that width: d and i signed decimal, u unsigned, o octal, x and X hexadecimal, X in upper case; then comes the rest of the format |
| `Printf.OtherDirective` | software/usb_kb_bsp/HAL/src/alt_log_printf.c:319-336 | c prints the low byte of its argument and s the string, with blanks up to the width in front; an unknown letter prints nothing and takes no argument |
| `Printf.PercentAndEnd` | software/usb_kb_bsp/HAL/src/alt_log_printf.c:130-163 | Two percent signs print one, and a directive that the format breaks off prints nothing |
| `Printf.LongIsIgnored` | software/usb_kb_bsp/HAL/src/alt_log_printf.c:196-236 | The letter l changes nothing that is printed |
| `Printf.PrecisionIsIgnored` | software/usb_kb_bsp/HAL/src/alt_log_printf.c:172-194 | Neither does a point with any row of digits behind it |
| `Printf.LogPrintf` | software/usb_kb_bsp/HAL/src/alt_log_printf.c:114-341 | The state machine prints what the format means, for every format string |
| `Printf.AltPrintf` | software/usb_kb_bsp/HAL/src/alt_printf.c:49-127 | Prints what the format means, for every format string |
| `Printf.SmallText` | software/usb_kb_bsp/HAL/src/alt_printf.c:58-65 | Text without a percent sign is printed as it stands, whatever follows |
| `Printf.SmallDirective` | software/usb_kb_bsp/HAL/src/alt_printf.c:70-124 | %%, %c, %x and %s print what they print in the logging printf, an unknown letter is skipped, and a percent sign at the end stops the output |
| `Printf.SamePrinted` | software/usb_kb_bsp/HAL/src/alt_printf.c:58-126 | On formats with only %%, %c, %x and %s both functions print the same |
| `HeapBreak.SbrkIs` | software/usb_kb_bsp/HAL/src/alt_sbrk.c:73-95 | A request of any sign is granted exactly if the new break lies between zero and the limit, and then moves the break from the next word boundary on; refused, only to that boundary |
| `HeapBreak.RecordedCount` | software/usb_kb_bsp/HAL/src/alt_gmon.c:133-208 | A function seen first gets two new entries and an arc one, next to each other while they fit the slab, with at most one new slab, and nothing recorded before changes |
| `HeapBreak.StepKeepsInv` | software/usb_kb_bsp/HAL/src/alt_gmon.c:133-148 | Every call whose granted requests find the break at or above all blocks keeps blocks apart and entries in their own part of a slab |
| `HeapBreak.DisjointIff` | software/usb_kb_bsp/HAL/src/alt_sbrk.c:73-95 | Over any run, with increments of any sign, all blocks are word aligned, inside the heap and pairwise disjoint exactly if every granted request found the break at or above the blocks granted before |
| `HeapBreak.HeapIsDisjoint` | software/usb_kb_bsp/HAL/src/alt_sbrk.c:73-95 | So it is in every run without negative increments, and every entry with a granted slab has its own part of it |
| `HeapBreak.AllocatedIff` | software/usb_kb_bsp/HAL/src/alt_gmon.c:137-147 | An entry lies in a slab exactly if it fits the current one or a new one fits the heap; a refused slab is used all the same, at address -1 |
| `HeapBreak.NoneLostIff` | software/usb_kb_bsp/HAL/src/alt_gmon.c:133-148 | Over a whole run whose blocks keep apart no entry is lost exactly if each fitted when it was asked for |
| `HeapBreak.ShrinkingOverlaps` | software/usb_kb_bsp/HAL/src/alt_sbrk.c:92-93 | With a negative increment two blocks can overlap: a concrete run |
| `HeapBreak.WrappedRequestIsGranted` | software/usb_kb_bsp/HAL/src/alt_sbrk.c:86-93 | With a limit above 2^31 the sum can wrap and an impossible request be granted: a concrete call |
| `HeapBreak.Break.AltSbrk` | software/usb_kb_bsp/HAL/src/alt_sbrk.c:65-124 | Is the break step: aligns even when it refuses, and returns the old break or -1 |
| `HeapBreak.Break.McountAllocate` | software/usb_kb_bsp/HAL/src/alt_gmon.c:133-149 | Takes the entry off the slab, after asking for a new one if it does not fit |
| `HeapBreak.Break.McountRecord` | software/usb_kb_bsp/HAL/src/alt_gmon.c:158-208 | A function seen first gets two entries, its arcs one each |
| `HeapBreak.Break.Session` | software/usb_kb_bsp/HAL/src/alt_sbrk.c:65-124 | Any run of calls on the object is the run of steps |
| `IrqNesting.StepKeepsInv` | software/usb_kb_bsp/HAL/inc/priv/alt_legacy_irq.h:118-149 | Every step keeps IENABLE equal to active & mask, and the interrupted handlers a stack of falling numbers whose brackets saved the masks below |
| `IrqNesting.ToggleIff` | software/usb_kb_bsp/HAL/inc/priv/alt_legacy_irq.h:68-99 | Enabling or disabling an interrupt keeps IENABLE equal to active & mask exactly if the mask in force covers all active interrupts |
| `IrqNesting.ToggledIs` | software/usb_kb_bsp/HAL/inc/priv/alt_legacy_irq.h:68-99 | A disabled interrupt leaves the active set, an enabled one is in it, no other interrupt is affected, and IENABLE becomes the active set |
| `IrqNesting.StepFrame` | software/usb_kb_bsp/HAL/inc/priv/alt_legacy_irq.h:68-149 | Which step changes which variable and register, and when interrupts are on and off |
| `IrqNesting.OpenAdmits` | software/usb_kb_bsp/HAL/inc/priv/alt_legacy_irq.h:118-133 | Inside a bracket an interrupt is taken exactly if an active one with a lower number is raised |
| `IrqNesting.MatchingIff` | software/usb_kb_bsp/HAL/inc/priv/alt_legacy_irq.h:68-149 | Throughout a run IENABLE equals active & mask exactly if every enable and disable meets that condition |
| `IrqNesting.NestingIsBounded` | software/usb_kb_bsp/HAL/inc/priv/alt_legacy_irq.h:100-149 | At most 32 handlers nest, each interrupted by lower numbers only |
| `IrqNesting.EnableInsideBracket` | software/usb_kb_bsp/HAL/inc/priv/alt_legacy_irq.h:87-99 | Enabling an interrupt inside a bracket undoes the mask, and the open handler is then interrupted by its own number |
| `IrqNesting.SelfInterruptedRun` | software/usb_kb_bsp/HAL/inc/priv/alt_legacy_irq.h:87-149 | A run from reset in which interrupt 3 interrupts its own handler |
| `IrqNesting.ServedIsFirst` | software/usb_kb_bsp/HAL/src/alt_irq_handler.c:128-155 | The interrupt served is the lowest that is pending, active and unmasked, and lower than every interrupted one |
| `IrqNesting.CloseUndoesOpen` | software/usb_kb_bsp/HAL/inc/priv/alt_legacy_irq.h:118-149 | Whatever nests inside a bracket, closing it gives back mask, IENABLE and stack as before it opened |
| `IrqNesting.ReturnRestores` | software/usb_kb_bsp/HAL/src/alt_irq_handler.c:128-159 | From an interrupt to the return of its handler the interrupted level gets back its stack and mask, with interrupts on |
| `IrqNesting.SpinningIsForever` | software/usb_kb_bsp/HAL/src/alt_irq_handler.c:141-155 | A handler that finds nothing pending on its first look never leaves its search |
| `IrqNesting.FindLowest` | software/usb_kb_bsp/HAL/src/alt_irq_handler.c:132-155 | Shifting a single bit finds the lowest pending number |
| `IrqNesting.Processor.Look` | software/usb_kb_bsp/HAL/src/alt_irq_handler.c:128-159 | One look calls the service routine of the lowest pending interrupt first, or, with none pending, ends the handler, but not on its first look |
| `IrqNesting.Processor.TakeInterrupt` | software/usb_kb_bsp/HAL/src/alt_irq_handler.c:128-159 | A pending interrupt inside a bracket is served and the interrupted level gets everything back; without one nothing changes |
| `IrqNesting.Processor.AltIrqInterruptible` | software/usb_kb_bsp/HAL/inc/priv/alt_legacy_irq.h:118-133 | Is the opening step and returns the mask it replaced |
| `IrqNesting.Processor.AltIrqNonInterruptible` | software/usb_kb_bsp/HAL/inc/priv/alt_legacy_irq.h:139-149 | Is the closing step |
| `IrqNesting.Processor.AltIrqEnable` | software/usb_kb_bsp/HAL/inc/priv/alt_legacy_irq.h:87-99 | Adds the interrupt and writes the active set to IENABLE, without the mask |
| `IrqNesting.Processor.AltIrqDisable` | software/usb_kb_bsp/HAL/inc/priv/alt_legacy_irq.h:68-81 | Takes the interrupt out and writes the active set to IENABLE, without the mask |
| `IrqNesting.Processor.AltIrqHandler` | software/usb_kb_bsp/HAL/src/alt_irq_handler.c:128-159 | With service routines that bracket and nest to any depth, the handler returns with mask, active set and stack as they were, interrupts on, a service routine run and nothing left pending; it is still busy only after as many service routines as it may look, or stuck; in any case the interrupted levels are as they were and the discipline holds |

## Left out

- The UART's small driver and its uC/OS-II and ignore-FIFO-full variants, the direct-driver stubs, the exception-stack and stack-check branches, the vector instruction and the enhanced interrupt API: build variants this system does not select.
- JtagUart.Uart.Write: the wait loop is observed for `spins` turns and otherwise returns WriteStillWaiting with what was accepted so far, since with a silent host the code waits for ever; register fields are records and errno values are named cases.
- JtagUart.Uart.Read: the same bound on the wait loop; ReadStillWaiting has taken nothing.
- JtagUart.Uart.Close: the same bound on the wait loop.
- Each access to shared state is one atomic step: compiler reordering, memory barriers and inline assembly are not modelled.
- AlarmQueue.Clock.Start: asks for nticks < 2^32-1 and an alarm that is not registered; the code checks neither, `CalledAtNextTick` and `OnTimeIff` say what the first excludes, and `InsertTwice` and `CircleWalk` what the second does.
- AlarmQueue.Clock.Callback: does not stop the alarm saved as next, for which see `StrandedWalk`; a callback that restarts its own alarm returns a period that stays within one turn of the counter with the new delay, for which see `SelfRestartTracks`.
- AlarmQueue.Clock.Tick: what callbacks do to alarms outside the list interface is not modelled; a callback of the model only starts and stops alarms of a given set and returns a period.
- WallClock.LinearIff: for tick rates that divide a million and for seconds that stay below 2^31.
- FdPool.LockStaysExclusive: drivers are assumed not to touch the pool from their open, close and ioctl functions, and calls are atomic; the name lookup is a parameter, so are driver results, and errno numbers are named cases.
- The flag words are sets of bit numbers and the interrupt masks sets of interrupt numbers, instead of 32-bit words.
- ColourMerge.CombineChannels: dictionaries are maps, so their printing order is not modelled; `min_dist` is never called.
- SpriteTiles.SplitSpriteTable: the generated text is modelled as tables, palette and range tests; array literal order, digit padding and the transposed dimensions of partial tiles in the text are left out.
- Sprite sheets by `create_sprite_table_channel` and `split_to_palette`, file input, prompts and the PNG scripts.
- Printf.LogPrintf: widths are unbounded integers, since a width that overflows the code's int is undefined in C; strings hold no NUL; the argument list is a function from positions to words, and a word is a string's address through a second function.
- HeapBreak.DisjointIff: for a limit below 2^31, which covers the 28-bit data addresses of this processor (software/usb_kb_bsp/system.h, line 102); `WrappedRequestIsGranted` shows what follows above it.
- HeapBreak.HeapIsDisjoint: for increments that are not negative; `DisjointIff` is the statement for all of them.
- The profiler's list of functions and arcs, its start-up and its sampling: only where its entries lie is modelled.
- IrqNesting.Processor.AltIrqHandler: the handler looks a bounded number of rounds, since a device can keep it busy for ever; the state machine has no such bound.
- IrqNesting.NestingIsBounded: for runs in which no interrupt is enabled or disabled while the mask leaves an active one out; `SelfInterruptedRun` is a run in which one is.
- Handler registration, the game logic in SystemVerilog, the USB host program, and system calls that only return ENOSYS.
