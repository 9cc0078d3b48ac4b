# A verified model of the uva-os-world2 kernel core

This project models the core of a teaching kernel for the Raspberry Pi 3 in
Dafny and proves properties of that model. The core has six parts:

- **`Sched`** (`sched.dfy`): the task table `task[NR_TASKS]`, the per-CPU
  idle tasks and `cpus[].proc`. It covers the credit scheduler (`schedule`,
  `yield`, `timer_tick`) and the task lifecycle (`sleep`, `wakeup`, `wait`,
  `exit_process`, `reparent`, `freeproc`, `copy_process`).
  - The `Scheduler` class holds the tables as arrays and updates them in place.
  - Every method states its new state as a function of the old snapshot
    `Sys`.
  - The lemmas show that the snapshot functions keep the table invariant.
    The invariant says that every CPU runs a distinct task, that the task a
    CPU runs is in state `Running`, and that no other task is `Running`.
- **`Timer`** (`timer.dfy`): the table of virtual kernel timers
  (`ktimer_start`, `ktimer_cancel`, `sys_timer_irq`, `adjust_sys_timer`), the
  deadline arithmetic and `current_time`.
- **`Alloc`** (`alloc.dfy`): the page bitmap `mem_map` with its
  used-page counter. It covers `get_free_page`, `free_page`,
  `reserve_phys_region`, `free_phys_region` and `paging_init`.
- **`Mbox`** (`mbox.dfy`): several parts of the mailbox and framebuffer
  code:
  - the VideoCore mailbox buffer and `mbox_call`;
  - the property-tag messages of `fb_detect_scr_dim`, `fb_set_voffsets`,
    `do_fb_init` and `fb_fini`;
  - the framebuffer record `the_fb`;
  - the text cursor of `fb_print`;
  - the crop and centering arithmetic of `fb_showpicture`.
- **`Donut`** (`donut.dfy`): the donut demo:
  - the canvas grid and offsets of `donut_canvas_init`;
  - the luminance clamp;
  - the depth-tested text and z buffers;
  - the scale factor;
  - the loop that turns the text buffer into 2x2 pixel blocks;
  - `int2rgb`.
- **`Plat`** (`plat.dfy`): the page-size macros of `plat.h` on 64-bit words.

The clock (`current_counter()`), mailbox replies and the points the donut
renderer computes are inputs, given as parameters. Calls of timer handlers
are recorded as a sequence of `Call` values. Writes to the mailbox register
are recorded as a field.

## Model

| member | source | states |
|---|---|---|
| Plat.PageMaskIsComplementOfOffset | kernel/plat.h:9-15 | `PAGE_MASK` is the bitwise complement of `PAGE_SIZE - 1`, and `1 << PAGE_SHIFT` is 4096 |
| Plat.PgRoundUp | kernel/plat.h:19 | the result is page aligned and, unless the add wraps, it is the least aligned value not below `sz` |
| Plat.PgRoundDown | kernel/plat.h:20 | the result is page aligned, not above `a`, and less than a page below it |
| Plat.PageAlignedIffMultiple | kernel/plat.h:19-20 | masking with `~(PAGE_SIZE-1)` is the identity exactly on multiples of 4096 |
| Plat.RoundingFixpoints | kernel/plat.h:19-20 | both roundings leave a value unchanged if and only if it is page aligned |
| Plat.RoundingIdempotent | kernel/plat.h:19-20 | rounding twice is rounding once, up and down |
| Plat.RoundUpNat | kernel/plat.h:19 | on unbounded addresses, rounding up gives the least multiple of the page size at or above `x` |
| Plat.MaxPagingPages | kernel/plat.h:28-30 | `MAX_PAGING_PAGES` pages cover exactly the memory below the ramdisk |
| Sched.ReplaceInDistinct | uva-os-world2/kernel/sched.c:193-227 | replacing one CPU's task with a task no CPU runs keeps the CPUs' tasks distinct and changes membership only for those two tasks |
| Sched.FirstCpu | uva-os-world2/kernel/sched.c:90-96 | the result is -1 exactly when no CPU runs `p`, and otherwise it is the first CPU that runs `p` |
| Sched.BestIsUnique | uva-os-world2/kernel/sched.c:117-131 | at most one slot is the scheduler's choice: most credits, lowest slot on ties |
| Sched.TieGoesToLowerSlot | uva-os-world2/kernel/sched.c:125-131 | of two candidates with equal credits, the higher slot is never chosen (the comparison is strict) |
| Sched.RechargeRaises | uva-os-world2/kernel/sched.c:151 | `(credits >> 1) + priority` is above the old credits when credits are not positive and priority is |
| Sched.Recharged | uva-os-world2/kernel/sched.c:145-153 | one recharge pass changes only credits; the idle tasks and the CPUs are unchanged |
| Sched.RechargedTimes | uva-os-world2/kernel/sched.c:145-153 | any number of recharge passes keep every task's state |
| Sched.RechargeKeepsCandidates | uva-os-world2/kernel/sched.c:125-153 | a recharge pass neither adds nor removes a runnable candidate, and it keeps the invariant |
| Sched.RechargeEventuallyPositive | uva-os-world2/kernel/sched.c:145-153 | after enough passes a task with positive priority has positive credits, so the scheduler loop ends |
| Sched.RechargedTimesCredits | uva-os-world2/kernel/sched.c:151 | after k passes each task's credits are the recharge formula iterated k times |
| Sched.Switched | uva-os-world2/kernel/sched.c:193-227 | a switch keeps the table shape |
| Sched.SwitchKeepsInvariant | uva-os-world2/kernel/sched.c:193-227 | switching a CPU to its idle task or to a runnable candidate keeps the invariant, and the CPU then runs `next` |
| Sched.Woken | uva-os-world2/kernel/sched.c:306-321 | waking keeps the table length |
| Sched.WakeupMovesSleepers | uva-os-world2/kernel/sched.c:302-321 | exactly the tasks sleeping on `chan` become runnable; none sleeps on `chan` afterwards |
| Sched.Reparented | uva-os-world2/kernel/sched.c:408-420 | reparenting keeps the table length |
| Sched.ChildrenOfPositive | uva-os-world2/kernel/sched.c:443-464 | the child count is positive if and only if some live task has `p` as its parent |
| Sched.ReparentHandsChildrenToInit | uva-os-world2/kernel/sched.c:408-420 | afterwards `p` has no children, and init gains exactly the children `p` had |
| Sched.Slept | uva-os-world2/kernel/sched.c:339-403 | sleeping keeps the table shape |
| Sched.LeaveCpuKeepsInvariant | uva-os-world2/kernel/sched.c:368-381 | a task that leaves its CPU in a non-running state, with the CPU going idle, keeps the invariant |
| Sched.ExitWakeups | uva-os-world2/kernel/sched.c:490-494 | the wakeups during exit keep the table length |
| Sched.Exited | uva-os-world2/kernel/sched.c:477-512 | exit keeps the table shape |
| Sched.ExitKeepsInvariant | uva-os-world2/kernel/sched.c:477-512 | exit keeps the invariant and leaves the caller a zombie holding `status`, run by no CPU |
| Sched.ExitLeavesNoChildren | uva-os-world2/kernel/sched.c:490 | a task that exits has no children afterwards |
| Sched.ExitWakesWaitingParent | uva-os-world2/kernel/sched.c:494 | a parent sleeping in `wait` on itself is runnable after its child exits |
| Sched.ScanSlot | uva-os-world2/kernel/sched.c:580-585 | the slot scan after `lastpid` stays in the table |
| Sched.ScanCoversAll | uva-os-world2/kernel/sched.c:580-585 | the circular scan starting after `lastpid` visits every slot |
| Sched.Scheduler.constructor | uva-os-world2/kernel/sched.c:51-85 | the idle tasks have pid -1 and every CPU runs its idle task; init is slot 0, runnable, with priority 2, credits 0 and the given flags; every other slot is zero |
| Sched.Scheduler.TaskOnCpu | uva-os-world2/kernel/sched.c:90-96 | returns the first CPU running `p`, or -1 if and only if none does |
| Sched.Scheduler.PickNext | uva-os-world2/kernel/sched.c:117-131 | reports whether a candidate exists, whether one has positive credits, and, when one does, the unique best slot |
| Sched.Scheduler.Recharge | uva-os-world2/kernel/sched.c:145-153 | the table after the pass is `Recharged` of the one before |
| Sched.Scheduler.SwitchTo | uva-os-world2/kernel/sched.c:193-227 | the new state is `Switched` of the old one |
| Sched.Scheduler.Schedule | uva-os-world2/kernel/sched.c:102-166 | after some recharge rounds the CPU runs the best candidate, or its idle task when there is none; the invariant holds |
| Sched.Scheduler.ScheduleRound | uva-os-world2/kernel/sched.c:117-161 | one round either switches to a task or recharges once, and the recharge strictly lowers the passes a witness task still needs |
| Sched.Scheduler.SetCredits | uva-os-world2/kernel/sched.c:186 | only the credits of `p` change, and the invariant is kept |
| Sched.Scheduler.Yield | uva-os-world2/kernel/sched.c:184-188 | the caller's credits drop to 0, then schedule() runs from that state: its recharge rounds and its choice satisfy `ScheduleOutcome` |
| Sched.Scheduler.TimerTick | uva-os-world2/kernel/sched.c:234-280 | no reschedule exactly when the current task has pid >= 0 and credits still positive after the decrement; otherwise its credits drop to 0 and schedule() runs from that state, with rounds and choice as `ScheduleOutcome` states |
| Sched.Scheduler.WakeupNolock | uva-os-world2/kernel/sched.c:302-321 | the table becomes `Woken`, and the count returned is the number of sleepers on `chan` |
| Sched.Scheduler.Wakeup | uva-os-world2/kernel/sched.c:327-333 | same as `WakeupNolock`, with the invariant kept |
| Sched.Scheduler.Reparent | uva-os-world2/kernel/sched.c:408-420 | the table becomes `Reparented`, and the count returned is the number of children moved |
| Sched.Scheduler.Freeproc | uva-os-world2/kernel/sched.c:518-530 | only slot `i` changes, to the freed task |
| Sched.Scheduler.Sleep | uva-os-world2/kernel/sched.c:366-381 | the new state is `Slept` and the invariant is kept |
| Sched.Scheduler.SleepReturn | uva-os-world2/kernel/sched.c:383-387 | once the woken task runs again, only its `chan` changes, to null; the invariant is kept and no channel's sleeper count changes |
| Sched.TidyKeepsSleepers | uva-os-world2/kernel/sched.c:387 | clearing the `chan` of a task that is not sleeping changes no channel's sleeper count |
| Sched.Candidate | uva-os-world2/kernel/sched.c:126-131 | a task may be chosen by `cpu` when `task_on_cpu` places it on no other CPU and it is runnable, or is this CPU's own running task |
| Sched.IsBest | uva-os-world2/kernel/sched.c:123-135 | the scan's pick: a candidate with positive credits, none has more, and every earlier candidate has fewer (strict `>`, so the lowest slot wins ties) |
| Sched.Freed | uva-os-world2/kernel/sched.c:521-529 | freeproc's slot: UNUSED, with flags, killed, credits, chan, pid and xstate zeroed |
| Sched.Spawned | uva-os-world2/kernel/sched.c:604-617 | copy_process's child: RUNNABLE, priority and credits those of the caller, the given pid and flags, parent the caller |
| Sched.Scheduler.Wait | uva-os-world2/kernel/sched.c:428-471 | one of three outcomes: "no children" if and only if the caller has none, with nothing changed; otherwise the first zombie child is reaped, its pid returned and only its slot freed; otherwise the caller sleeps on itself |
| Sched.Scheduler.ExitProcess | uva-os-world2/kernel/sched.c:477-512 | the new state is `Exited`, and the invariant is kept |
| Sched.Scheduler.CopyProcess | uva-os-world2/kernel/sched.c:573-625 | -1 if and only if no slot is free; otherwise the first free slot after `lastpid` is filled with a runnable child of the caller with the caller's priority, and becomes `lastpid` |
| Sched.RechargedTimesKeeps | uva-os-world2/kernel/sched.c:145-153 | any number of recharge passes keeps the invariant and the set of candidates |
| Timer.Cleared | uva-os-world2/kernel/timer.c:313-321 | clearing due handlers keeps the table length |
| Timer.FiredOnlyDue | uva-os-world2/kernel/timer.c:313-321 | every handler called belongs to an active timer that was due |
| Timer.FiredInSlotOrder | uva-os-world2/kernel/timer.c:313-321 | handlers are called in increasing slot order |
| Timer.FiredAllDue | uva-os-world2/kernel/timer.c:313-321 | every due active timer has its handler called |
| Timer.ClearedIsQuiet | uva-os-world2/kernel/timer.c:313-323 | after the interrupt has fired what was due, the following `adjust_sys_timer` fires nothing more |
| Timer.NothingDueFiresNothing | uva-os-world2/kernel/timer.c:313-321 | with nothing due, no handler is called |
| Timer.NextCompare | uva-os-world2/kernel/timer.c:194-210 | the `next` the scan of adjust_sys_timer ends with: all ones, lowered to a pending deadline plus SLACK whenever that deadline is before the current `next` |
| Timer.Fired | uva-os-world2/kernel/timer.c:313-321 | the handlers called by a scan, in slot order, one per active timer that is due |
| Timer.NextCompareIsSomeDeadline | uva-os-world2/kernel/timer.c:192-227 | `next` stays all-ones if and only if no timer is pending; otherwise it is some pending deadline plus 10 ms, and it is never before `now` |
| Timer.CompareIsNotMinimum | uva-os-world2/kernel/timer.c:199-209 | with deadlines 100 and 5000, the compare value is 15000, not the earlier 10100: because the scan compares each deadline with `next` after the slack was added, a later timer replaces an earlier one |
| Timer.Deadline | uva-os-world2/kernel/timer.c:255 | the deadline is `delayms` milliseconds of ticks after `now` |
| Timer.DeadlineAsWritten | uva-os-world2/kernel/timer.c:255 | the deadline as written: `now` plus the 32-bit wrapped product of 1000 and `delayms` |
| Timer.DeadlineMonotone | uva-os-world2/kernel/timer.c:255 | a longer delay never gives an earlier deadline |
| Timer.DeadlinesAgreeBelowWrap | uva-os-world2/kernel/timer.c:250-255 | the 32-bit product as written agrees with the intended deadline for delays up to 4294967 ms |
| Timer.DeadlineWrapExample | uva-os-world2/kernel/timer.c:250-255 | for 4294968 ms the written deadline is 704 ticks away and earlier than that of a shorter delay |
| Timer.CurrentTime | uva-os-world2/kernel/timer.c:155-160 | the intended split of the counter into seconds (kept to 32 bits) and milliseconds within the second |
| Timer.CurrentTimeAsWritten | uva-os-world2/kernel/timer.c:155-160 | current_time as written, with the 32-bit product `(*sec) * TICKPERSEC` wrapping |
| Timer.CurrentTimeSplits | uva-os-world2/kernel/timer.c:155-160 | milliseconds are below 1000, and seconds and milliseconds together are the counter in milliseconds |
| Timer.CurrentTimeAgreesBeforeWrap | uva-os-world2/kernel/timer.c:155-160 | for the first 4295 seconds the written computation equals the intended split |
| Timer.CurrentTimeWrapExample | uva-os-world2/kernel/timer.c:157-159 | at 4295 s the written version reports 4294967 ms instead of 0 |
| Timer.TimerTable.constructor | uva-os-world2/kernel/timer.c:182-187 | every slot is zeroed and nothing has fired |
| Timer.TimerTable.AdjustSysTimer | uva-os-world2/kernel/timer.c:192-228 | expired timers fire and are cleared; `next` is `NextCompare`, never before `now`; the compare register is written only when some timer is pending |
| Timer.TimerTable.Start | uva-os-world2/kernel/timer.c:235-268 | -1 if and only if every slot is busy, with nothing changed; otherwise the first free slot gets the handler and its deadline, and the timer is re-armed |
| Timer.TimerTable.FirstFree | uva-os-world2/kernel/timer.c:240-243 | returns the first free slot, or N_TIMERS if every slot is active |
| Timer.TimerTable.Cancel | uva-os-world2/kernel/timer.c:270-300 | -1 if and only if `t` is out of range or inactive, with nothing changed; -2 if and only if it had expired, with the slot cleared and no re-arm; 0 otherwise, with the handler removed and the timer re-armed |
| Timer.TimerTable.SysTimerIrq | uva-os-world2/kernel/timer.c:304-327 | every timer due at `now` (inclusive) fires in slot order and is cleared; the compare register follows the remaining timers |
| Timer.CancelBeforeExpiry | kernel/unittests.c:38-41 | a 500 ms timer cancelled 100 ms after it starts is still pending, so the cancel returns 0 and frees the slot |
| Alloc.CountOnes | uva-os-world2/kernel/alloc.c:39-40 | the used-page count is at most the map size |
| Alloc.CountConcat | uva-os-world2/kernel/alloc.c:39-40 | the count of a concatenation is the sum of the counts |
| Alloc.CountUniform | uva-os-world2/kernel/alloc.c:87-90 | a run of all 1s counts its length, and a run of all 0s counts 0 |
| Alloc.Filled | uva-os-world2/kernel/alloc.c:87-90 | inside `[lo, hi)` every flag is `v`; outside, flags are unchanged |
| Alloc.CountFilled | uva-os-world2/kernel/alloc.c:87-92 | setting a run that had no `v` moves the used count by its length, up for reserve and down for free |
| Alloc.CountSet | uva-os-world2/kernel/alloc.c:55-70 | flipping one flag moves the used count by one |
| Alloc.FirstFree | uva-os-world2/kernel/alloc.c:52-58 | -1 if and only if no page in range is free; otherwise the lowest free page |
| Alloc.Allocated | uva-os-world2/kernel/alloc.c:55 | get_free_page's update: page `i` is flagged and `paging_pages_used` goes up by one |
| Alloc.Released | uva-os-world2/kernel/alloc.c:69 | free_page's update: page `i` is cleared and `paging_pages_used` goes down by one |
| Alloc.AllocatedKeepsConsistent | uva-os-world2/kernel/alloc.c:55-58 | allocating a free page keeps `paging_pages_used` equal to the number of set flags |
| Alloc.ReleasedKeepsConsistent | uva-os-world2/kernel/alloc.c:67-71 | freeing a used page keeps the counter consistent |
| Alloc.AllocateThenRelease | uva-os-world2/kernel/alloc.c:51-71 | freeing a page just allocated restores the map and the counter |
| Alloc.RangeOp | uva-os-world2/kernel/alloc.c:77-98 | -1 if and only if the start or size is unaligned; -2 if and only if some page in the range already has the target flag; the state changes only on success, and then the whole range holds `v` |
| Alloc.RegionLength | uva-os-world2/kernel/alloc.c:82-90 | an aligned region covers exactly `size / PAGE_SIZE` map entries |
| Alloc.MallocRegionIndexes | uva-os-world2/kernel/alloc.c:127-133 | the heap region at the top of memory is aligned and maps to the last `MALLOC_PAGES` entries |
| Alloc.RangeOpKeepsConsistent | uva-os-world2/kernel/alloc.c:77-98 | every outcome of a range reserve or free keeps the counter consistent |
| Alloc.ReserveThenFreeRestores | uva-os-world2/kernel/alloc.c:101-116 | freeing a region just reserved succeeds and restores the exact previous state |
| Alloc.FreeRegionReserves | uva-os-world2/kernel/alloc.c:101-107 | an aligned region of free pages can always be reserved |
| Alloc.PagesBelowHigh | uva-os-world2/kernel/alloc.c:124-126 | `paging_pages` pages cover exactly the memory from `LOW_MEMORY` to `HIGH_MEMORY` |
| Alloc.MallocReservation | uva-os-world2/kernel/alloc.c:127-133 | reserving the heap at boot succeeds and marks exactly the last `MALLOC_PAGES` pages used |
| Alloc.PageAllocator.constructor | uva-os-world2/kernel/alloc.c:39-47 | the map has `MAX_PAGING_PAGES` entries, all free, and every counter is zero |
| Alloc.PageAllocator.GetFreePage | uva-os-world2/kernel/alloc.c:51-64 | the lowest free page below the heap is marked used and its address returned; if there is none, 0 and nothing changes |
| Alloc.PageAllocator.FreePage | uva-os-world2/kernel/alloc.c:67-71 | the page's flag is cleared and the counter decremented |
| Alloc.PageAllocator.FindClash | uva-os-world2/kernel/alloc.c:82-86 | reports whether some page in the range already has the target flag |
| Alloc.PageAllocator.Fill | uva-os-world2/kernel/alloc.c:87-90 | the map becomes `Filled` of the old map |
| Alloc.PageAllocator.ReserveLocked | uva-os-world2/kernel/alloc.c:77-98 | result and new state are `RangeOp` of the old state |
| Alloc.PageAllocator.ReservePhysRegion | uva-os-world2/kernel/alloc.c:101-107 | `RangeOp` with the used flag |
| Alloc.PageAllocator.FreePhysRegion | uva-os-world2/kernel/alloc.c:110-116 | `RangeOp` with the free flag |
| Alloc.PageAllocator.PagingInit | uva-os-world2/kernel/alloc.c:120-151 | `LOW_MEMORY` is the kernel end rounded up; `paging_pages` pages reach `HIGH_MEMORY`; the heap pages are reserved and `total` is the rest |
| Alloc.PageAllocator.ReserveMalloc | uva-os-world2/kernel/alloc.c:127-133 | the top `MALLOC_PAGES` pages are marked used |
| Alloc.PageAllocator.ReserveThenFree | uva-os-world2/kernel/alloc.c:101-116 | a successful reserve followed by a free succeeds and leaves the allocator unchanged |
| Mbox.ChannelWord | uva-os-world2/kernel/mbox.c:44 | the low 4 bits carry the channel and the rest carry the buffer address |
| Mbox.ChannelWordSplits | uva-os-world2/kernel/mbox.c:44 | for a 16-byte aligned buffer and a channel below 16, the word splits back into address and channel |
| Mbox.DetectScrDimMsgWellFormed | uva-os-world2/kernel/mbox.c:194-201 | the query is a well-formed 8-word property message |
| Mbox.VoffsetsMsgWellFormed | uva-os-world2/kernel/mbox.c:222-231 | the virtual-offset message is well formed, 8 words |
| Mbox.ReleaseMsgWellFormed | uva-os-world2/kernel/mbox.c:375-382 | the release message is well formed, 6 words |
| Mbox.FbInitMsgWellFormed | uva-os-world2/kernel/mbox.c:267-310 | the framebuffer request is a well-formed 35-word message |
| Mbox.FbInitLaterTags | uva-os-world2/kernel/mbox.c:294-310 | the tags from word 21 on (depth, pixel order, allocate, pitch) form a well-formed chain |
| Mbox.ScreenDims | uva-os-world2/kernel/mbox.c:208-213 | a reported width of 1184 or height of 624 (the Waveshare HAT's answer) becomes 480x320; other sizes pass through |
| Mbox.Defaulted | uva-os-world2/kernel/mbox.c:259-264 | the description with the detected size recorded and each zero dimension replaced by it |
| Mbox.Prepared | uva-os-world2/kernel/mbox.c:257-265 | on a real board with a successful detection the defaulted description, otherwise the current one |
| Mbox.Configured | uva-os-world2/kernel/mbox.c:316-328 | the description after an accepted reply: address masked to 30 bits, sizes, depth, pixel order and pitch from the reply, size the page-rounded pitch times virtual height |
| Mbox.DefaultedFillsZeros | uva-os-world2/kernel/mbox.c:257-264 | zero dimensions take the detected size; nonzero ones and all other fields are kept |
| Mbox.DefaultedIdempotent | uva-os-world2/kernel/mbox.c:257-264 | defaulting twice is defaulting once |
| Mbox.DefaultedNonzero | uva-os-world2/kernel/mbox.c:257-264 | with a nonzero detected size, every requested dimension is nonzero |
| Mbox.RoundUp32 | uva-os-world2/kernel/mbox.c:328 | the size is page aligned and, unless the 32-bit add wraps, the least such size not below the original |
| Mbox.RoundUpMask | uva-os-world2/kernel/mbox.c:328 | masking with `~4095` rounds down to a multiple of 4096 |
| Mbox.LowBitsMask | uva-os-world2/kernel/mbox.c:317 | masking with `0x3FFFFFFF` is the remainder modulo 2^30 |
| Mbox.FbAddress | uva-os-world2/kernel/mbox.c:317-318 | the bus address is turned into an ARM address below 1 GiB, unchanged when already below |
| Mbox.FbSize | uva-os-world2/kernel/mbox.c:328 | the size is pitch times virtual height, rounded up to a page |
| Mbox.Mailbox.constructor | uva-os-world2/kernel/mbox.c:156-180 | the framebuffer record starts with no buffer and depth 32; on QEMU it asks for 320x240, on hardware for the detected size |
| Mbox.Mailbox.Call | uva-os-world2/kernel/mbox.c:41-69 | the register receives buffer address and channel; the buffer then holds the reply; the result is success if and only if the reply code says so |
| Mbox.Mailbox.DetectScrDim | uva-os-world2/kernel/mbox.c:193-215 | sends the query; on success returns the reported size (a width of 1184 or a height of 624 replaced by 480x320), else -1 and leaves `w` and `h` unchanged |
| Mbox.Mailbox.SetVoffsets | uva-os-world2/kernel/mbox.c:220-245 | sends the offsets; 0 if and only if the call succeeded and the reply echoes both offsets, else -1 |
| Mbox.Mailbox.Put | uva-os-world2/kernel/mbox.c:267-310 | the message occupies the front of the buffer, and the rest is unchanged |
| Mbox.Mailbox.DetectDefaults | uva-os-world2/kernel/mbox.c:257-264 | the record becomes `Prepared` of the old one |
| Mbox.Mailbox.TakeReply | uva-os-world2/kernel/mbox.c:317-343 | the record takes the reply's fields, and the buffer is reserved in the page map; 0 on success, else -1 |
| Mbox.Mailbox.DoFbInit | uva-os-world2/kernel/mbox.c:251-344 | sends the 35-word request for the defaulted record; if the firmware rejects it, -2 with no memory change; else the record is configured and its pages reserved, 0 or -1 |
| Mbox.Mailbox.FbFini | uva-os-world2/kernel/mbox.c:362-396 | -1 when no framebuffer is held, with nothing changed; otherwise sends the release, clears the address and frees the pages, 0 or -2 |
| Mbox.Mailbox.InitThenFini | uva-os-world2/kernel/mbox.c:251-396 | a successful init followed by fini gives the pages back, leaving the page map as it was |
| Mbox.GlyphIndex | uva-os-world2/kernel/mbox.c:415-417 | the glyph index is inside the font, and a character outside it falls back to glyph 0 |
| Mbox.Glyphs | uva-os-world2/kernel/mbox.c:413-448 | at most one glyph per byte, each inside the font |
| Mbox.TailLength | uva-os-world2/kernel/mbox.c:423-445 | the printed run after the last line break is no longer than the string |
| Mbox.CursorRow | uva-os-world2/kernel/mbox.c:427-428 | `y` advances by one font height per newline |
| Mbox.CursorColumn | uva-os-world2/kernel/mbox.c:423-445 | `x` is 0 after any break (else the start), plus width+1 per glyph after the last break |
| Mbox.GlyphCount | uva-os-world2/kernel/mbox.c:423-445 | one glyph is drawn for each byte that is not `\r` or `\n` |
| Mbox.FbPrint | uva-os-world2/kernel/mbox.c:406-450 | the final cursor and the glyphs drawn are those the `Cursor` and `Glyphs` functions give |
| Mbox.Crop | uva-os-world2/kernel/mbox.c:463-487 | the image is cropped to the screen and centred, within one pixel; the byte offset is the left margin times the pixel size plus the top margin times the pitch; the text starts at the left margin, on the row below the image, or on its last row exactly when `vheight` and the cropped height are both odd |
| Mbox.CropFits | uva-os-world2/kernel/mbox.c:463-488 | every copied pixel lies inside the framebuffer |
| Donut.GridOfFour | kernel/donut.c:53-57 | with four donuts the grid is 2x2 and a cell is 320 pixels |
| Donut.LayoutSeparates | kernel/donut.c:57-64 | every cell lies on the canvas, and two donuts' cells are at least a cell apart |
| Donut.Canvas.constructor | kernel/donut.c:30-31 | the offset arrays exist, one entry per donut |
| Donut.Canvas.Layout | kernel/donut.c:53-64 | the grid is the least side whose square holds all donuts; the offsets are column and row times the cell |
| Donut.GridSide | kernel/donut.c:53-55 | the loop finds the least grid side whose square holds all donuts |
| Donut.Scale | kernel/donut.c:145-147 | the scale is at least 1, and 80 scaled columns fit a cell that is at least 80 wide |
| Donut.Luminance | kernel/donut.c:118-119 | the value lies in [0, 255], and it is `l/5` when that is in range |
| Donut.LuminanceMonotone | kernel/donut.c:118-119 | brighter input never gives a darker byte |
| Donut.Rgb | kernel/donut.c:204 | three bytes pack into 24 bits |
| Donut.RgbChannels | kernel/donut.c:204 | packing and unpacking recovers each channel |
| Donut.Int2Rgb | kernel/donut.c:183-205 | every colour fits in 24 bits |
| Donut.GreenBand | kernel/donut.c:186-190 | for 0..85 only green rises, three per step |
| Donut.CyanBand | kernel/donut.c:191-195 | for 86..170 red falls and blue rises; green is full |
| Donut.BlueBand | kernel/donut.c:196-200 | for 171..255 green falls; blue is full |
| Donut.InsideIndexInRange | kernel/donut.c:121-123 | a point that passes the guard has an index inside the 1760-byte buffers |
| Donut.Plotted | kernel/donut.c:121-129 | a depth-tested write keeps the buffer sizes |
| Donut.Rendered | kernel/donut.c:99-132 | rendering from cleared buffers keeps the buffer sizes |
| Donut.Nearest | kernel/donut.c:100-124 | the depth of a cell never exceeds the cleared value 127 |
| Donut.RenderedIsNearest | kernel/donut.c:99-132 | after rendering, each cell's depth is the least depth among points that hit it; its byte is the luminance of such a point, or the cleared value 0 with depth 127 |
| Donut.NearestOnlyFalls | kernel/donut.c:123-124 | plotting another point never raises a cell's depth |
| Donut.Buffers.constructor | kernel/donut.c:37-38 | allocates the two 1760-entry buffers |
| Donut.Buffers.Clear | kernel/donut.c:99-100 | the buffers are all 0 and all 127: the rendering of no points |
| Donut.Buffers.Plot | kernel/donut.c:121-129 | the buffers become `Plotted` of the old ones |
| Donut.Buffers.Render | kernel/donut.c:99-132 | the buffers hold the rendering of all points |
| Donut.Block | kernel/donut.c:156-168 | the four pixels of text cell `k`: column `k % 80` and row `k / 80 + 1`, scaled and offset, all in the colour of `b[k]` |
| Donut.Display | kernel/donut.c:152-175 | the pixels written for cells 0 .. n-1, in order, for the cells the loop shows |
| Donut.DisplayLoop | kernel/donut.c:150-175 | the loop draws, in order, the 2x2 block of each shown text cell |
| Donut.SetBlock | kernel/donut.c:156-168 | the block at the loop's `x`, `y` is the one `Block` gives for index `k` |
| Donut.DisplayInCell | kernel/donut.c:145-175 | when a cell is at least 80 pixels, every pixel drawn lies inside the donut's own cell, so `setpixel`'s guard holds and donuts do not overlap |

## Left out

- Locks (`sched_lock`, `timerlock`, `alloc_lock`, `mboxlock`) and multiple CPUs. `NCPU` is 1, as in `param.h`, and every operation runs with its lock held.
- The context switch (`cpu_switch_to`, `switch_to`'s register save): a switch is modelled by its update of `cpus[].proc` and of the two tasks' states.
- Several places in `sched.c` are left for students to write: the body of `wakeup_nolock`, the switch in `schedule`, the state change in `sleep`, the switch away in `exit_process` and the last step of `copy_process`. They are modelled from the comments beside them.
- Sched.Scheduler.Sleep: models the state change up to the switch away. Releasing `lk` and taking `sched_lock` (`sched.c` 361-364), and giving `sched_lock` back for `lk` after waking (389-401), are not modelled. The tidy-up after waking is `SleepReturn`.
- Sched.Scheduler.Wait: models one pass of the loop. A parent that blocks returns `Blocked` having slept on itself; the rescan after wakeup is another call.
- Sched.Scheduler.Schedule: the idle task's register state and `cpu_switch_to` are not modelled. The result is the state the switch leaves.
- Sched.Scheduler.TimerTick: the CPU-utilisation accounting (`sched.c` 241-253) and the interrupt enable and disable are not modelled.
- Sched.Scheduler.CopyProcess: does not model the copying of the kernel stack, the memory map and open files, the `name` string, or `memzero`. The child gets state, priority, credits, parent, pid and flags.
- `procdump`, `printf` and the debug macros are not modelled.
- `panic("init exiting")` in `exit_process` is a precondition of `ExitProcess`.
- The clock (`current_counter()`) is the parameter `now`. `sys_timer_irq`'s hardware handshake (`TIMER_CS`) and the `BUG_ON`s about the counter are not modelled.
- Timer handlers are foreign code. A call is recorded as a `Call` value, and handlers that re-enter the timer table are not modelled.
- Timer.TimerTable.Start: requires the deadline plus slack below 2^64, following the source's comment that the counter does not wrap.
- Timer.TimerTable.Start: stores the intended `Deadline`, not the 32-bit wrapped product that `timer.c` 255 computes (`DeadlineAsWritten`). The two agree for delays up to 4294967 ms (`DeadlinesAgreeBelowWrap`); the Findings table has the case where they differ.
- Timer: the clock is read once per operation, as `now`. `adjust_sys_timer` re-reads `current_counter()` at `timer.c` 200 and 214, so in the source the `BUG_ON` at 214 may fire, as the comment at 212-213 says; in the model it cannot.
- Plat: the bit-vector macros are proved on `bv64`. `Alloc` works on unbounded addresses through `RoundUpNat`.
- RoundUpNat: is not proved equal to `PgRoundUp` on `bv64` values below 2^64 - PAGE_SIZE. Both are proved to give the least page-aligned value at or above their input, each in its own arithmetic, but no lemma converts between the two.
- Alloc.PageAllocator: addresses are unbounded naturals, with preconditions that keep every region inside the map. The 64-bit wrap of `pa_start + size` is not modelled.
- Alloc.PageAllocator.FreePage: requires the page to be in use. The source does not check this, and freeing a free page would make the counter `paging_pages_used` negative.
- Mbox.Mailbox.DoFbInit: `mboxlock` is still held on the `-2` return (`mbox.c` 334). Locks are not modelled, so the model does not show the leak.
- Mbox.Mailbox.DoFbInit: the null check of the record (`mbox.c` 253) cannot fail, because the only record is `the_fb`. `BUG()` at 326-327 is `assert(0)`, which stops the kernel; the model instead continues past it as if it returned.
- Mbox.Mailbox.Call: the word recorded as written to the register is the buffer address with the channel, without the `BUS_ADDRESS` translation of `mbox.c` 45.
- Mbox.Mailbox.Call: the polling of the status registers and the check that the reply is for our channel are not modelled. The reply is a parameter.
- `fb.h`, `uvalogo.h` and the font binary are not part of this model. The font is a `Font` parameter; the image width, height and pixel size are parameters of `Crop`.
- Mbox.FbPrint: does not draw the glyph bitmaps into the framebuffer. It returns the glyph indexes drawn. It models `x` and `y` as unbounded, not as C `int`, which can overflow.
- Mbox.Crop: the image copy loop of `fb_showpicture` and its byte swap are not modelled, only the placement arithmetic.
- Donut: the rotation and projection maths (`R` macro, fixed-point sine and cosine) are not modelled. The points the torus produces are the input `pts`.
- Donut.Buffers: the depth `zz` is a C `signed char` computed by a shift. It is modelled as `int`, with the cleared value 127 as the upper bound.
- Donut.DisplayLoop: does not write the framebuffer through `setpixel`. It returns the sequence of pixel writes in order.
- `donut_canvas_init`'s calls of `fb_fini` and `fb_init` and the canvas size they set are not modelled. `Canvas.Layout` models the grid and offsets.
- Donut.Int2Rgb: its own contract states only the 24-bit bound. The colour of each band is stated by `GreenBand`, `CyanBand` and `BlueBand`, which `Int2Rgb` calls.
- `char b[]` is taken to be unsigned, as on AArch64.
- `yield()` and the endless `while (1)` of `donut_pixel` are not modelled; one frame is one `Render` and one `DisplayLoop`.

## Findings

| source | as written | input that shows it | evidently intended | confidence | as-written member | corrected member |
|---|---|---|---|---|---|---|
| uva-os-world2/kernel/timer.c:250-255 | `cur + TICKPERMS * delayms`: the product is `unsigned int`, so it wraps modulo 2^32, and the `BUG_ON` sees the same wrapped value | `delayms = 4294968` gives a deadline 704 ticks away, earlier than that of `delayms = 4294967` | the deadline is `delayms` milliseconds after `cur`, computed in 64 bits | high; not executed | Timer.DeadlineWrapExample | Timer.Deadline |
| uva-os-world2/kernel/timer.c:157-159 | `cur -= (*sec) * TICKPERSEC`: the product is `unsigned int`, so it wraps after 4295 s | `cur = 4295000000` gives `msec = 4294967` | `msec` is the milliseconds within the current second | high; not executed | Timer.CurrentTimeWrapExample | Timer.CurrentTime |
