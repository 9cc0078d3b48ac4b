/**
  The virtual timer table of the kernel (timer.c): twenty slots, each with a
  handler, a deadline in counter ticks and two opaque words, multiplexed
  onto compare register C1 of the 1 MHz system timer.

  The 64-bit hardware counter is an explicit `now` parameter, handlers are
  opaque values, and a handler call is recorded as a `Call` event on the
  table instead of being executed. `timerlock` is held by the callers.
*/
module Timer {

  const N_TIMERS: nat := 20
  /** The system counter runs at 1 MHz. */
  const CLOCKHZ: nat := 1000000
  const TICKPERSEC: nat := CLOCKHZ
  const TICKPERMS: nat := CLOCKHZ / 1000
  /** Slack added to the chosen deadline before it is written to C1 (10 ms). */
  const SLACK: nat := 10 * 1000

  const U32: nat := 0x1_0000_0000
  const U64_MAX: nat := 0xFFFF_FFFF_FFFF_FFFF
  const TWO_TO_64: nat := 0x1_0000_0000_0000_0000
  /**
    Deadlines stay below this bound, so that `elapseat + SLACK` never wraps
    (the 64-bit counter is assumed not to wrap around).
  */
  const COUNTER_LIMIT: nat := U64_MAX - SLACK

  /** One slot; a zero handler marks it free. */
  datatype VTimer = VTimer(handler: nat, elapseat: nat, param: nat, context: nat)

  /** A handler invocation `handler(id, param, context)`. */
  datatype Call = Call(handler: nat, id: nat, param: nat, context: nat)

  const FREE_SLOT := VTimer(0, 0, 0, 0)

  predicate Active(t: VTimer)
  {
    t.handler != 0
  }

  /**
    The slot is due: active and expired, strictly before `now` for
    adjust_sys_timer and ktimer_cancel, at or before `now` for sys_timer_irq.
  */
  predicate Due(t: VTimer, now: nat, inclusive: bool)
  {
    Active(t) && (if inclusive then t.elapseat <= now else t.elapseat < now)
  }

  function CallOf(ts: seq<VTimer>, i: nat): Call
    requires i < |ts|
  {
    Call(ts[i].handler, i, ts[i].param, ts[i].context)
  }

  /** The handler calls for the due slots, in slot order. */
  function Fired(ts: seq<VTimer>, now: nat, inclusive: bool): seq<Call>
  {
    if |ts| == 0 then []
    else
      var n := |ts| - 1;
      Fired(ts[..n], now, inclusive) + (if Due(ts[n], now, inclusive) then [CallOf(ts, n)] else [])
  }

  /** The table with every due slot's handler cleared; nothing else changes. */
  function Cleared(ts: seq<VTimer>, now: nat, inclusive: bool): (r: seq<VTimer>)
    ensures |r| == |ts|
  {
    seq(|ts|, i requires 0 <= i < |ts| => if Due(ts[i], now, inclusive) then ts[i].(handler := 0) else ts[i])
  }

  /** Every call made is that of a due slot. */
  lemma {:induction false} FiredOnlyDue(ts: seq<VTimer>, now: nat, inclusive: bool)
    ensures forall c :: c in Fired(ts, now, inclusive) ==>
              c.id < |ts| && Due(ts[c.id], now, inclusive) && c == CallOf(ts, c.id)
  {
    if |ts| > 0 {
      var n := |ts| - 1;
      FiredOnlyDue(ts[..n], now, inclusive);
      assert forall i :: 0 <= i < n ==> CallOf(ts[..n], i) == CallOf(ts, i);
    }
  }

  /** Calls are made in increasing slot order, so no slot fires twice. */
  lemma {:induction false} FiredInSlotOrder(ts: seq<VTimer>, now: nat, inclusive: bool)
    ensures forall k, m :: 0 <= k < m < |Fired(ts, now, inclusive)| ==>
              Fired(ts, now, inclusive)[k].id < Fired(ts, now, inclusive)[m].id
  {
    if |ts| > 0 {
      var n := |ts| - 1;
      FiredInSlotOrder(ts[..n], now, inclusive);
      FiredOnlyDue(ts[..n], now, inclusive);
      var f := Fired(ts[..n], now, inclusive);
      assert forall k :: 0 <= k < |f| ==> f[k] in f;
    }
  }

  /** Every due slot fires. */
  lemma {:induction false} FiredAllDue(ts: seq<VTimer>, now: nat, inclusive: bool)
    ensures forall i :: 0 <= i < |ts| && Due(ts[i], now, inclusive) ==> CallOf(ts, i) in Fired(ts, now, inclusive)
  {
    if |ts| > 0 {
      var n := |ts| - 1;
      FiredAllDue(ts[..n], now, inclusive);
      assert forall i :: 0 <= i < n ==> CallOf(ts[..n], i) == CallOf(ts, i) && ts[..n][i] == ts[i];
    }
  }

  /** After a clearing pass nothing is due any more, even under the inclusive test. */
  lemma ClearedIsQuiet(ts: seq<VTimer>, now: nat)
    ensures Cleared(Cleared(ts, now, true), now, false) == Cleared(ts, now, true)
    ensures Fired(Cleared(ts, now, true), now, false) == []
  {
    NothingDueFiresNothing(Cleared(ts, now, true), now, false);
  }

  lemma {:induction false} NothingDueFiresNothing(ts: seq<VTimer>, now: nat, inclusive: bool)
    requires forall i :: 0 <= i < |ts| ==> !Due(ts[i], now, inclusive)
    ensures Fired(ts, now, inclusive) == []
  {
    if |ts| > 0 {
      NothingDueFiresNothing(ts[..|ts| - 1], now, inclusive);
    }
  }

  /**
    The compare value adjust_sys_timer arrives at: starting from all ones,
    each active slot not yet expired whose deadline lies below the running
    value replaces it with its deadline plus SLACK.
  */
  function NextCompare(ts: seq<VTimer>, now: nat): nat
  {
    if |ts| == 0 then U64_MAX
    else
      var acc := NextCompare(ts[..|ts| - 1], now);
      var t := ts[|ts| - 1];
      if Active(t) && now <= t.elapseat < acc then t.elapseat + SLACK else acc
  }

  predicate Pending(t: VTimer, now: nat)
  {
    Active(t) && now <= t.elapseat
  }

  predicate DeadlinesBounded(ts: seq<VTimer>)
  {
    forall i :: 0 <= i < |ts| && Active(ts[i]) ==> ts[i].elapseat < COUNTER_LIMIT
  }

  /**
    The compare value is all ones exactly when no active slot is pending;
    otherwise it is some pending slot's deadline plus SLACK, so it is later
    than the `now` the scan used. The model reads the clock once per call;
    the BUG_ON after the scan re-reads it, and there a late read may still
    pass the compare value.
  */
  lemma {:induction false} NextCompareIsSomeDeadline(ts: seq<VTimer>, now: nat)
    requires DeadlinesBounded(ts)
    ensures NextCompare(ts, now) == U64_MAX <==> forall i :: 0 <= i < |ts| ==> !Pending(ts[i], now)
    ensures NextCompare(ts, now) != U64_MAX ==>
              exists i :: 0 <= i < |ts| && Pending(ts[i], now) && NextCompare(ts, now) == ts[i].elapseat + SLACK
    ensures now <= U64_MAX ==> now <= NextCompare(ts, now) <= U64_MAX
  {
    if |ts| > 0 {
      var n := |ts| - 1;
      assert DeadlinesBounded(ts[..n]);
      NextCompareIsSomeDeadline(ts[..n], now);
      if NextCompare(ts[..n], now) != U64_MAX {
        var i :| 0 <= i < n && Pending(ts[..n][i], now) && NextCompare(ts[..n], now) == ts[..n][i].elapseat + SLACK;
        assert Pending(ts[i], now);
      }
      if NextCompare(ts[..n], now) == U64_MAX && forall i :: 0 <= i < |ts| ==> !Pending(ts[i], now) {
        assert forall i :: 0 <= i < n ==> !Pending(ts[..n][i], now);
      }
    }
  }

  /**
    The compare value need not come from the earliest deadline: with pending
    deadlines 100 and 5000 in slots 0 and 1, C1 is set to 15000 and the first
    timer is served 14.9 ms late instead of within SLACK.
  */
  lemma CompareIsNotMinimum()
    ensures var ts := [VTimer(1, 100, 0, 0), VTimer(1, 5000, 0, 0)];
            NextCompare(ts, 0) == 15000 && NextCompare(ts, 0) > ts[0].elapseat + SLACK
  {
    var ts := [VTimer(1, 100, 0, 0), VTimer(1, 5000, 0, 0)];
    assert ts[..1] == [ts[0]];
    assert ts[..1][..0] == [];
  }

  /** One more slot of the scan in adjust_sys_timer. */
  lemma ScanStep(ts: seq<VTimer>, tt: nat, now: nat)
    requires tt < |ts| && DeadlinesBounded(ts) && now <= U64_MAX
    ensures NextCompare(ts[..tt + 1], now) ==
              var acc := NextCompare(ts[..tt], now);
              if Active(ts[tt]) && now <= ts[tt].elapseat < acc then ts[tt].elapseat + SLACK else acc
    ensures Fired(ts[..tt + 1], now, false) ==
              Fired(ts[..tt], now, false) + (if Due(ts[tt], now, false) then [CallOf(ts, tt)] else [])
    ensures now <= NextCompare(ts[..tt + 1], now)
  {
    assert ts[..tt + 1][..tt] == ts[..tt];
    assert DeadlinesBounded(ts[..tt + 1]);
    NextCompareIsSomeDeadline(ts[..tt + 1], now);
  }

  /** C1 after an adjustment: unchanged when nothing is pending, else the low 32 bits. */
  function CompareAfter(c1: nat, next: nat): nat
  {
    if next == U64_MAX then c1 else next % U32
  }

  // ---------------------------------------------------------------------
  // Deadlines of ktimer_start_nolock

  /**
    The deadline as written: `TICKPERMS * delayms` multiplies an int by an
    unsigned int, so the product is taken modulo 2^32 before it is added to
    the 64-bit counter.
  */
  function DeadlineAsWritten(now: nat, delayms: nat): nat
  {
    now + (TICKPERMS * delayms) % U32
  }

  /** The intended deadline: `delayms` milliseconds after `now`. */
  function Deadline(now: nat, delayms: nat): (r: nat)
    ensures r - now == delayms * TICKPERMS
  {
    now + TICKPERMS * delayms
  }

  /** Later requests get later deadlines. */
  lemma DeadlineMonotone(now: nat, d1: nat, d2: nat)
    requires d1 <= d2
    ensures Deadline(now, d1) <= Deadline(now, d2)
  {
  }

  /** Both agree as long as the product fits in 32 bits (delays up to 4294967 ms). */
  lemma DeadlinesAgreeBelowWrap(now: nat, delayms: nat)
    requires delayms <= 4294967
    ensures DeadlineAsWritten(now, delayms) == Deadline(now, delayms)
  {
  }

  /**
    One millisecond more than that, the written deadline falls 704 ticks
    after `now`: a 71.6-minute timer fires after 0.7 ms, earlier than a
    shorter request.
  */
  lemma DeadlineWrapExample(now: nat)
    ensures DeadlineAsWritten(now, 4294968) == now + 704
    ensures Deadline(now, 4294968) == now + 4294968000
    ensures DeadlineAsWritten(now, 4294968) < DeadlineAsWritten(now, 4294967)
  {
  }

  // ---------------------------------------------------------------------
  // current_time

  datatype Clock = Clock(sec: nat, msec: nat)

  /**
    current_time as written: `(*sec) * TICKPERSEC` is an unsigned 32-bit
    product, so after 4295 seconds the subtracted amount wraps and the
    remainder is no longer below one second.
  */
  function CurrentTimeAsWritten(cur: nat): Clock
  {
    var sec := (cur / TICKPERSEC) % U32;
    var rest := (cur - (sec * TICKPERSEC) % U32) % TWO_TO_64;
    Clock(sec, (rest / TICKPERMS) % U32)
  }

  /** The intended split of the counter into seconds and milliseconds. */
  function CurrentTime(cur: nat): Clock
  {
    Clock((cur / TICKPERSEC) % U32, (cur % TICKPERSEC) / TICKPERMS)
  }

  /**
    The milliseconds are below 1000 and, while the seconds fit in 32 bits,
    seconds and milliseconds together are the counter in milliseconds.
  */
  lemma CurrentTimeSplits(cur: nat)
    ensures CurrentTime(cur).msec < 1000
    ensures cur < U32 * TICKPERSEC ==> CurrentTime(cur).sec * 1000 + CurrentTime(cur).msec == cur / 1000
  {
    var q := cur / TICKPERSEC;
    var r := cur % TICKPERSEC;
    assert cur == q * 1000000 + r;
    assert cur / 1000 == q * 1000 + r / 1000 by {
      assert cur == (q * 1000 + r / 1000) * 1000 + r % 1000;
    }
  }

  /** The written version agrees with the intended one during the first 4295 seconds. */
  lemma CurrentTimeAgreesBeforeWrap(cur: nat)
    requires cur < 4295 * TICKPERSEC
    ensures CurrentTimeAsWritten(cur) == CurrentTime(cur)
  {
    var sec := cur / TICKPERSEC;
    assert sec < 4295;
    assert sec % U32 == sec;
    assert sec * TICKPERSEC < U32;
    assert (sec * TICKPERSEC) % U32 == sec * TICKPERSEC;
    assert 0 <= cur - sec * TICKPERSEC == cur % TICKPERSEC < TWO_TO_64;
    assert (cur - sec * TICKPERSEC) % TWO_TO_64 == cur % TICKPERSEC;
    assert (cur % TICKPERSEC) / TICKPERMS < U32;
  }

  /** At 4295 seconds the written version reports 4294967 milliseconds instead of 0. */
  lemma CurrentTimeWrapExample()
    ensures CurrentTimeAsWritten(4295000000) == Clock(4295, 4294967)
    ensures CurrentTime(4295000000) == Clock(4295, 0)
  {
  }

  // ---------------------------------------------------------------------
  // The table

  class TimerTable {
    /** timers[N_TIMERS] */
    const timers: array<VTimer>
    /** Handler calls made so far, oldest first. */
    var fired: seq<Call>
    /** The value last written to compare register C1. */
    var c1: nat

    ghost predicate Valid()
      reads this, timers
    {
      timers.Length == N_TIMERS && DeadlinesBounded(timers[..]) && c1 < U32
    }

    /** sys_timer_init: every slot zeroed. */
    constructor (c1Reset: nat)
      requires c1Reset < U32
      ensures Valid() && fresh(timers)
      ensures timers[..] == seq(N_TIMERS, _ => FREE_SLOT) && fired == [] && c1 == c1Reset
    {
      timers := new VTimer[N_TIMERS](_ => FREE_SLOT);
      fired := [];
      c1 := c1Reset;
    }

    /**
      adjust_sys_timer(): fires and clears the slots found expired, and
      writes the low 32 bits of the chosen compare value to C1 unless no slot
      is pending. Returns the compare value, which is never earlier than now.
    */
    method AdjustSysTimer(now: nat) returns (next: nat)
      requires Valid() && now <= U64_MAX
      modifies this, timers
      ensures Valid()
      ensures timers[..] == Cleared(old(timers[..]), now, false)
      ensures fired == old(fired) + Fired(old(timers[..]), now, false)
      ensures next == NextCompare(old(timers[..]), now) && now <= next
      ensures c1 == CompareAfter(old(c1), next)
    {
      ghost var ts := timers[..];
      ghost var f0 := fired;
      next := U64_MAX;
      NextCompareIsSomeDeadline(ts[..0], now);
      for tt := 0 to N_TIMERS
        invariant next == NextCompare(ts[..tt], now) && now <= next
        invariant fired == f0 + Fired(ts[..tt], now, false)
        invariant forall j :: 0 <= j < tt ==> timers[j] == Cleared(ts, now, false)[j]
        invariant forall j :: tt <= j < N_TIMERS ==> timers[j] == ts[j]
        invariant c1 == old(c1)
      {
        ScanStep(ts, tt, now);
        if timers[tt].handler == 0 {
          continue;
        }
        if timers[tt].elapseat < next {
          if timers[tt].elapseat < now {
            fired := fired + [Call(timers[tt].handler, tt, timers[tt].param, timers[tt].context)];
            timers[tt] := timers[tt].(handler := 0);
          } else {
            next := timers[tt].elapseat + SLACK;
          }
        }
      }
      assert ts[..N_TIMERS] == ts;
      assert timers[..] == Cleared(ts, now, false);
      if next == U64_MAX {
        return;
      }
      c1 := next % U32;
    }

    /**
      ktimer_start_nolock / ktimer_start: the lowest free slot takes the
      handler, param and context and a deadline `delayms` ms after `now`,
      then the comparator is adjusted; -1 with nothing changed when all
      slots are taken.
    */
    method Start(delayms: nat, handler: nat, param: nat, context: nat, now: nat) returns (t: int)
      requires Valid() && delayms < U32 && now <= U64_MAX
      requires Deadline(now, delayms) < COUNTER_LIMIT
      modifies this, timers
      ensures Valid()
      ensures t == -1 <==> forall i :: 0 <= i < N_TIMERS ==> Active(old(timers[i]))
      ensures t == -1 ==> timers[..] == old(timers[..]) && fired == old(fired) && c1 == old(c1)
      ensures t >= 0 ==>
                && t < N_TIMERS && !Active(old(timers[t]))
                && (forall i :: 0 <= i < t ==> Active(old(timers[i])))
                && var ts1 := old(timers[..])[t := VTimer(handler, Deadline(now, delayms), param, context)];
                   && timers[..] == Cleared(ts1, now, false)
                   && fired == old(fired) + Fired(ts1, now, false)
                   && c1 == CompareAfter(old(c1), NextCompare(ts1, now))
      ensures t >= 0 ==> timers[t] == VTimer(handler, Deadline(now, delayms), param, context)
    {
      var i := FirstFree();
      if i == N_TIMERS {
        return -1;
      }
      ghost var ts1 := timers[..][i := VTimer(handler, Deadline(now, delayms), param, context)];
      timers[i] := VTimer(handler, now + TICKPERMS * delayms, param, context);
      assert timers[..] == ts1;
      assert Valid();
      var _ := AdjustSysTimer(now);
      return i;
    }

    /** The search loop of ktimer_start: the first slot with no handler, or N_TIMERS. */
    method FirstFree() returns (i: nat)
      requires Valid()
      ensures i <= N_TIMERS
      ensures forall k :: 0 <= k < i ==> Active(timers[k])
      ensures i < N_TIMERS ==> !Active(timers[i])
    {
      i := 0;
      while i < N_TIMERS
        invariant 0 <= i <= N_TIMERS
        invariant forall k :: 0 <= k < i ==> Active(timers[k])
      {
        if timers[i].handler == 0 {
          return;
        }
        i := i + 1;
      }
    }

    /**
      ktimer_cancel(t): -1 for an id outside the table or a free slot; -2
      for a slot whose deadline has passed, which is cleared (handler, param
      and context) without touching the comparator; otherwise 0, the handler
      is cleared and the comparator adjusted.
    */
    method Cancel(t: int, now: nat) returns (r: int)
      requires Valid() && now <= U64_MAX
      modifies this, timers
      ensures Valid()
      ensures r == -1 <==> t < 0 || t >= N_TIMERS || !Active(old(timers[t]))
      ensures r == -1 ==> timers[..] == old(timers[..]) && fired == old(fired) && c1 == old(c1)
      ensures r == -2 <==> 0 <= t < N_TIMERS && Active(old(timers[t])) && old(timers[t]).elapseat < now
      ensures r == -2 ==>
                && timers[..] == old(timers[..])[t := old(timers[t]).(handler := 0, context := 0, param := 0)]
                && fired == old(fired) && c1 == old(c1)
      ensures r == 0 ==>
                var ts1 := old(timers[..])[t := old(timers[t]).(handler := 0)];
                && timers[..] == Cleared(ts1, now, false)
                && fired == old(fired) + Fired(ts1, now, false)
                && c1 == CompareAfter(old(c1), NextCompare(ts1, now))
      ensures r in {-2, -1, 0}
    {
      if t < 0 || t >= N_TIMERS {
        return -1;
      }
      if timers[t].handler == 0 {
        return -1;
      }
      if timers[t].elapseat < now {
        timers[t] := timers[t].(handler := 0, context := 0, param := 0);
        return -2;
      }
      timers[t] := timers[t].(handler := 0);
      var _ := AdjustSysTimer(now);
      return 0;
    }

    /**
      sys_timer_irq(): every active slot due at `now` is cleared and then its
      handler called, in slot order; then the comparator is adjusted (which
      finds nothing more to fire).
    */
    method SysTimerIrq(now: nat)
      requires Valid() && now <= U64_MAX
      modifies this, timers
      ensures Valid()
      ensures timers[..] == Cleared(old(timers[..]), now, true)
      ensures fired == old(fired) + Fired(old(timers[..]), now, true)
      ensures c1 == CompareAfter(old(c1), NextCompare(Cleared(old(timers[..]), now, true), now))
    {
      ghost var ts := timers[..];
      ghost var f0 := fired;
      for t := 0 to N_TIMERS
        invariant fired == f0 + Fired(ts[..t], now, true)
        invariant forall j :: 0 <= j < t ==> timers[j] == Cleared(ts, now, true)[j]
        invariant forall j :: t <= j < N_TIMERS ==> timers[j] == ts[j]
        invariant c1 == old(c1)
      {
        assert ts[..t + 1][..t] == ts[..t];
        var h := timers[t].handler;
        if h == 0 {
          continue;
        }
        if timers[t].elapseat <= now {
          timers[t] := timers[t].(handler := 0);
          fired := fired + [Call(h, t, timers[t].param, timers[t].context)];
        }
      }
      assert ts[..N_TIMERS] == ts;
      assert timers[..] == Cleared(ts, now, true);
      ClearedIsQuiet(ts, now);
      var _ := AdjustSysTimer(now);
    }
  }

  /**
    The scenario of the timer unit test: a 500 ms timer cancelled 100 ms
    after it was started is still pending, so the cancel returns 0 (>= 0)
    and the slot is free again.
  */
  method CancelBeforeExpiry(tt: TimerTable, now: nat) returns (t: int, c: int)
    requires tt.Valid() && Deadline(now, 500) < COUNTER_LIMIT
    modifies tt, tt.timers
    ensures t < N_TIMERS
    ensures t >= 0 ==> c == 0 && !Active(tt.timers[t])
  {
    t := tt.Start(500, 1, 0xdeadbeef, 0xdeaddeed, now);
    if t >= 0 {
      c := tt.Cancel(t, now + 100 * TICKPERMS);
    } else {
      c := -1;
    }
  }
}
