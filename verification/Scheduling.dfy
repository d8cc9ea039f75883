/** Round-robin scheduling as a state machine on values: the ring of processes in ring order, the
    index of the current one, and the quantum counter. */
module Scheduling {
  import opened Dyadic

  /** Process states as numbered in the source, where a zombie and a running process share 1. */
  const RUNNING: nat := 1
  const ZOMBIE: nat := 1
  const SLEEPING: nat := 2
  const READY: nat := 4
  const MAX_ATTEMPTS: nat := 100
  const U64: nat := 0x1_0000_0000_0000_0000

  datatype Proc = Proc(state: nat, runtime: nat, lastScheduled: nat, slices: nat)

  /** cur means nothing while there is no process. */
  datatype Sched = Sched(procs: seq<Proc>, cur: nat, since: nat, quantum: nat, ready: bool)

  predicate WellFormed(s: Sched) {
    s.procs != [] ==> s.cur < |s.procs|
  }

  predicate Runnable(p: Proc) {
    p.state != ZOMBIE && p.state != SLEEPING
  }

  /** The process k places after the current one. */
  function After(n: nat, cur: nat, k: nat): (i: nat)
    requires n > 0
    ensures i < n
  {
    (cur + k) % n
  }

  /** The first runnable process at distance k, k + 1, ... MAX_ATTEMPTS, else the current one. */
  function PickFrom(procs: seq<Proc>, cur: nat, k: nat): (i: nat)
    requires cur < |procs|
    ensures i < |procs|
    decreases MAX_ATTEMPTS + 1 - k
  {
    if k > MAX_ATTEMPTS then cur
    else if Runnable(procs[After(|procs|, cur, k)]) then After(|procs|, cur, k)
    else PickFrom(procs, cur, k + 1)
  }

  /** now - last on 64 bits. */
  function Elapsed(now: nat, last: nat): nat {
    (now - last) % U64
  }

  /** The switch from process i to process j. */
  function Switch(procs: seq<Proc>, i: nat, j: nat, now: nat): (r: seq<Proc>)
    requires i < |procs| && j < |procs| && i != j
    ensures |r| == |procs|
  {
    var p := procs[i];
    var from := if p.state == RUNNING
      then p.(runtime := p.runtime + Elapsed(now, p.lastScheduled), state := READY) else p;
    procs[i := from][j := procs[j].(state := RUNNING, lastScheduled := now, slices := procs[j].slices + 1)]
  }

  function Schedule(s: Sched, now: nat): (r: Sched)
    requires s.procs != [] && WellFormed(s)
    ensures WellFormed(r) && |r.procs| == |s.procs|
  {
    var j := PickFrom(s.procs, s.cur, 1);
    if j == s.cur then s else s.(procs := Switch(s.procs, s.cur, j, now), cur := j)
  }

  /** A timer interrupt. */
  function Tick(s: Sched, now: nat): (r: Sched)
    requires WellFormed(s)
    ensures WellFormed(r) && |r.procs| == |s.procs|
  {
    if !s.ready || s.procs == [] then s
    else if s.procs[s.cur].state != RUNNING || s.since + 1 >= s.quantum
    then Schedule(s.(since := 0), now)
    else s.(since := s.since + 1)
  }

  /** Enqueueing a process at the end of the ring. The first one, or one that is forced to be, becomes
      the current one; any other waits its turn. */
  function Enqueue(s: Sched, p: Proc, makeCurrent: bool, now: nat): (r: Sched)
    requires WellFormed(s)
    ensures WellFormed(r) && |r.procs| == |s.procs| + 1
  {
    if s.procs == [] || makeCurrent
    then s.(procs := Demoted(s) + [p.(state := RUNNING, lastScheduled := now, slices := 0)],
            cur := |s.procs|, since := 0)
    else s.(procs := s.procs + [p.(state := READY)])
  }

  /** The processes once the current one no longer runs. */
  function Demoted(s: Sched): (procs: seq<Proc>)
    requires WellFormed(s)
    ensures |procs| == |s.procs|
  {
    if s.procs != [] && s.procs[s.cur].state == RUNNING
    then s.procs[s.cur := s.procs[s.cur].(state := READY)] else s.procs
  }

  /** What addProcess enqueues: only the first process is made current. */
  function Add(s: Sched, p: Proc, now: nat): (r: Sched)
    requires WellFormed(s)
    ensures WellFormed(r) && |r.procs| == |s.procs| + 1
  {
    Enqueue(s, p, s.procs == [], now)
  }

  /** Ticks in 20 ms at a timer frequency, on 32 bits, but at least one; 0 stands for 100 Hz. */
  function Quantum(frequency: nat): (ticks: nat)
    ensures ticks > 0
  {
    var f := if frequency == 0 then 100 else frequency;
    var ticks := ((f * 20) % 0x1_0000_0000) / 1000;
    if ticks == 0 then 1 else ticks
  }

  // ---- one process runs ----

  /** The current process is the only one in state RUNNING; the others are ready or asleep. */
  ghost predicate OneRunning(s: Sched) {
    && WellFormed(s)
    && forall i :: 0 <= i < |s.procs| ==>
      if i == s.cur then s.procs[i].state == RUNNING
      else s.procs[i].state == READY || s.procs[i].state == SLEEPING
  }

  lemma {:induction false} PickIsRunnableOrCurrent(procs: seq<Proc>, cur: nat, k: nat)
    requires cur < |procs|
    ensures var j := PickFrom(procs, cur, k);
            j == cur || Runnable(procs[j])
    decreases MAX_ATTEMPTS + 1 - k
  {
    if k <= MAX_ATTEMPTS { PickIsRunnableOrCurrent(procs, cur, k + 1); }
  }

  lemma TickKeepsOneRunning(s: Sched, now: nat)
    requires OneRunning(s)
    ensures OneRunning(Tick(s, now))
    ensures forall i :: 0 <= i < |s.procs| ==>
      (s.procs[i].state == SLEEPING <==> Tick(s, now).procs[i].state == SLEEPING)
  {
    if s.procs != [] { PickIsRunnableOrCurrent(s.procs, s.cur, 1); }
  }

  lemma EnqueueKeepsOneRunning(s: Sched, p: Proc, makeCurrent: bool, now: nat)
    requires OneRunning(s)
    ensures OneRunning(Enqueue(s, p, makeCurrent, now))
  {
  }

  // ---- bounded waiting ----

  /** How many places p is after the current process: 0 if it is current. */
  function Distance(s: Sched, p: nat): (d: nat)
    requires s.cur < |s.procs| && p < |s.procs|
    ensures d < |s.procs| && After(|s.procs|, s.cur, d) == p
  {
    DistanceIsAfter(|s.procs|, s.cur, p);
    if p >= s.cur then p - s.cur else p + |s.procs| - s.cur
  }

  lemma DistanceIsAfter(n: nat, cur: nat, p: nat)
    requires cur < n && p < n
    ensures After(n, cur, if p >= cur then p - cur else p + n - cur) == p
  {
  }

  /** The pick never passes a runnable process within reach. */
  lemma {:induction false} PickIsNearest(procs: seq<Proc>, cur: nat, k: nat, d: nat) returns (e: nat)
    requires cur < |procs| && k <= d <= MAX_ATTEMPTS
    requires Runnable(procs[After(|procs|, cur, d)])
    ensures k <= e <= d && PickFrom(procs, cur, k) == After(|procs|, cur, e)
    decreases d - k
  {
    if Runnable(procs[After(|procs|, cur, k)]) { e := k; } else { e := PickIsNearest(procs, cur, k + 1, d); }
  }

  lemma DistanceShrinks(n: nat, cur: nat, p: nat, e: nat, d: nat)
    requires cur < n && p < n && 1 <= e <= d < n && After(n, cur, d) == p
    ensures var c := After(n, cur, e);
            (if p >= c then p - c else p + n - c) == d - e
  {
    AfterCases(n, cur, e);
    AfterCases(n, cur, d);
  }

  lemma AfterCases(n: nat, cur: nat, k: nat)
    requires cur < n && k < n
    ensures After(n, cur, k) == if cur + k < n then cur + k else cur + k - n
  {
    if cur + k < n { DivUnique(cur + k, n, 0, cur + k); } else { DivUnique(cur + k, n, 1, cur + k - n); }
  }

  /** The MAX_ATTEMPTS processes from distance o on can all not run. */
  ghost predicate Gap(s: Sched, o: nat)
    requires s.cur < |s.procs|
  {
    forall i {:trigger After(|s.procs|, s.cur, i)} :: o <= i < o + MAX_ATTEMPTS ==>
      !Runnable(s.procs[After(|s.procs|, s.cur, i)])
  }

  /** There is such a gap between the current process and process p. */
  ghost predicate GapBefore(s: Sched, p: nat)
    requires s.cur < |s.procs| && p < |s.procs|
  {
    exists o: nat {:trigger Gap(s, o)} :: 1 <= o && o + MAX_ATTEMPTS <= Distance(s, p) && Gap(s, o)
  }

  /** The first hop to a runnable process, if it does not lead past p. */
  lemma FirstHop(s: Sched, p: nat) returns (e: nat)
    requires s.cur < |s.procs| && p < |s.procs| && p != s.cur && Runnable(s.procs[p]) && !GapBefore(s, p)
    ensures 1 <= e <= MAX_ATTEMPTS && e <= Distance(s, p) && PickFrom(s.procs, s.cur, 1) == After(|s.procs|, s.cur, e)
  {
    var n, d := |s.procs|, Distance(s, p);
    var i := d;
    if d > MAX_ATTEMPTS {
      assert !Gap(s, 1);
      i :| 1 <= i < 1 + MAX_ATTEMPTS && Runnable(s.procs[After(n, s.cur, i)]);
    }
    e := PickIsNearest(s.procs, s.cur, 1, i);
  }

  /** The processes between the new current one and p are those that were behind it before. */
  lemma AheadStays(s: Sched, now: nat, p: nat, e: nat)
    requires OneRunning(s) && p < |s.procs| && p != s.cur && 1 <= e <= Distance(s, p)
    requires PickFrom(s.procs, s.cur, 1) == After(|s.procs|, s.cur, e)
    ensures var r, n := Schedule(s, now), |s.procs|;
      && r.cur == After(n, s.cur, e) && Distance(r, p) == Distance(s, p) - e
      && (forall i {:trigger After(n, r.cur, i)} :: 1 <= i <= Distance(r, p) ==>
            After(n, r.cur, i) == After(n, s.cur, e + i)
            && r.procs[After(n, r.cur, i)] == s.procs[After(n, s.cur, e + i)])
  {
    var n, d := |s.procs|, Distance(s, p);
    DistanceShrinks(n, s.cur, p, e, d);
    AfterCases(n, s.cur, e);
    var r := Schedule(s, now);
    hide PickFrom, OneRunning;
    forall i {:trigger After(n, r.cur, i)} | 1 <= i <= Distance(r, p)
      ensures After(n, r.cur, i) == After(n, s.cur, e + i)
      ensures r.procs[After(n, r.cur, i)] == s.procs[After(n, s.cur, e + i)]
    {
      AfterAdds(n, s.cur, e, i);
    }
  }

  lemma AfterAdds(n: nat, cur: nat, e: nat, i: nat)
    requires cur < n && 1 <= e && 1 <= i && e + i < n
    ensures var j := After(n, cur, e + i);
      After(n, After(n, cur, e), i) == j && j != cur && j != After(n, cur, e)
  {
    AfterCases(n, cur, e);
    AfterCases(n, cur, e + i);
    AfterCases(n, After(n, cur, e), i);
  }

  /** A switch brings every ready process without a gap before it closer to its turn, and leaves no gap. */
  lemma ScheduleComesCloser(s: Sched, now: nat, p: nat)
    requires OneRunning(s) && p < |s.procs| && p != s.cur && s.procs[p].state == READY && !GapBefore(s, p)
    ensures var r := Schedule(s, now);
            Distance(r, p) < Distance(s, p) && (r.cur == p || (r.procs[p].state == READY && !GapBefore(r, p)))
  {
    var n := |s.procs|;
    assert WellFormed(s);
    hide Gap, OneRunning;
    var e := FirstHop(s, p);
    AheadStays(s, now, p, e);
    var r := Schedule(s, now);
    if r.cur != p {
      assert After(n, r.cur, Distance(r, p)) == p == After(n, s.cur, e + Distance(r, p));
      forall o: nat | 1 <= o && o + MAX_ATTEMPTS <= Distance(r, p) ensures !Gap(r, o) {
        assert !Gap(s, e + o);
        GapMoves(s, r, p, e, o);
      }
    }
  }

  lemma GapMoves(s: Sched, r: Sched, p: nat, e: nat, o: nat)
    requires s.cur < |s.procs| == |r.procs| && r.cur < |r.procs| && p < |s.procs|
    requires 1 <= o && o + MAX_ATTEMPTS <= Distance(r, p)
    requires forall i {:trigger After(|s.procs|, r.cur, i)} :: 1 <= i <= Distance(r, p) ==>
      After(|s.procs|, r.cur, i) == After(|s.procs|, s.cur, e + i)
      && r.procs[After(|s.procs|, r.cur, i)] == s.procs[After(|s.procs|, s.cur, e + i)]
    ensures Gap(r, o) <==> Gap(s, e + o)
  {
    hide After, Runnable, Distance;
    var n := |s.procs|;
    if Gap(r, o) {
      forall i | e + o <= i < e + o + MAX_ATTEMPTS ensures !Runnable(s.procs[After(n, s.cur, i)]) {
        assert After(n, r.cur, i - e) == After(n, s.cur, e + (i - e));
      }
    }
  }

  /** Running the scheduler through ticks at the given times, and nothing else. */
  function Ticks(s: Sched, times: seq<nat>): (r: Sched)
    requires WellFormed(s)
    ensures WellFormed(r) && |r.procs| == |s.procs|
    decreases |times|
  {
    if times == [] then s else Ticks(Tick(s, times[0]), times[1..])
  }

  /** The ticks a process at distance d may have to wait: the rest of this quantum and d - 1 more. */
  function WaitBound(s: Sched, d: nat): nat
    requires d > 0
  {
    (d - 1) * s.quantum + (if s.since + 1 >= s.quantum then 1 else s.quantum - s.since)
  }

  /** Bounded waiting: a ready process without a gap before it becomes current after at most WaitBound
      ticks, whatever the times of the ticks. */
  lemma {:induction false} ReadyProcessGetsItsTurn(s: Sched, p: nat, times: seq<nat>) returns (t: nat)
    requires OneRunning(s) && s.ready && s.quantum > 0
    requires p < |s.procs| && p != s.cur && s.procs[p].state == READY
    requires !GapBefore(s, p) && WaitBound(s, Distance(s, p)) <= |times|
    ensures 0 < t <= WaitBound(s, Distance(s, p)) && Ticks(s, times[..t]).cur == p
    decreases |times|
  {
    var d := Distance(s, p);
    assert WellFormed(s) && d > 0;
    WaitIsPositive(s, d);
    hide GapBefore, OneRunning, Distance, WaitBound, Tick, After;
    TickComesCloser(s, times[0], p);
    var r := Tick(s, times[0]);
    assert Ticks(s, times[..1]) == r by { assert times[..1][1..] == []; }
    if r.cur == p {
      t := 1;
    } else {
      StillInTime(s, r, d, Distance(r, p));
      var u := ReadyProcessGetsItsTurn(r, p, times[1..]);
      t := u + 1;
      assert times[..t][1..] == times[1..][..u];
    }
  }

  /** A tick takes one tick off the quantum, or brings p closer. */
  lemma TickComesCloser(s: Sched, now: nat, p: nat)
    requires OneRunning(s) && s.ready && s.quantum > 0
    requires p < |s.procs| && p != s.cur && s.procs[p].state == READY && !GapBefore(s, p)
    ensures var r := Tick(s, now);
      && OneRunning(r) && r.ready && r.quantum == s.quantum && p < |r.procs| && 0 < Distance(s, p)
      && (r.cur != p ==> r.procs[p].state == READY && !GapBefore(r, p) && 0 < Distance(r, p))
      && (if s.since + 1 >= s.quantum then r.since == 0 && Distance(r, p) < Distance(s, p)
          else r.since == s.since + 1 && Distance(r, p) == Distance(s, p))
  {
    hide GapBefore;
    TickKeepsOneRunning(s, now);
    if s.since + 1 >= s.quantum {
      GapAsIs(s, s.(since := 0), p);
      ScheduleComesCloser(s.(since := 0), now, p);
    } else {
      GapAsIs(s, Tick(s, now), p);
    }
  }

  lemma GapAsIs(s: Sched, r: Sched, p: nat)
    requires s.cur < |s.procs| && p < |s.procs| && r.procs == s.procs && r.cur == s.cur
    ensures GapBefore(r, p) <==> GapBefore(s, p)
  {
    assert forall o: nat :: Gap(s, o) <==> Gap(r, o);
  }

  lemma WaitIsPositive(s: Sched, d: nat)
    requires d > 0
    ensures WaitBound(s, d) > 0
  {
    assert (d - 1) * s.quantum >= 0;
  }

  lemma StillInTime(s: Sched, r: Sched, d: nat, e: nat)
    requires 0 < e <= d && s.quantum == r.quantum > 0
    requires if s.since + 1 >= s.quantum then r.since == 0 && e < d else r.since == s.since + 1 && e == d
    ensures WaitBound(r, e) + 1 <= WaitBound(s, d)
  {
    if e < d {
      MulMonotone(e, d - 1, s.quantum);
      assert (e - 1) * s.quantum + s.quantum == e * s.quantum;
    }
  }

  lemma AfterNext(n: nat, cur: nat, k: nat)
    requires cur < n
    ensures After(n, cur, k + 1) == if After(n, cur, k) + 1 < n then After(n, cur, k) + 1 else 0
  {
    var q := (cur + k) / n;
    assert cur + k == q * n + After(n, cur, k);
    if After(n, cur, k) + 1 < n {
      DivUnique(cur + k + 1, n, q, After(n, cur, k) + 1);
    } else {
      assert (q + 1) * n == q * n + n;
      DivUnique(cur + k + 1, n, q + 1, 0);
    }
  }

  // ---- who starves ----

  /** A switch never leads to the other side of a gap. */
  lemma ScheduleKeepsGap(s: Sched, now: nat, p: nat)
    requires OneRunning(s) && p < |s.procs| && p != s.cur && GapBefore(s, p)
    ensures GapBefore(Schedule(s, now), p) && Schedule(s, now).cur != p
  {
    assert WellFormed(s);
    hide Gap, OneRunning;
    var o: nat :| 1 <= o && o + MAX_ATTEMPTS <= Distance(s, p) && Gap(s, o);
    var n, r := |s.procs|, Schedule(s, now);
    if PickFrom(s.procs, s.cur, 1) != s.cur {
      var e := PickBeforeGap(s, o);
      AheadStays(s, now, p, e);
      GapMoves(s, r, p, e, o - e);
    }
  }

  /** The search finds nothing, or something in front of the gap. */
  lemma PickBeforeGap(s: Sched, o: nat) returns (e: nat)
    requires s.cur < |s.procs| && 1 <= o && o + MAX_ATTEMPTS < |s.procs| && Gap(s, o)
    requires PickFrom(s.procs, s.cur, 1) != s.cur
    ensures 1 <= e < o && PickFrom(s.procs, s.cur, 1) == After(|s.procs|, s.cur, e)
  {
    e := PickIsSomewhere(s.procs, s.cur, 1);
    assert After(|s.procs|, s.cur, e) == PickFrom(s.procs, s.cur, 1);
  }

  lemma {:induction false} PickIsSomewhere(procs: seq<Proc>, cur: nat, k: nat) returns (e: nat)
    requires cur < |procs| && PickFrom(procs, cur, k) != cur
    ensures k <= e <= MAX_ATTEMPTS && PickFrom(procs, cur, k) == After(|procs|, cur, e)
    ensures Runnable(procs[After(|procs|, cur, e)])
    decreases MAX_ATTEMPTS + 1 - k
  {
    if Runnable(procs[After(|procs|, cur, k)]) { e := k; } else { e := PickIsSomewhere(procs, cur, k + 1); }
  }

  /** A process behind a gap never becomes current. */
  lemma {:induction false} GapStarves(s: Sched, p: nat, times: seq<nat>)
    requires OneRunning(s) && p < |s.procs| && p != s.cur && GapBefore(s, p)
    ensures Ticks(s, times).cur != p
    decreases |times|
  {
    hide GapBefore;
    if times != [] {
      var r := Tick(s, times[0]);
      TickKeepsOneRunning(s, times[0]);
      GapAsIs(s, s.(since := 0), p);
      if r.procs == s.procs && r.cur == s.cur { GapAsIs(s, r, p); }
      ScheduleKeepsGap(s.(since := 0), times[0], p);
      GapStarves(r, p, times[1..]);
    }
  }

  ghost predicate GetsTurn(s: Sched, p: nat, times: seq<nat>)
  {
    WellFormed(s) && exists t :: 0 < t <= |times| && Ticks(s, times[..t]).cur == p
  }

  /** The exact condition, in any ring: a ready process gets its turn in time if no MAX_ATTEMPTS processes in
      a row before it are unable to run, and else never. */
  lemma TurnIff(s: Sched, p: nat, times: seq<nat>)
    requires OneRunning(s) && s.ready && s.quantum > 0
    requires p < |s.procs| && p != s.cur && s.procs[p].state == READY && WaitBound(s, Distance(s, p)) <= |times|
    ensures GetsTurn(s, p, times) <==> !GapBefore(s, p)
  {
    hide GapBefore;
    if GapBefore(s, p) {
      forall t | 0 < t <= |times| ensures Ticks(s, times[..t]).cur != p { GapStarves(s, p, times[..t]); }
    } else {
      var t := ReadyProcessGetsItsTurn(s, p, times);
    }
  }

  /** A tick that switches charges the process that was running for the time since it was scheduled, and starts
      the time and one more slice of the next; nothing else is accounted. */
  lemma TickAccounts(s: Sched, now: nat)
    requires OneRunning(s) && s.procs != []
    ensures var r := Tick(s, now);
      forall i :: 0 <= i < |s.procs| ==>
        && r.procs[i].runtime - s.procs[i].runtime
           == (if i == s.cur && r.cur != s.cur then (now - s.procs[i].lastScheduled) % U64 else 0)
        && r.procs[i].lastScheduled == (if i == r.cur && r.cur != s.cur then now else s.procs[i].lastScheduled)
        && r.procs[i].slices - s.procs[i].slices == (if i == r.cur && r.cur != s.cur then 1 else 0)
  {
    hide PickFrom;
  }

  /** Adding a process puts it last and leaves all others as they are. The first one runs at once, with a new
      quantum, start time and no slices yet; any other waits as a ready one and changes nothing else. */
  lemma AddIsLast(s: Sched, p: Proc, now: nat)
    requires WellFormed(s)
    ensures var r := Add(s, p, now);
      && r.procs[..|s.procs|] == s.procs && |r.procs| == |s.procs| + 1 && r.procs[|s.procs|].runtime == p.runtime
      && r.quantum == s.quantum && r.ready == s.ready
      && var q := r.procs[|s.procs|];
         if s.procs == [] then r.cur == 0 && r.since == 0 && q.state == RUNNING && q.lastScheduled == now && q.slices == 0
         else r.cur == s.cur && r.since == s.since && q == p.(state := READY)
  {
  }

  // ---- runs of added processes and ticks ----

  /** Nobody is asleep: every process but the current one is ready. */
  ghost predicate AllReady(s: Sched) {
    && OneRunning(s)
    && forall i :: 0 <= i < |s.procs| && i != s.cur ==> s.procs[i].state == READY
  }

  lemma TickKeepsAllReady(s: Sched, now: nat)
    requires AllReady(s)
    ensures AllReady(Tick(s, now))
  {
    TickKeepsOneRunning(s, now);
  }

  lemma {:induction false} PlayKeepsAllReady(s: Sched, events: seq<Event>)
    requires AllReady(s)
    ensures AllReady(Play(s, events))
    decreases |events|
  {
    hide Tick;
    if events != [] {
      match events[0] {
        case TickAt(now) =>
          TickKeepsAllReady(s, now);
          PlayKeepsAllReady(Tick(s, now), events[1..]);
        case AddAt(now, p) =>
          EnqueueKeepsOneRunning(s, p, s.procs == [], now);
          PlayKeepsAllReady(Add(s, p, now), events[1..]);
      }
    }
  }

  /** With everyone ready, a switch moves on by one place. */
  lemma ScheduleMovesOne(s: Sched, now: nat, p: nat)
    requires AllReady(s) && p < |s.procs| && p != s.cur
    ensures var r := Schedule(s, now);
      0 < Distance(s, p) && r.cur == After(|s.procs|, s.cur, 1) && Distance(r, p) == Distance(s, p) - 1
  {
    AfterCases(|s.procs|, s.cur, 1);
    assert Runnable(s.procs[After(|s.procs|, s.cur, 1)]);
    AheadStays(s, now, p, 1);
  }

  /** With everyone ready, a tick brings p one tick closer to its turn. */
  lemma TickComesOneCloser(s: Sched, now: nat, p: nat)
    requires AllReady(s) && s.ready && s.quantum > 0 && p < |s.procs| && p != s.cur
    ensures var r, d := Tick(s, now), Distance(s, p);
      && d > 0 && AllReady(r) && r.ready && r.quantum == s.quantum && p < |r.procs|
      && (if r.cur == p then WaitBound(s, d) == 1
          else 0 < Distance(r, p) && WaitBound(r, Distance(r, p)) + 1 == WaitBound(s, d))
  {
    TickKeepsAllReady(s, now);
    ScheduleMovesOne(s.(since := 0), now, p);
    hide AllReady, OneRunning, After, Schedule;
    var r, d := Tick(s, now), Distance(s, p);
    assert Distance(s.(since := 0), p) == d;
    if s.since + 1 >= s.quantum {
      assert r == Schedule(s.(since := 0), now);
      DistanceZero(r, p);
      OneQuantumLess(s, r, d);
    } else {
      assert r == s.(since := s.since + 1);
    }
  }

  lemma DistanceZero(s: Sched, p: nat)
    requires s.cur < |s.procs| && p < |s.procs|
    ensures Distance(s, p) == 0 <==> s.cur == p
  {
  }

  lemma OneQuantumLess(s: Sched, r: Sched, d: nat)
    requires d > 0 && s.since + 1 >= s.quantum && r.quantum == s.quantum > 0 && r.since == 0
    ensures if d == 1 then WaitBound(s, d) == 1 else WaitBound(r, d - 1) + 1 == WaitBound(s, d)
  {
    assert (d - 1) * s.quantum == (d - 2) * s.quantum + s.quantum;
  }

  /** With everyone ready, p becomes current at the tick that WaitBound says, and not before. */
  lemma {:induction false} TurnComesExactly(s: Sched, p: nat, times: seq<nat>)
    requires AllReady(s) && s.ready && s.quantum > 0 && p < |s.procs| && p != s.cur
    requires |times| == WaitBound(s, Distance(s, p))
    ensures Ticks(s, times).cur == p
    ensures forall t :: 0 <= t < |times| ==> Ticks(s, times[..t]).cur != p
    decreases |times|
  {
    DistanceZero(s, p);
    WaitIsPositive(s, Distance(s, p));
    TickComesOneCloser(s, times[0], p);
    hide AllReady, OneRunning, Distance, WaitBound, Tick;
    var r, rest := Tick(s, times[0]), times[1..];
    if r.cur != p { TurnComesExactly(r, p, rest); }
    forall t | 0 <= t < |times| ensures Ticks(s, times[..t]).cur != p {
      if t > 0 { assert times[..t][0] == times[0] && times[..t][1..] == rest[..t - 1]; }
    }
  }

  /** Nobody starves in any run of added processes and timer interrupts: from every state that such a run
      leads to, each process becomes current at exactly the tick that ends the quanta of all before it: what is
      left of this quantum, and one quantum for each process between, in rings of any size. */
  lemma RunsStarveNobody(s: Sched, events: seq<Event>, p: nat, times: seq<nat>)
    requires s.procs == [] && s.ready && s.quantum > 0
    requires var r := Play(s, events); p < |r.procs| && p != r.cur
    requires var r := Play(s, events);
      var between := if p > r.cur then p - r.cur - 1 else p + |r.procs| - r.cur - 1;
      |times| == (if r.since + 1 < r.quantum then r.quantum - r.since else 1) + between * r.quantum
    ensures var r := Play(s, events);
      Ticks(r, times).cur == p && forall t :: 0 <= t < |times| ==> Ticks(r, times[..t]).cur != p
  {
    hide Play, Ticks, WaitBound;
    PlayKeepsAllReady(s, events);
    hide AllReady, OneRunning, Distance;
    PlayKeepsSettings(s, events);
    WaitIs(Play(s, events), p);
    TurnComesExactly(Play(s, events), p, times);
  }

  lemma WaitIs(s: Sched, p: nat)
    requires s.cur < |s.procs| && p < |s.procs| && p != s.cur && s.quantum > 0
    ensures var between := if p > s.cur then p - s.cur - 1 else p + |s.procs| - s.cur - 1;
      && Distance(s, p) > 0
      && WaitBound(s, Distance(s, p)) == (if s.since + 1 < s.quantum then s.quantum - s.since else 1) + between * s.quantum
  {
  }

  lemma {:induction false} PlayKeepsSettings(s: Sched, events: seq<Event>)
    requires WellFormed(s)
    ensures Play(s, events).ready == s.ready && Play(s, events).quantum == s.quantum
    decreases |events|
  {
    if events != [] {
      match events[0] {
        case TickAt(now) => PlayKeepsSettings(Tick(s, now), events[1..]);
        case AddAt(now, p) => PlayKeepsSettings(Add(s, p, now), events[1..]);
      }
    }
  }

  // ---- rings with sleepers ----

  /** In a ring of at most MAX_ATTEMPTS + 1 processes there is no room for a gap, and the wait is at most
      one quantum for each of the others. */
  lemma SmallRingBound(s: Sched, p: nat)
    requires OneRunning(s) && s.quantum > 0 && p < |s.procs| <= MAX_ATTEMPTS + 1 && p != s.cur
    ensures 0 < Distance(s, p) <= MAX_ATTEMPTS && !GapBefore(s, p)
    ensures WaitBound(s, Distance(s, p)) <= (|s.procs| - 1) * s.quantum
  {
    var d, n := Distance(s, p), |s.procs|;
    AfterCases(n, s.cur, d);
    assert (d - 1) * s.quantum + s.quantum == d * s.quantum;
    MulMonotone(d, n - 1, s.quantum);
  }

  /** Everyone is asleep but the current process 0 and a ready one at distance MAX_ATTEMPTS + 1. */
  function OutOfReach(n: nat): Sched
    requires n >= MAX_ATTEMPTS + 2
  {
    Sched(seq(n, i => if i == 0 then Proc(RUNNING, 0, 0, 0)
                      else if i == MAX_ATTEMPTS + 1 then Proc(READY, 0, 0, 0)
                      else Proc(SLEEPING, 0, 0, 0)),
          0, 0, 1, true)
  }

  lemma OutOfReachGap(n: nat)
    requires n >= MAX_ATTEMPTS + 2
    ensures GapBefore(OutOfReach(n), MAX_ATTEMPTS + 1)
  {
    var s := OutOfReach(n);
    forall i | 1 <= i < 1 + MAX_ATTEMPTS ensures !Runnable(s.procs[After(n, s.cur, i)]) {
      AfterCases(n, s.cur, i);
    }
    assert Gap(s, 1);
  }

  /** Every ready process gets its turn in every ring of n processes, in time for n - 1 quanta. */
  ghost predicate NoStarvation(n: nat) {
    forall s: Sched, p: nat, times: seq<nat> :: MustRun(n, s, p, times) ==> GetsTurn(s, p, times)
  }

  /** Process p of n is ready, and the ticks last for n - 1 quanta. */
  ghost predicate MustRun(n: nat, s: Sched, p: nat, times: seq<nat>) {
    && OneRunning(s) && s.ready && s.quantum > 0 && |s.procs| == n
    && p < n && p != s.cur && s.procs[p].state == READY && |times| >= (n - 1) * s.quantum
  }

  /** If processes may have been put to sleep from outside, nobody starves exactly in rings of at most
      101 processes. */
  lemma NoStarvationIff(n: nat)
    ensures NoStarvation(n) <==> n <= 101
  {
    hide GapBefore;
    if n <= MAX_ATTEMPTS + 1 {
      forall s: Sched, p: nat, times: seq<nat> | MustRun(n, s, p, times)
        ensures GetsTurn(s, p, times)
      {
        SmallRingBound(s, p);
        var t := ReadyProcessGetsItsTurn(s, p, times);
      }
    } else {
      var s, times, p := OutOfReach(n), seq(n, i => 0), MAX_ATTEMPTS + 1;
      assert MustRun(n, s, p, times);
      OutOfReachGap(n);
      forall t | 0 < t <= |times| ensures Ticks(s, times[..t]).cur != p { GapStarves(s, p, times[..t]); }
    }
  }

  // ---- conservation of CPU time ----

  function TotalRuntime(procs: seq<Proc>): nat {
    if procs == [] then 0 else procs[0].runtime + TotalRuntime(procs[1..])
  }

  lemma {:induction false} TotalRuntimeUpdate(procs: seq<Proc>, i: nat, p: Proc)
    requires i < |procs|
    ensures TotalRuntime(procs[i := p]) == TotalRuntime(procs) - procs[i].runtime + p.runtime
  {
    if i == 0 {
      assert procs[i := p][1..] == procs[1..];
    } else {
      assert procs[i := p][1..] == procs[1..][i - 1 := p];
      TotalRuntimeUpdate(procs[1..], i - 1, p);
    }
  }

  lemma {:induction false} TotalRuntimeAppend(procs: seq<Proc>, p: Proc)
    ensures TotalRuntime(procs + [p]) == TotalRuntime(procs) + p.runtime
  {
    if procs != [] {
      assert (procs + [p])[1..] == procs[1..] + [p];
      TotalRuntimeAppend(procs[1..], p);
    } else {
      assert procs + [p] == [p];
    }
  }

  /** The time accounted for: all run times, and the current process since it was scheduled. */
  function CpuTime(s: Sched, now: nat): int
    requires s.procs != [] && WellFormed(s)
  {
    TotalRuntime(s.procs) + now - s.procs[s.cur].lastScheduled
  }

  /** The clock shows `now`, no earlier than when the current process was scheduled. */
  predicate ClockOk(s: Sched, now: nat)
    requires s.procs != [] && WellFormed(s)
  {
    s.procs[s.cur].lastScheduled <= now < U64
  }

  lemma ElapsedIs(now: nat, last: nat)
    requires last <= now < U64
    ensures Elapsed(now, last) == now - last
  {
  }

  /** What a switch adds to the run times. */
  lemma SwitchTotal(procs: seq<Proc>, i: nat, j: nat, now: nat)
    requires i < |procs| && j < |procs| && i != j && procs[i].state == RUNNING
    ensures var r := Switch(procs, i, j, now);
      && TotalRuntime(r) == TotalRuntime(procs) + Elapsed(now, procs[i].lastScheduled) && r[j].lastScheduled == now
  {
    hide TotalRuntime, Elapsed;
    var p := procs[i];
    var from := p.(runtime := p.runtime + Elapsed(now, p.lastScheduled), state := READY);
    var to := procs[j].(state := RUNNING, lastScheduled := now, slices := procs[j].slices + 1);
    TotalRuntimeUpdate(procs, i, from);
    TotalRuntimeUpdate(procs[i := from], j, to);
  }

  lemma ScheduleConserves(s: Sched, now: nat, later: nat)
    requires s.procs != [] && WellFormed(s) && s.procs[s.cur].state == RUNNING && ClockOk(s, now) && now <= later < U64
    ensures var r := Schedule(s, now);
            CpuTime(r, later) == CpuTime(s, later) && ClockOk(r, later)
  {
    hide TotalRuntime, Elapsed, Switch, PickFrom;
    var j := PickFrom(s.procs, s.cur, 1);
    if j != s.cur {
      SwitchTotal(s.procs, s.cur, j, now);
      ElapsedIs(now, s.procs[s.cur].lastScheduled);
    }
  }

  lemma TickConserves(s: Sched, now: nat, later: nat)
    requires s.procs != [] && OneRunning(s) && ClockOk(s, now) && now <= later < U64
    ensures var r := Tick(s, now);
            CpuTime(r, later) == CpuTime(s, later) && ClockOk(r, later)
  {
    assert s.procs[s.cur].state == RUNNING;
    hide TotalRuntime, Schedule, OneRunning;
    ScheduleConserves(s.(since := 0), now, later);
  }

  lemma AddConserves(s: Sched, p: Proc, now: nat, later: nat)
    requires s.procs != [] && OneRunning(s) && ClockOk(s, later) && p.runtime == 0
    ensures var r := Add(s, p, now);
            CpuTime(r, later) == CpuTime(s, later) && ClockOk(r, later)
  {
    TotalRuntimeAppend(s.procs, p.(state := READY));
  }

  /** A process that were forced to be current would lose its predecessor's unaccounted time. */
  lemma ForcedSwitchLosesTime(s: Sched, p: Proc, now: nat, later: nat)
    requires s.procs != [] && OneRunning(s) && p.runtime == 0
    ensures CpuTime(Enqueue(s, p, true, now), later) == CpuTime(s, later) - (now - s.procs[s.cur].lastScheduled)
  {
    var q := p.(state := RUNNING, lastScheduled := now, slices := 0);
    TotalRuntimeAppend(Demoted(s), q);
    TotalRuntimeUpdate(s.procs, s.cur, s.procs[s.cur].(state := READY));
  }

  datatype Event = TickAt(now: nat) | AddAt(now: nat, proc: Proc)

  /** Any run of timer interrupts and added processes. */
  function Play(s: Sched, events: seq<Event>): (r: Sched)
    requires WellFormed(s)
    ensures WellFormed(r) && (s.procs != [] ==> r.procs != [])
    decreases |events|
  {
    if events == [] then s
    else match events[0]
      case TickAt(now) => Play(Tick(s, now), events[1..])
      case AddAt(now, p) => Play(Add(s, p, now), events[1..])
  }

  /** The clock never goes back, stays below the wrap, and new processes have not run yet. */
  ghost predicate Orderly(from: nat, events: seq<Event>, end: nat) {
    && from <= end < U64
    && (forall i :: 0 <= i < |events| ==> from <= events[i].now <= end)
    && (forall i, j :: 0 <= i < j < |events| ==> events[i].now <= events[j].now)
    && (forall i :: 0 <= i < |events| && events[i].AddAt? ==> events[i].proc.runtime == 0)
  }

  lemma {:induction false} PlayConserves(s: Sched, from: nat, events: seq<Event>, end: nat)
    requires s.procs != [] && OneRunning(s) && ClockOk(s, from) && Orderly(from, events, end)
    ensures var r := Play(s, events);
            OneRunning(r) && ClockOk(r, end) && CpuTime(r, end) == CpuTime(s, end)
    decreases |events|
  {
    if events != [] {
      var e := events[0];
      assert ClockOk(s, e.now);
      var r := match e case TickAt(now) => Tick(s, now) case AddAt(now, p) => Add(s, p, now);
      match e {
        case TickAt(now) =>
          TickKeepsOneRunning(s, now);
          TickConserves(s, now, now);
          TickConserves(s, now, end);
        case AddAt(now, p) =>
          EnqueueKeepsOneRunning(s, p, false, now);
          AddConserves(s, p, now, now);
          AddConserves(s, p, now, end);
      }
      PlayConserves(r, e.now, events[1..], end);
    }
  }

  /** From the first enqueued process on, in every run of added processes and timer interrupts, exactly
      the current process is running, and the run times of all processes and the current one's time
      since it was scheduled add up to the time passed since then. */
  lemma CpuTimeIsConserved(s: Sched, p: Proc, start: nat, events: seq<Event>, end: nat)
    requires s.procs == [] && p.runtime == 0 && Orderly(start, events, end)
    ensures var r := Play(Add(s, p, start), events);
            OneRunning(r) && ClockOk(r, end) && CpuTime(r, end) == end - start
  {
    var q := Add(s, p, start);
    assert q.procs[0].runtime == 0 && q.procs[0].lastScheduled == start;
    assert TotalRuntime(q.procs) == 0 by { assert q.procs[1..] == []; }
    assert CpuTime(q, end) == end - start;
    PlayConserves(q, start, events, end);
  }
}
