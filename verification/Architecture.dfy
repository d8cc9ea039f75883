/** The scheduler as it runs: processes linked into a ring, with head, tail and current pointers. */
module Architecture {
  import S = Scheduling
  import Words
  import opened Wrappers

  const PIT_DEFAULT_FREQ: nat := 100
  const QUANTUM_MS: nat := 20

  class Process {
    var pnext: Process?
    var state: nat
    var totalRuntime: nat
    var lastScheduled: nat
    var timeSlice: nat

    constructor ()
      ensures pnext == null && state == S.SLEEPING && totalRuntime == lastScheduled == timeSlice == 0
    {
      pnext, state, totalRuntime, lastScheduled, timeSlice := null, S.SLEEPING, 0, 0, 0;
    }

    function View(): S.Proc
      reads `state, `totalRuntime, `lastScheduled, `timeSlice
    {
      S.Proc(state, totalRuntime, lastScheduled, timeSlice)
    }
  }

  ghost predicate Distinct(ring: seq<Process>) {
    forall i, j :: 0 <= i < j < |ring| ==> ring[i] != ring[j]
  }

  ghost predicate LeadsOn(ring: seq<Process>, i: nat)
    requires i < |ring|
    reads {ring[i]}`pnext
  {
    ring[i].pnext == ring[if i + 1 < |ring| then i + 1 else 0]
  }

  /** Each process leads to the next one, and the last to the first. */
  ghost predicate Linked(ring: seq<Process>)
    reads ring`pnext
  {
    forall i {:trigger LeadsOn(ring, i)} :: 0 <= i < |ring| ==> LeadsOn(ring, i)
  }

  /** What the processes of a ring look like to the scheduler. */
  ghost function Views(ring: seq<Process>): (v: seq<S.Proc>)
    reads ring`state, ring`totalRuntime, ring`lastScheduled, ring`timeSlice
    ensures |v| == |ring|
  {
    if ring == [] then [] else [ring[0].View()] + Views(ring[1..])
  }

  lemma {:induction false} ViewAt(ring: seq<Process>, i: nat)
    requires i < |ring|
    ensures Views(ring)[i] == ring[i].View()
  {
    if i > 0 { ViewAt(ring[1..], i - 1); }
  }

  lemma ViewsAre(ring: seq<Process>)
    ensures forall i :: 0 <= i < |ring| ==> Views(ring)[i] == ring[i].View()
  {
    forall i: nat | i < |ring| ensures Views(ring)[i] == ring[i].View() { ViewAt(ring, i); }
  }

  ghost function IndexOf(ring: seq<Process>, p: Process): (i: nat)
    requires p in ring
    ensures i < |ring| && ring[i] == p
  {
    var i: nat :| i < |ring| && ring[i] == p; i
  }

  lemma {:induction false} ViewsLast(ring: seq<Process>, p: Process)
    ensures Views(ring + [p]) == Views(ring) + [p.View()]
  {
    if ring == [] {
      assert ring + [p] == [p];
    } else {
      assert (ring + [p])[1..] == ring[1..] + [p];
      ViewsLast(ring[1..], p);
    }
  }

  lemma NextInRing(ring: seq<Process>, i: nat)
    requires Linked(ring) && i < |ring|
    ensures ring[i].pnext == ring[if i + 1 < |ring| then i + 1 else 0]
  {
    assert LeadsOn(ring, i);
  }

  lemma TheIndex(ring: seq<Process>, i: nat)
    requires Distinct(ring) && i < |ring|
    ensures IndexOf(ring, ring[i]) == i
  {
  }

  class Architecture {
    var plist: Process?
    /** The tail of the ring, despite its name. */
    var firstProc: Process?
    var pcurrent: Process?
    var idleProcess: Process?
    var ticksSinceSwitch: nat
    var ticksPerQuantum: nat
    var totalTicks: nat
    var schedulerReady: bool
    ghost var ring: seq<Process>

    /** The ring is visited from plist once round, ends in firstProc and leads back to plist. */
    ghost predicate Ring()
      reads this, ring
    {
      && Distinct(ring) && Linked(ring)
      && (ring == [] ==> plist == null && firstProc == null && pcurrent == null)
      && (ring != [] ==> plist == ring[0] && firstProc == ring[|ring| - 1])
      && (pcurrent != null ==> pcurrent in ring)
    }

    ghost predicate Valid()
      reads this, ring
    {
      Ring() && (ring != [] ==> pcurrent != null)
    }

    /** The scheduler state this structure stands for. */
    ghost function Abs(): (s: S.Sched)
      requires Valid()
      reads this, ring
      ensures S.WellFormed(s)
    {
      S.Sched(Views(ring), if pcurrent == null then 0 else IndexOf(ring, pcurrent),
              ticksSinceSwitch, ticksPerQuantum, schedulerReady)
    }

    constructor ()
      ensures Valid() && ring == [] && Abs() == S.Sched([], 0, 0, 1, false)
      ensures idleProcess == null && totalTicks == 0
    {
      plist, firstProc, pcurrent, idleProcess := null, null, null, null;
      ticksSinceSwitch, ticksPerQuantum, totalTicks, schedulerReady := 0, 1, 0, false;
      ring := [];
    }

    method ConfigureScheduler(frequency: nat)
      requires Valid()
      modifies `ticksPerQuantum, `schedulerReady
      ensures Valid() && Abs() == old(Abs()).(quantum := S.Quantum(frequency), ready := true)
      ensures var thousandths := (if frequency == 0 then 100 else frequency) * 20 % 0x1_0000_0000;
        if thousandths < 2000 then ticksPerQuantum == 1
        else 1000 * ticksPerQuantum <= thousandths < 1000 * (ticksPerQuantum + 1)
    {
      hide Linked, Views, IndexOf;
      var hz := frequency;
      if hz == 0 { hz := PIT_DEFAULT_FREQ; }
      var ticks := ((hz * QUANTUM_MS) % Words.U32) / 1000;
      if ticks == 0 { ticks := 1; }
      ticksPerQuantum := ticks;
      schedulerReady := true;
    }

    /** The list part of enqueue_process: proc becomes the tail. */
    method LinkLast(proc: Process)
      requires Ring() && proc !in ring
      modifies `plist, `firstProc, `ring, proc`pnext, ring`pnext
      ensures ring == old(ring) + [proc] && Ring()
      ensures Views(ring) == old(Views(ring)) + [old(proc.View())]
      ensures pcurrent != null ==> IndexOf(ring, pcurrent) == old(IndexOf(ring, pcurrent))
    {
      hide Views, IndexOf, Linked, Distinct;
      ghost var r := ring;
      assert forall k {:trigger LeadsOn(r, k)} :: 0 <= k < |r| ==> LeadsOn(r, k) by { LinksOf(r); }
      if r != [] { Apart(r, |r| - 1); }
      if plist == null {
        plist := proc;
        firstProc := proc;
        proc.pnext := proc;
      } else {
        proc.pnext := plist;
        firstProc.pnext := proc;
        firstProc := proc;
      }
      ring := ring + [proc];
      forall k: nat | k < |r| - 1 ensures LeadsOn(r, k) { assert old(LeadsOn(r, k)); }
      LinkedLast(r, proc);
      ViewsLast(r, proc);
      if pcurrent != null { TheIndex(ring, IndexOf(old(ring), pcurrent)); }
    }

    method Enqueue(proc: Process, makeCurrent: bool, now: nat)
      requires Valid() && proc !in ring
      modifies `plist, `firstProc, `ring, `pcurrent, `ticksSinceSwitch, proc, ring
      ensures Valid() && ring == old(ring) + [proc]
      ensures Abs() == S.Enqueue(old(Abs()), old(proc.View()), makeCurrent, now)
    {
      hide Linked, Views, IndexOf, Handover, Distinct, S.Enqueue;
      ghost var s, v := Abs(), proc.View();
      EnqueueIs(s, v, makeCurrent, now);
      LinkLast(proc);
      if makeCurrent || pcurrent == null {
        MakeCurrent(proc, now);
        TheIndex(ring, |s.procs|);
      } else {
        SetReady(proc);
        assert Views(ring) == s.procs + [v.(state := S.READY)];
      }
    }

    method SetReady(proc: Process)
      requires Ring() && ring != [] && proc == ring[|ring| - 1]
      modifies proc`state
      ensures Ring()
      ensures Views(ring) == old(Views(ring))[|ring| - 1 := old(proc.View()).(state := S.READY)]
    {
      hide Linked, Views;
      ViewsAre(ring);
      proc.state := S.READY;
      ViewsAre(ring);
    }

    /** The part of enqueue_process that makes the new tail the current process. */
    method MakeCurrent(proc: Process, now: nat)
      requires Ring() && ring != [] && proc == ring[|ring| - 1] && pcurrent != proc
      requires pcurrent == null ==> |ring| == 1
      modifies `pcurrent, `ticksSinceSwitch, ring`state, ring`totalRuntime, ring`lastScheduled, ring`timeSlice
      ensures Valid() && pcurrent == proc && ticksSinceSwitch == 0
      ensures Views(ring) == Handover(old(Views(ring)),
        old(if pcurrent == null then |ring| else IndexOf(ring, pcurrent)), now)
    {
      hide Linked, Views, IndexOf, Distinct, Yielded;
      ghost var n := |ring| - 1;
      YieldCurrent(proc);
      ViewAt(ring, n);
      pcurrent := proc;
      Update(proc, n, S.Proc(S.RUNNING, proc.totalRuntime, now, 0));
      ticksSinceSwitch := 0;
    }

    /** A running current process becomes ready. */
    method YieldCurrent(proc: Process)
      requires Ring() && pcurrent != proc
      modifies ring`state, ring`totalRuntime, ring`lastScheduled, ring`timeSlice
      ensures Ring() && Views(ring) == Yielded(old(Views(ring)), old(if pcurrent == null then |ring| else IndexOf(ring, pcurrent)))
    {
      hide Linked, Views, IndexOf, Distinct;
      ghost var c := if pcurrent == null then 0 else IndexOf(ring, pcurrent);
      if pcurrent != null { ViewAt(ring, c); }
      if pcurrent != null && pcurrent != proc && pcurrent.state == S.RUNNING {
        Update(pcurrent, c, pcurrent.View().(state := S.READY));
      }
    }

    /** ensure_idle_process; stackOk says whether the idle stack can be allocated. */
    method EnsureIdle(stackOk: bool, now: nat)
      requires Valid()
      modifies `plist, `firstProc, `ring, `pcurrent, `ticksSinceSwitch, `idleProcess, ring
      ensures Valid() && idleProcess != null
      ensures old(idleProcess) != null || !stackOk ==> ring == old(ring) && Abs() == old(Abs())
      ensures old(idleProcess) == null && stackOk ==>
        && ring == old(ring) + [idleProcess]
        && Abs() == S.Enqueue(old(Abs()), S.Proc(S.READY, 0, now, 0), false, now)
      ensures old(idleProcess) != null ==> idleProcess == old(idleProcess)
    {
      hide Linked, Views, IndexOf, Distinct, S.Enqueue;
      if idleProcess != null { return; }
      var idle := new Process();
      idleProcess := idle;
      if !stackOk { return; }
      idle.state := S.READY;
      idle.lastScheduled := now;
      assert Views(ring) == old(Views(ring));
      Enqueue(idle, false, now);
    }

    /** addProcess. */
    method AddProcess(p: Process?, stackOk: bool, now: nat)
      requires Valid() && (p != null ==> p !in ring)
      modifies `plist, `firstProc, `ring, `pcurrent, `ticksSinceSwitch, `idleProcess, `schedulerReady, p, ring
      ensures Valid()
      ensures p == null ==> ring == old(ring) && Abs() == old(Abs())
      ensures p != null ==>
        var s := S.Add(old(Abs()), old(p.View()), now);
        var r := if old(ring) == [] then s.(ready := true) else s;
        && Abs() == (if old(idleProcess) == null && stackOk
                     then S.Enqueue(r, S.Proc(S.READY, 0, now, 0), false, now) else r)
        && ring == old(ring) + [p] + (if old(idleProcess) == null && stackOk then [idleProcess] else [])
    {
      hide Linked, Views, IndexOf;
      if p == null { return; }
      var listWasEmpty := plist == null;
      Enqueue(p, listWasEmpty, now);
      if listWasEmpty { schedulerReady := true; }
      if idleProcess == null { EnsureIdle(stackOk, now); }
    }

    /** The search of Process::schedule. */
    method FindNext(ghost c: nat) returns (n: Process?)
      requires Ring() && c < |ring| && pcurrent == ring[c]
      ensures n == ring[S.PickFrom(Views(ring), c, 1)]
    {
      hide Views, Linked, Distinct, S.After;
      ghost var v, len := Views(ring), |ring|;
      n := pcurrent;
      var attempts: nat := 0;
      S.AfterCases(len, c, 0);
      while true
        invariant n == ring[S.After(len, c, attempts)] && attempts <= S.MAX_ATTEMPTS
        invariant S.PickFrom(v, c, 1) == S.PickFrom(v, c, attempts + 1)
        decreases S.MAX_ATTEMPTS - attempts
      {
        S.AfterNext(len, c, attempts);
        NextInRing(ring, S.After(len, c, attempts));
        n := if n.pnext != null then n.pnext else plist;
        attempts := attempts + 1;
        if attempts > S.MAX_ATTEMPTS { return pcurrent; }
        ViewAt(ring, S.After(len, c, attempts));
        if !(n != null && (n.state == S.ZOMBIE || n.state == S.SLEEPING)) { break; }
      }
    }

    /** Process::schedule of the current process. */
    method Schedule(now: nat) returns (next: Process?)
      requires Valid() && pcurrent != null
      modifies ring`state, ring`totalRuntime, ring`lastScheduled, ring`timeSlice
      ensures Ring()
      ensures var c := IndexOf(ring, pcurrent);
              var v := old(Views(ring));
              var j := S.PickFrom(v, c, 1);
              next == ring[j] && Views(ring) == if j == c then v else S.Switch(v, c, j, now)
    {
      hide Views, Linked, S.Switch;
      ghost var c := IndexOf(ring, pcurrent);
      NextInRing(ring, c);
      if pcurrent.pnext == null { return pcurrent; }
      next := FindNext(c);
      if next == null || next == pcurrent { return pcurrent; }
      SwitchTo(next, c, S.PickFrom(Views(ring), c, 1), now);
    }

    /** The accounting of a switch. */
    method SwitchTo(next: Process, ghost c: nat, ghost j: nat, now: nat)
      requires Ring() && c < |ring| && j < |ring| && c != j && ring[c] == pcurrent && ring[j] == next
      modifies ring`state, ring`totalRuntime, ring`lastScheduled, ring`timeSlice
      ensures Ring() && Views(ring) == S.Switch(old(Views(ring)), c, j, now)
    {
      hide Linked, Views;
      ghost var v := Views(ring);
      ViewAt(ring, c);
      if pcurrent.state == S.RUNNING {
        Update(pcurrent, c, pcurrent.View().(
          runtime := pcurrent.totalRuntime + S.Elapsed(now, pcurrent.lastScheduled), state := S.READY));
      }
      ViewAt(ring, j);
      Update(next, j, S.Proc(S.RUNNING, next.totalRuntime, now, next.timeSlice + 1));
    }

    /** Assigns the scheduling fields of one process. */
    method Update(p: Process, ghost i: nat, v: S.Proc)
      requires Ring() && i < |ring| && p == ring[i]
      modifies p`state, p`totalRuntime, p`lastScheduled, p`timeSlice
      ensures Ring() && Views(ring) == old(Views(ring))[i := v]
    {
      hide Linked, Views;
      ViewsAre(ring);
      p.state, p.totalRuntime, p.lastScheduled, p.timeSlice := v.state, v.runtime, v.lastScheduled, v.slices;
      ViewsAre(ring);
      assert Views(ring) == old(Views(ring))[i := v];
    }

    method HandleTimerInterrupt(now: nat)
      requires Valid()
      modifies `totalTicks, `ticksSinceSwitch, `pcurrent, ring`state, ring`totalRuntime, ring`lastScheduled, ring`timeSlice
      ensures Valid() && totalTicks == old(totalTicks) + 1
      ensures Abs() == S.Tick(old(Abs()), now)
    {
      hide Linked, Views, IndexOf, Distinct, S.Schedule;
      ghost var s := Abs();
      totalTicks := totalTicks + 1;
      if !schedulerReady || pcurrent == null { return; }
      ViewAt(ring, s.cur);
      ticksSinceSwitch := ticksSinceSwitch + 1;
      var needSwitch := false;
      if pcurrent.state != S.RUNNING { needSwitch := true; }
      if ticksSinceSwitch >= ticksPerQuantum { needSwitch := true; }
      if !needSwitch { return; }
      ticksSinceSwitch := 0;
      Reschedule(now);
    }

    /** The last step of a timer interrupt: the process that was picked becomes current. */
    method Reschedule(now: nat)
      requires Valid() && pcurrent != null
      modifies `pcurrent, ring`state, ring`totalRuntime, ring`lastScheduled, ring`timeSlice
      ensures Valid() && Abs() == S.Schedule(old(Abs()), now)
    {
      hide Linked, Views, Distinct, IndexOf, S.Switch, S.PickFrom, S.Schedule;
      ghost var s := Abs();
      ghost var j := S.PickFrom(s.procs, s.cur, 1);
      ScheduleIs(s, now);
      var next := Schedule(now);
      assert next == ring[j];
      if next == null { return; }
      pcurrent := next;
      TheIndex(ring, j);
      assert Ring() && IndexOf(ring, pcurrent) == j;
    }

    /** The process before target in the ring, or null if target is not in it. */
    method FindPrevious(target: Process?) returns (r: Process?)
      requires Ring()
      ensures target == null || target !in ring ==> r == null
      ensures target != null && target in ring ==>
        var i := IndexOf(ring, target);
        r == ring[if i > 0 then i - 1 else |ring| - 1]
    {
      hide IndexOf;
      if plist == null || target == null { return null; }
      var cursor: Process?, prev: Process? := plist, null;
      ghost var k := 0;
      while true
        invariant k < |ring| && cursor == ring[k] && target !in ring[..k]
        invariant prev == if k == 0 then null else ring[k - 1]
        decreases |ring| - k
      {
        if cursor == target {
          TheIndex(ring, k);
          if prev != null { return prev; }
          r := FindTail(cursor);
          return;
        }
        NextInRing(ring, k);
        prev := cursor;
        cursor := cursor.pnext;
        if cursor == null || cursor == plist { break; }
        k := k + 1;
      }
      assert ring == ring[..k] + [ring[k]];
      return null;
    }

    /** Walks from the head to the process that leads back to it. */
    method FindTail(start: Process?) returns (tail: Process?)
      requires Ring() && ring != [] && start == plist
      ensures tail == ring[|ring| - 1]
    {
      tail := start;
      ghost var k := 0;
      NextInRing(ring, 0);
      while tail.pnext != plist
        invariant k < |ring| && tail == ring[k]
        invariant tail.pnext == ring[if k + 1 < |ring| then k + 1 else 0]
        decreases |ring| - k
      {
        k := k + 1;
        NextInRing(ring, k);
        tail := tail.pnext;
      }
    }

    /** remove_process: the rest keeps its order; the current process moves on if it is the one removed. */
    method RemoveProcess(proc: Process?)
      requires Ring()
      modifies `plist, `firstProc, `pcurrent, `ring, (if proc == null then {} else {proc})`pnext, ring`pnext
      ensures Ring()
      ensures proc == null || proc !in old(ring) ==> ring == old(ring) && pcurrent == old(pcurrent)
      ensures proc != null && proc in old(ring) ==>
        var i := old(IndexOf(ring, proc));
        && ring == Without(old(ring), i) && proc.pnext == null
        && pcurrent == (if old(pcurrent) != proc then old(pcurrent)
                        else if |old(ring)| == 1 then null
                        else old(ring)[if i + 1 < |old(ring)| then i + 1 else 0])
    {
      if plist == null || proc == null { return; }
      var next := proc.pnext;
      if proc == plist && proc.pnext == proc {
        NextInRing(ring, 0);
        assert |ring| == 1 && IndexOf(ring, proc) == 0;
        plist := null;
        firstProc := null;
        if pcurrent == proc { pcurrent := null; }
        proc.pnext := null;
        ring := [];
        return;
      }
      var prev := FindPrevious(proc);
      if prev == null { return; }
      Unlink(proc, prev, next);
    }

    /** Takes proc, which is not alone, out of the ring. */
    method Unlink(proc: Process, prev: Process, next: Process?)
      requires Ring() && proc in ring && next == proc.pnext && !(proc == plist && next == proc)
      requires prev == ring[if IndexOf(ring, proc) > 0 then IndexOf(ring, proc) - 1 else |ring| - 1]
      modifies `plist, `firstProc, `pcurrent, `ring, proc`pnext, prev`pnext
      ensures Ring() && proc.pnext == null
      ensures var i := old(IndexOf(ring, proc));
              && ring == Without(old(ring), i) && |old(ring)| > 1
              && pcurrent == if old(pcurrent) != proc then old(pcurrent)
                             else old(ring)[if i + 1 < |old(ring)| then i + 1 else 0]
    {
      hide Distinct, IndexOf, Linked, Without;
      ghost var i, r := IndexOf(ring, proc), ring;
      ghost var h := if i > 0 then i - 1 else |r| - 1;
      NextInRing(r, i);
      NeighboursLinked(r, i);
      assert forall k {:trigger LeadsOn(r, k)} :: 0 <= k < |r| ==> LeadsOn(r, k) by { LinksOf(r); }
      Apart(r, i);
      Apart(r, h);
      Bypass(proc, prev, next);
      forall k: nat | k < |r| && k != i && k != h ensures LeadsOn(r, k) { assert old(LeadsOn(r, k)); }
      RingWithout(r, i, h, plist, firstProc, pcurrent);
      ring := Without(r, i);
    }

    /** The writes of remove_process in a ring of two or more. */
    method Bypass(proc: Process, prev: Process, next: Process?)
      requires prev != proc
      modifies `plist, `firstProc, `pcurrent, proc`pnext, prev`pnext
      ensures prev.pnext == next && proc.pnext == null
      ensures plist == (if old(plist) == proc then next else old(plist))
      ensures firstProc == (if old(firstProc) == proc then prev else old(firstProc))
      ensures pcurrent == if old(pcurrent) == proc then next else old(pcurrent)
    {
      prev.pnext := next;
      if plist == proc { plist := next; }
      if firstProc == proc { firstProc := prev; }
      if pcurrent == proc { pcurrent := next; }
      proc.pnext := null;
    }
  }

  lemma Apart(r: seq<Process>, i: nat)
    requires Distinct(r) && i < |r|
    ensures forall k {:trigger r[k]} :: 0 <= k < |r| && k != i ==> r[k] != r[i]
  {
  }

  /** A new tail between the old one and the head. */
  lemma LinkedLast(r: seq<Process>, p: Process)
    requires Distinct(r) && p !in r
    requires p.pnext == (if r == [] then p else r[0]) && (r != [] ==> r[|r| - 1].pnext == p)
    requires forall k {:trigger LeadsOn(r, k)} :: 0 <= k < |r| - 1 ==> LeadsOn(r, k)
    ensures Linked(r + [p]) && Distinct(r + [p])
  {
    var t := r + [p];
    forall k: nat | k < |t| ensures LeadsOn(t, k) {
      assert k < |r| - 1 ==> LeadsOn(r, k);
    }
  }

  lemma LinksOf(r: seq<Process>)
    requires Linked(r)
    ensures forall k {:trigger LeadsOn(r, k)} :: 0 <= k < |r| ==> LeadsOn(r, k)
  {
  }

  /** The ring without process i is linked once its predecessor leads to its successor. */
  lemma LinkedWithout(r: seq<Process>, i: nat, h: nat)
    requires Distinct(r) && |r| > 1 && i < |r| && h == if i > 0 then i - 1 else |r| - 1
    requires forall k {:trigger LeadsOn(r, k)} :: 0 <= k < |r| && k != i && k != h ==> LeadsOn(r, k)
    requires r[h].pnext == r[if i + 1 < |r| then i + 1 else 0]
    ensures Linked(Without(r, i))
  {
    var t := Without(r, i);
    forall j: nat | j < |t| ensures LeadsOn(t, j) {
      NextWithout(r, i, j);
      var k := if j < i then j else j + 1;
      assert k != h ==> LeadsOn(r, k);
    }
  }

  lemma NextWithout<T>(r: seq<T>, i: nat, j: nat)
    requires |r| > 1 && i < |r| && j < |r| - 1
    ensures var t := Without(r, i);
      var k, h := if j < i then j else j + 1, if i > 0 then i - 1 else |r| - 1;
      && |t| == |r| - 1 && t[j] == r[k] && k != i
      && t[if j + 1 < |t| then j + 1 else 0]
         == if k == h then r[if i + 1 < |r| then i + 1 else 0] else r[if k + 1 < |r| then k + 1 else 0]
  {
  }

  /** What is left is a ring, with its own head and tail. */
  lemma RingWithout(r: seq<Process>, i: nat, h: nat, head: Process?, tail: Process?, pc: Process?)
    requires Distinct(r) && |r| > 1 && i < |r| && h == if i > 0 then i - 1 else |r| - 1
    requires forall k {:trigger LeadsOn(r, k)} :: 0 <= k < |r| && k != i && k != h ==> LeadsOn(r, k)
    requires r[h].pnext == r[if i + 1 < |r| then i + 1 else 0]
    requires head == (if r[0] == r[i] then r[if i + 1 < |r| then i + 1 else 0] else r[0])
    requires tail == if r[|r| - 1] == r[i] then r[h] else r[|r| - 1]
    requires pc != null ==> pc in r && pc != r[i]
    ensures var t := Without(r, i);
      && Distinct(t) && Linked(t) && t != [] && head == t[0] && tail == t[|t| - 1] && (pc != null ==> pc in t)
  {
    Apart(r, i);
    WithoutOne(r, i);
    EndsWithout(r, i);
    StillIn(r, i, pc);
    LinkedWithout(r, i, h);
  }

  lemma EndsWithout(r: seq<Process>, i: nat)
    requires |r| > 1 && i < |r|
    ensures var t := Without(r, i);
      && t != [] && t[0] == (if i == 0 then r[1] else r[0])
      && t[|t| - 1] == if i == |r| - 1 then r[i - 1] else r[|r| - 1]
  {
  }

  lemma ScheduleIs(s: S.Sched, now: nat)
    requires s.procs != [] && S.WellFormed(s)
    ensures var j := S.PickFrom(s.procs, s.cur, 1);
      S.Schedule(s, now) == if j == s.cur then s else s.(procs := S.Switch(s.procs, s.cur, j, now), cur := j)
  {
  }

  lemma WithoutOne(r: seq<Process>, i: nat)
    requires Distinct(r) && i < |r|
    ensures Distinct(Without(r, i))
  {
  }

  lemma StillIn(r: seq<Process>, i: nat, p: Process?)
    requires i < |r| && (p != null ==> p in r)
    ensures p != null && p != r[i] ==> p in Without(r, i)
  {
    assert r == r[..i] + [r[i]] + r[i + 1..];
  }

  /** In a ring of two or more, a process and its successor differ. */
  lemma NeighboursLinked(r: seq<Process>, i: nat)
    requires Distinct(r) && Linked(r) && i < |r|
    ensures |r| > 1 <==> r[i].pnext != r[i]
  {
    NextInRing(r, i);
  }

  function Yielded(procs: seq<S.Proc>, c: nat): (r: seq<S.Proc>)
    ensures |r| == |procs|
  {
    if c < |procs| && procs[c].state == S.RUNNING then procs[c := procs[c].(state := S.READY)] else procs
  }

  /** The last process takes over from process c, if there is one. */
  function Handover(procs: seq<S.Proc>, c: nat, now: nat): (r: seq<S.Proc>)
    requires procs != []
    ensures |r| == |procs|
  {
    var n := |procs| - 1;
    Yielded(procs, c)[n := Yielded(procs, c)[n].(state := S.RUNNING, lastScheduled := now, slices := 0)]
  }

  lemma EnqueueIs(s: S.Sched, v: S.Proc, makeCurrent: bool, now: nat)
    requires S.WellFormed(s)
    ensures S.Enqueue(s, v, makeCurrent, now) ==
      if s.procs == [] || makeCurrent
      then s.(procs := Handover(s.procs + [v], if s.procs == [] then 1 else s.cur, now), cur := |s.procs|, since := 0)
      else s.(procs := s.procs + [v.(state := S.READY)])
  {
  }
}
