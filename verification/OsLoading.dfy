/** When the loader adds the processes: not before their start times, one a slot, and not a slot later than that. */
module OsLoading {
  import opened Options
  import opened Os
  import B = Barrier
  import OP = OsProcesses

  function Max(a: nat, b: nat): nat { if a >= b then a else b }

  /** The slot in which process `p` is to be added, given when those before it were. */
  function Due(g: Config, added: seq<nat>, p: nat): nat
    requires p < |g.starts| && p <= |added|
  {
    if p == 0 then g.starts[0] else Max(g.starts[p], added[p - 1] + 1)
  }

  ghost predicate AddedOnTime(g: Config, added: seq<nat>, time: nat, p: nat)
    requires p < |added| && p < |g.starts|
  {
    added[p] == Due(g, added, p) && added[p] <= time
  }

  ghost predicate OnTime(g: Config, s: Os)
    requires Shape(g, s)
  {
    |s.added| == s.next && (forall p :: 0 <= p < s.next ==> AddedOnTime(g, s.added, s.b.time, p))
  }

  /** The slot before which the loader does not look at the next process. */
  function Earliest(s: Os): nat
    requires s.next <= |s.added|
  {
    if s.next == 0 then 0 else s.added[s.next - 1] + 1
  }

  /** The loader's slot, or the next one if it has finished with this, is neither too early nor too late. */
  ghost predicate Waits(g: Config, s: Os)
    requires Shape(g, s) && OnTime(g, s)
  {
    s.next < |g.sizes| ==>
      var slot, due := s.b.started[0], Due(g, s.added, s.next);
      if s.b.devs[0].Waiting? || s.loader.LoadEndSlot? then Earliest(s) <= slot + 1 <= due
      else if s.loader.AddProc? then slot == due
      else Earliest(s) <= slot <= due
  }

  /** While the loader runs, its slot is the time. */
  lemma LoaderTime(g: Config, s: Os)
    requires OP.Control(g, s) && s.b.devs[0].Running?
    ensures s.b.time == s.b.started[0]
  {
    assert B.DeviceInv(s.b, 0);
  }

  ghost predicate SameLoader(s: Os, r: Os) {
    && r.next == s.next && r.added == s.added && r.loader == s.loader
    && |r.b.devs| == |s.b.devs| > 0 && r.b.devs[0] == s.b.devs[0]
    && |r.b.started| == |s.b.started| > 0 && r.b.started[0] == s.b.started[0]
    && s.b.time <= r.b.time
  }

  lemma CpuLeavesLoader(g: Config, s: Os, c: nat)
    requires Shape(g, s) && CpuEnabled(g, s, c)
    ensures SameLoader(s, CpuNext(g, s, c))
  {
    if s.b.devs[c + 1].Running? {
      match s.cpus[c].pc
      case Top => assert CpuTop(g, s, c).b == s.b;
      case Recheck => assert CpuRecheck(g, s, c).b == s.b;
      case Execute => assert CpuExecute(g, s, c).b == s.b;
      case _ =>
    }
  }

  lemma OthersLeaveLoader(g: Config, s: Os, t: Thread)
    requires Shape(g, s) && Enabled(g, s, t) && !t.LoaderThread?
    ensures SameLoader(s, Next(g, s, t))
  {
    if t.CpuThread? { CpuLeavesLoader(g, s, t.c); }
  }

  lemma SameKeepsOnTime(g: Config, s: Os, r: Os)
    requires Shape(g, s) && Shape(g, r) && SameLoader(s, r) && OnTime(g, s) && Waits(g, s)
    ensures OnTime(g, r) && Waits(g, r)
  {
    forall p | 0 <= p < r.next ensures AddedOnTime(g, r.added, r.b.time, p) {
      assert AddedOnTime(g, s.added, s.b.time, p);
    }
  }

  /** One more process is added when it is due. */
  lemma DueAppended(g: Config, added: seq<nat>, time: nat)
    requires |added| < |g.starts| && Due(g, added, |added|) == time
    requires forall p :: 0 <= p < |added| ==> AddedOnTime(g, added, time, p)
    ensures forall p :: 0 <= p <= |added| ==> AddedOnTime(g, added + [time], time, p)
  {
    forall p | 0 <= p <= |added| ensures AddedOnTime(g, added + [time], time, p) {
      assert p < |added| ==> AddedOnTime(g, added, time, p);
    }
  }

  /** The loader adds a process. */
  lemma AddKeepsOnTime(g: Config, s: Os, r: Os)
    requires Shape(g, s) && Shape(g, r) && OnTime(g, s) && Waits(g, s)
    requires s.b.devs[0].Running? && s.b.time == s.b.started[0] && s.loader.AddProc? && s.next < |g.sizes|
    requires r.b == s.b && r.next == s.next + 1 && r.loader.LoadEndSlot? && r.added == s.added + [s.b.time]
    ensures OnTime(g, r) && Waits(g, r)
  {
    DueAppended(g, s.added, s.b.time);
    assert r.added[r.next - 1] == s.b.time;
  }

  /** Its other steps. */
  lemma LoaderMoveKeepsOnTime(g: Config, s: Os, r: Os)
    requires Shape(g, s) && Shape(g, r) && OnTime(g, s) && Waits(g, s) && r.next == s.next && r.added == s.added
    requires s.b.time == r.b.time && (s.b.devs[0].Running? ==> s.b.time == s.b.started[0])
    requires || (s.b.devs[0].Waiting? && r.b.devs[0].Running? && r.b.started[0] == s.b.started[0] + 1
                 && s.loader.LoadTop? && r.loader.LoadTop?)
             || (s.b.devs[0].Running? && r.b.started[0] == s.b.started[0]
                 && (|| (s.loader.LoadEndSlot? && r.loader.LoadTop? && r.b.devs[0].Waiting?)
                     || (s.loader.LoadTop? && r.b.devs[0].Running? && s.next < |g.sizes|
                         && r.loader == if s.b.time < g.starts[s.next] then LoadEndSlot else AddProc)
                     || s.next == |g.sizes|))
    ensures OnTime(g, r) && Waits(g, r)
  {
  }

  lemma LoaderKeepsOnTime(g: Config, s: Os)
    requires OP.Control(g, s) && LoaderEnabled(g, s) && OnTime(g, s) && Waits(g, s) && Shape(g, LoaderNext(g, s))
    ensures OnTime(g, LoaderNext(g, s)) && Waits(g, LoaderNext(g, s))
  {
    if s.b.devs[0].Running? { LoaderTime(g, s); }
    if s.b.devs[0].Running? && s.loader.AddProc? {
      AddKeepsOnTime(g, s, LoaderNext(g, s));
    } else {
      LoaderMoveKeepsOnTime(g, s, LoaderNext(g, s));
    }
  }

  lemma NextKeepsOnTime(g: Config, s: Os, t: Thread)
    requires OP.Control(g, s) && Enabled(g, s, t) && OnTime(g, s) && Waits(g, s) && Shape(g, Next(g, s, t))
    ensures OnTime(g, Next(g, s, t)) && Waits(g, Next(g, s, t))
  {
    if t.LoaderThread? {
      LoaderKeepsOnTime(g, s);
    } else {
      OthersLeaveLoader(g, s, t);
      SameKeepsOnTime(g, s, Next(g, s, t));
    }
  }

  lemma {:induction false} ReachableOnTime(g: Config, s0: Os, run: seq<Thread>, s: Os)
    requires Initial(g, s0) && Reaches(g, s0, run, s)
    ensures OP.Inv(g, s) && OnTime(g, s) && Waits(g, s)
    decreases |run|
  {
    OP.ReachableInv(g, s0, run, s);
    if run != [] {
      var n := |run| - 1;
      var p :| Reaches(g, s0, run[..n], p) && Shape(g, p) && Enabled(g, p, run[n]) && s == Next(g, p, run[n]);
      ReachableOnTime(g, s0, run[..n], p);
      NextKeepsOnTime(g, p, run[n]);
    }
  }

  /** In every interleaving every process is added in its start slot, or one slot after the process before it if that is
      later: never earlier and never later. */
  lemma LoadedOnTime(g: Config, s0: Os, run: seq<Thread>, s: Os, p: nat)
    requires Initial(g, s0) && Reaches(g, s0, run, s) && p < s.next
    ensures Shape(g, s) && |s.added| == s.next
    ensures s.added[p] == if p == 0 then g.starts[0] else Max(g.starts[p], s.added[p - 1] + 1)
    ensures s.added[p] <= s.b.time
  {
    ReachableOnTime(g, s0, run, s);
    assert AddedOnTime(g, s.added, s.b.time, p);
  }

  /** What process is still to come is not overdue: while the loader runs, the time is at most its slot. */
  lemma NothingOverdue(g: Config, s0: Os, run: seq<Thread>, s: Os)
    requires Initial(g, s0) && Reaches(g, s0, run, s) && Shape(g, s) && s.next < |g.sizes| && s.b.devs[0].Running?
    ensures s.next <= |s.added|
    ensures s.b.time <= Due(g, s.added, s.next)
  {
    ReachableOnTime(g, s0, run, s);
    LoaderTime(g, s);
  }
}
