/** Every interleaving comes to an end: the time is bounded by start times and code sizes, no thread takes more than so
    many steps, and nobody waits for ever. */
module OsTermination {
  import opened Options
  import opened MultilevelQueue
  import opened Os
  import B = Barrier
  import OP = OsProcesses
  import OL = OsLoading
  import OC = OsCompletion

  // ---------- The time ----------

  function Latest(starts: seq<nat>): nat {
    if starts == [] then 0 else OL.Max(Latest(starts[1..]), starts[0])
  }

  lemma {:induction false} LatestIs(starts: seq<nat>, p: nat)
    requires p < |starts|
    ensures starts[p] <= Latest(starts)
  {
    if p > 0 { LatestIs(starts[1..], p - 1); }
  }

  /** Each process arrives by the latest start time plus one slot for every process before it. */
  lemma {:induction false} ArrivesBy(g: Config, s: Os, p: nat)
    requires Shape(g, s) && OL.OnTime(g, s) && p < s.next
    ensures s.added[p] <= Latest(g.starts) + p
  {
    LatestIs(g.starts, p);
    assert OL.AddedOnTime(g, s.added, s.b.time, p);
    if p > 0 { ArrivesBy(g, s, p - 1); }
  }

  lemma DueBy(g: Config, s: Os)
    requires Shape(g, s) && OL.OnTime(g, s) && s.next < |g.sizes|
    ensures OL.Due(g, s.added, s.next) <= Latest(g.starts) + s.next
  {
    LatestIs(g.starts, s.next);
    if s.next > 0 { ArrivesBy(g, s, s.next - 1); }
  }

  /** While there are processes to come the time is not past the next one's arrival. */
  lemma LoaderInTime(g: Config, s: Os)
    requires OP.Control(g, s) && OL.OnTime(g, s) && OL.Waits(g, s) && s.next < |g.sizes|
    ensures s.b.time <= Latest(g.starts) + s.next
  {
    assert B.DeviceInv(s.b, 0);
    DueBy(g, s);
  }

  /** A number of slots that is enough for every interleaving. */
  function TimeBound(g: Config): nat {
    Latest(g.starts) + |g.sizes| + OC.TotalWork(g.sizes) + 2
  }

  /** In every interleaving, on any number of CPUs, the time stays within latest start, processes and instructions. */
  lemma TimeIsBounded(g: Config, s0: Os, run: seq<Thread>, s: Os)
    requires Initial(g, s0) && Reaches(g, s0, run, s)
    ensures s.b.time <= TimeBound(g)
  {
    OL.ReachableOnTime(g, s0, run, s);
    if s.next < |g.sizes| {
      LoaderInTime(g, s);
    } else {
      OC.DoneByDeadline(g, s0, run, s);
      if s.next > 0 { ArrivesBy(g, s, s.next - 1); }
    }
  }

  // ---------- Nobody waits for ever ----------

  /** CPU `c` is about to put its process back into a queue that is full. */
  ghost predicate Overflows(g: Config, s: Os, c: nat)
    requires Shape(g, s) && c < |s.cpus|
  {
    && s.b.devs[c + 1].Running? && PutsBack(g, s, c)
    && !HasRoom(s.ready, g.prios[s.cpus[c].proc.value])
  }

  /** Some CPU is, or the loader is about to add to such a queue; then the program ends. */
  ghost predicate FullQueue(g: Config, s: Os)
    requires Shape(g, s)
  {
    || (exists c :: 0 <= c < |s.cpus| && Overflows(g, s, c))
    || (s.b.devs[0].Running? && s.loader.AddProc? && !HasRoom(s.ready, g.prios[s.next]))
  }

  /** All CPUs and the loader have left, and so has the timer. */
  ghost predicate Ended(s: Os) {
    B.AllGone(s.b) && s.b.timer.Exited?
  }

  lemma CpuBlocked(g: Config, s: Os, c: nat)
    requires OP.Control(g, s) && c < |s.cpus| && !CpuEnabled(g, s, c) && !FullQueue(g, s)
    ensures s.b.devs[c + 1].Gone? || (s.b.devs[c + 1].Waiting? && s.b.posted[c + 1])
  {
    assert !Overflows(g, s, c);
  }

  lemma TimerMoves(b: B.Sync)
    requires B.Inv(b) && !b.timer.Exited?
    requires forall d :: 0 <= d < |b.devs| ==> b.devs[d].Gone? || (b.devs[d].Waiting? && b.posted[d])
    ensures B.Enabled(b, B.TimerStep)
  {
  }

  lemma SomeThreadMoves(g: Config, s: Os)
    requires OP.Control(g, s) && !Ended(s) && !FullQueue(g, s)
    ensures exists t: Thread :: !t.MainThread? && Enabled(g, s, t)
  {
    if c :| 0 <= c < |s.cpus| && CpuEnabled(g, s, c) {
      assert Enabled(g, s, CpuThread(c));
    } else if LoaderEnabled(g, s) {
      assert Enabled(g, s, LoaderThread);
    } else {
      forall d | 0 <= d < |s.b.devs| ensures s.b.devs[d].Gone? || (s.b.devs[d].Waiting? && s.b.posted[d]) {
        if d > 0 { CpuBlocked(g, s, d - 1); }
      }
      TimerMoves(s.b);
      assert Enabled(g, s, TimerThread);
    }
  }

  /** As long as the simulation has not ended some CPU, the loader or the timer can move, unless a queue overflows. */
  lemma SomebodyMoves(g: Config, s0: Os, run: seq<Thread>, s: Os)
    requires Initial(g, s0) && Reaches(g, s0, run, s)
    ensures Shape(g, s)
    ensures !Ended(s) && !FullQueue(g, s) ==> exists t: Thread :: !t.MainThread? && Enabled(g, s, t)
  {
    OP.ReachableInv(g, s0, run, s);
    if !Ended(s) && !FullQueue(g, s) { SomeThreadMoves(g, s); }
  }

  /** When it has ended all processes have been loaded and are finished. */
  lemma EndedIsComplete(g: Config, s0: Os, run: seq<Thread>, s: Os)
    requires Initial(g, s0) && Reaches(g, s0, run, s) && Ended(s)
    ensures s.next == |g.sizes| && OP.AllFinished(g, s)
  {
    OP.ReachableInv(g, s0, run, s);
    forall c | 0 <= c < |s.cpus| ensures OP.Stopped(s, c) { }
    OP.NoProcessLeftBehind(g, s0, run, s);
  }

  // ---------- No idle slots at the end ----------

  /** The CPU has left, holds a process, or will before it ends its slot, unless it leaves. */
  ghost predicate Occupied(s: Os, c: nat)
    requires |s.b.devs| == |s.cpus| + 1 && c < |s.cpus|
  {
    || s.b.devs[c + 1].Gone? || s.cpus[c].proc.Some?
    || s.cpus[c].pc in {GetAfterFinish, GetAfterPut, Count, Recheck, Leave}
  }

  lemma CpuStaysOccupied(g: Config, s: Os, c: nat)
    requires OP.Control(g, s) && s.b.devs[0].Gone? && CpuEnabled(g, s, c) && Occupied(s, c)
    requires Shape(g, CpuNext(g, s, c))
    ensures Occupied(CpuNext(g, s, c), c)
  {
    assert OP.CpuControl(s, c);
    if AtBarrier(s, c) { CpuAtBarrier(g, s, c); }
  }

  lemma NextStaysOccupied(g: Config, s: Os, t: Thread, c: nat)
    requires OP.Control(g, s) && s.b.devs[0].Gone? && Enabled(g, s, t) && c < |s.cpus| && Occupied(s, c)
    requires Shape(g, Next(g, s, t))
    ensures Next(g, s, t).b.devs[0].Gone? && Occupied(Next(g, s, t), c)
  {
    if t.CpuThread? {
      CpuStepCounted(g, s, t.c);
      if t.c == c {
        CpuStaysOccupied(g, s, c);
      } else {
        assert Next(g, s, t).b.devs[c + 1] == s.b.devs[c + 1];
      }
    }
  }

  lemma {:induction false} StaysOccupied(g: Config, s: Os, run: seq<Thread>, r: Os, c: nat)
    requires OP.Inv(g, s) && s.b.devs[0].Gone? && c < |s.cpus| && Occupied(s, c) && Reaches(g, s, run, r)
    ensures OP.Inv(g, r) && r.b.devs[0].Gone? && c < |r.cpus| && Occupied(r, c)
    decreases |run|
  {
    if run != [] {
      var n := |run| - 1;
      var p :| Reaches(g, s, run[..n], p) && Shape(g, p) && Enabled(g, p, run[n]) && r == Next(g, p, run[n]);
      StaysOccupied(g, s, run[..n], p, c);
      OP.NextKeepsInv(g, p, run[n]);
      NextStaysOccupied(g, p, run[n], c);
    }
  }

  /** After the loader has left, a CPU that has a process has one whenever it waits for the next slot, until it leaves:
      it never again spends a slot without working. */
  lemma NeverIdleAgain(g: Config, s0: Os, before: seq<Thread>, s: Os, run: seq<Thread>, r: Os, c: nat, p: Pid)
    requires Initial(g, s0) && Reaches(g, s0, before, s) && Reaches(g, s, run, r)
    requires |s.b.devs| > 0 && s.b.devs[0].Gone? && OP.HeldBy(s, c, p)
    ensures Shape(g, r) && c < |r.cpus| && (r.b.devs[c + 1].Waiting? ==> r.cpus[c].proc.Some?)
  {
    OP.ReachableInv(g, s0, before, s);
    StaysOccupied(g, s, run, r, c);
    assert OP.CpuControl(r, c);
  }

  // ---------- Steps ----------

  /** How many steps of a run are of this thread. */
  function Steps(run: seq<Thread>, t: Thread): nat {
    if run == [] then 0
    else
      var n := |run| - 1;
      Steps(run[..n], t) + if run[n] == t then 1 else 0
  }

  /** Steps that a CPU at `pc` has taken in its slot. */
  function PcSteps(pc: CpuPc): nat {
    match pc
    case Top => 0
    case GetIdle => 1
    case GetAfterFinish => 1
    case GetAfterPut => 1
    case CheckCount => 2
    case Count => 2
    case Recheck => 3
    case Execute => 4
    case EndSlot => 5
    case Leave => 5
  }

  function CpuSteps(d: B.Device, pc: CpuPc): nat {
    if d.Running? then PcSteps(pc) else 6
  }

  function LoaderSteps(d: B.Device, pc: LoaderPc): nat {
    match d
    case Waiting => 3
    case Gone => 3
    case Running =>
      match pc
      case LoadTop => 0
      case AddProc => 1
      case SetDone => 1
      case LoadEndSlot => 2
      case LoadLeave => 2
  }

  /** Steps of the timer that visits all devices once a slot and then goes on. */
  function Visits(devices: nat, slots: nat): nat {
    if slots == 0 then 0 else Visits(devices, slots - 1) + devices + 1
  }

  /** It visits them to collect, ticks, visits them to release, and begins again. */
  ghost predicate TimerSteps(b: B.Sync, steps: nat) {
    match b.timer
    case Collect(k, _) => steps <= 2 * Visits(|b.devs|, b.time) + k
    case Release(k, _) => steps + |b.devs| + 1 <= 2 * Visits(|b.devs|, b.time) + k
    case Exited => steps <= 2 * Visits(|b.devs|, b.time)
  }

  ghost predicate StepsBounded(s: Os, run: seq<Thread>)
    requires B.Shape(s.b) && |s.b.devs| == |s.cpus| + 1
  {
    && (forall c :: 0 <= c < |s.cpus| ==>
          Steps(run, CpuThread(c)) <= 7 * s.b.started[c + 1] + CpuSteps(s.b.devs[c + 1], s.cpus[c].pc))
    && Steps(run, LoaderThread) <= 4 * s.b.started[0] + LoaderSteps(s.b.devs[0], s.loader)
    && TimerSteps(s.b, Steps(run, TimerThread))
  }

  ghost predicate AtBarrier(s: Os, c: nat)
    requires |s.b.devs| == |s.cpus| + 1 && c < |s.cpus|
  {
    s.b.devs[c + 1].Waiting? || s.cpus[c].pc in {EndSlot, Leave}
  }

  /** Between two barriers a CPU only moves on. */
  lemma CpuInside(g: Config, s: Os, c: nat)
    requires Shape(g, s) && CpuEnabled(g, s, c) && !AtBarrier(s, c)
    ensures var r := CpuNext(g, s, c);
            OP.OnlyCpu(s, r, c) && r.b == s.b && PcSteps(s.cpus[c].pc) < PcSteps(r.cpus[c].pc)
  {
    match s.cpus[c].pc
    case Top => assert CpuNext(g, s, c) == CpuTop(g, s, c);
    case Recheck => assert CpuNext(g, s, c) == CpuRecheck(g, s, c);
    case Execute => assert CpuNext(g, s, c) == CpuExecute(g, s, c);
    case _ =>
  }

  lemma CpuAtBarrier(g: Config, s: Os, c: nat)
    requires Shape(g, s) && CpuEnabled(g, s, c) && AtBarrier(s, c)
    ensures var r := CpuNext(g, s, c);
            && OP.OnlyCpu(s, r, c)
            && r.b == B.Next(s.b, if s.b.devs[c + 1].Waiting? then B.Proceed(c + 1)
                                  else if s.cpus[c].pc.EndSlot? then B.Signal(c + 1) else B.Detach(c + 1))
            && (s.b.devs[c + 1].Waiting? ==> r.cpus == s.cpus)
  {
  }

  /** Every step of CPU `c` is one of at most seven in its slot, and none of another thread's. */
  ghost predicate CpuCounted(s: Os, r: Os, c: nat)
    requires B.Shape(s.b) && B.Shape(r.b) && |s.b.devs| == |r.b.devs| == |s.cpus| + 1 == |r.cpus| + 1 && c < |s.cpus|
  {
    && 7 * s.b.started[c + 1] + CpuSteps(s.b.devs[c + 1], s.cpus[c].pc)
       < 7 * r.b.started[c + 1] + CpuSteps(r.b.devs[c + 1], r.cpus[c].pc)
    && (forall d :: 0 <= d < |s.cpus| && d != c ==> r.cpus[d] == s.cpus[d])
    && (forall e :: 0 <= e < |s.b.devs| && e != c + 1 ==>
          r.b.devs[e] == s.b.devs[e] && r.b.started[e] == s.b.started[e])
    && r.b.timer == s.b.timer && r.b.time == s.b.time
  }

  lemma CpuStepCounted(g: Config, s: Os, c: nat)
    requires OP.Control(g, s) && CpuEnabled(g, s, c) && Shape(g, CpuNext(g, s, c))
    ensures CpuCounted(s, CpuNext(g, s, c), c)
  {
    assert OP.CpuControl(s, c);
    if AtBarrier(s, c) { CpuAtBarrier(g, s, c); } else { CpuInside(g, s, c); }
  }

  lemma LoaderStepCounted(g: Config, s: Os)
    requires OP.Control(g, s) && LoaderEnabled(g, s)
    ensures var r := LoaderNext(g, s);
            && |r.b.devs| == |s.b.devs| && |r.b.started| == |s.b.started|
            && 4 * s.b.started[0] + LoaderSteps(s.b.devs[0], s.loader) + 1
               <= 4 * r.b.started[0] + LoaderSteps(r.b.devs[0], r.loader)
            && r.cpus == s.cpus && r.b.timer == s.b.timer && r.b.time == s.b.time
            && r.b.devs[1..] == s.b.devs[1..] && r.b.started[1..] == s.b.started[1..]
  {
  }

  /** Every step of the timer is one of its round. */
  lemma TimerStepCounted(b: B.Sync, steps: nat)
    requires B.Inv(b) && B.Enabled(b, B.TimerStep) && TimerSteps(b, steps)
    ensures TimerSteps(B.Next(b, B.TimerStep), steps + 1)
  {
  }

  // ---------- Runs ----------

  lemma CpuKeepsBounds(s: Os, r: Os, run: seq<Thread>, c: nat)
    requires B.Shape(s.b) && B.Shape(r.b) && |s.b.devs| == |r.b.devs| == |s.cpus| + 1 == |r.cpus| + 1 && c < |s.cpus|
    requires run != [] && StepsBounded(s, run[..|run| - 1]) && run[|run| - 1] == CpuThread(c)
    requires CpuCounted(s, r, c) && r.loader == s.loader
    ensures StepsBounded(r, run)
  {
    forall d | 0 <= d < |r.cpus|
      ensures Steps(run, CpuThread(d)) <= 7 * r.b.started[d + 1] + CpuSteps(r.b.devs[d + 1], r.cpus[d].pc)
    {
      var e := d + 1;
      assert d != c ==> r.b.devs[e] == s.b.devs[e] && r.b.started[e] == s.b.started[e];
    }
  }

  lemma LoaderKeepsBounds(g: Config, s: Os, run: seq<Thread>)
    requires OP.Control(g, s) && LoaderEnabled(g, s) && Shape(g, LoaderNext(g, s))
    requires run != [] && StepsBounded(s, run[..|run| - 1]) && run[|run| - 1] == LoaderThread
    ensures StepsBounded(LoaderNext(g, s), run)
  {
    LoaderStepCounted(g, s);
    var r := LoaderNext(g, s);
    forall d | 0 <= d < |r.cpus|
      ensures Steps(run, CpuThread(d)) <= 7 * r.b.started[d + 1] + CpuSteps(r.b.devs[d + 1], r.cpus[d].pc)
    {
      assert r.b.devs[d + 1] == r.b.devs[1..][d] && r.b.started[d + 1] == r.b.started[1..][d];
      assert s.b.devs[d + 1] == s.b.devs[1..][d] && s.b.started[d + 1] == s.b.started[1..][d];
    }
  }

  lemma TimerKeepsBounds(g: Config, s: Os, r: Os, run: seq<Thread>, t: Thread)
    requires OP.Control(g, s) && (t.TimerThread? || t.MainThread?) && Enabled(g, s, t) && r == Next(g, s, t)
    requires run != [] && StepsBounded(s, run[..|run| - 1]) && run[|run| - 1] == t && Shape(g, r)
    ensures StepsBounded(r, run)
  {
    if t.TimerThread? { TimerStepCounted(s.b, Steps(run[..|run| - 1], TimerThread)); }
  }

  lemma NextKeepsBounds(g: Config, s: Os, r: Os, run: seq<Thread>, t: Thread)
    requires OP.Control(g, s) && Enabled(g, s, t) && r == Next(g, s, t) && OP.Control(g, r)
    requires run != [] && StepsBounded(s, run[..|run| - 1]) && run[|run| - 1] == t
    ensures StepsBounded(r, run)
  {
    match t
    case CpuThread(c) =>
      CpuStepCounted(g, s, c);
      CpuKeepsBounds(s, r, run, c);
    case LoaderThread => LoaderKeepsBounds(g, s, run);
    case _ => TimerKeepsBounds(g, s, r, run, t);
  }

  lemma {:induction false} ReachableBounds(g: Config, s0: Os, run: seq<Thread>, s: Os)
    requires Initial(g, s0) && Reaches(g, s0, run, s)
    ensures OP.Inv(g, s) && StepsBounded(s, run)
    decreases |run|
  {
    OP.ReachableInv(g, s0, run, s);
    if run != [] {
      var n := |run| - 1;
      var p :| Reaches(g, s0, run[..n], p) && Shape(g, p) && Enabled(g, p, run[n]) && s == Next(g, p, run[n]);
      ReachableBounds(g, s0, run[..n], p);
      NextKeepsBounds(g, p, s, run, run[n]);
    }
  }

  lemma {:induction false} VisitsGrow(devices: nat, slots: nat, bound: nat)
    requires slots <= bound
    ensures Visits(devices, slots) <= Visits(devices, bound)
    decreases bound - slots
  {
    if slots < bound { VisitsGrow(devices, slots + 1, bound); }
  }

  lemma TimerStepsByTime(b: B.Sync, steps: nat, bound: nat)
    requires B.Inv(b) && TimerSteps(b, steps) && b.time <= bound
    ensures steps <= 2 * Visits(|b.devs|, bound + 1)
  {
    VisitsGrow(|b.devs|, b.time + 1, bound + 1);
  }

  /** What a thread's steps come to in `bound` slots and the one that follows. */
  function Limit(g: Config, bound: nat, t: Thread): nat {
    match t
    case CpuThread(_) => 7 * (bound + 1)
    case LoaderThread => 4 * (bound + 1)
    case _ => 2 * Visits(g.cpus + 1, bound + 1)
  }

  lemma StepsByTime(g: Config, s: Os, run: seq<Thread>, t: Thread, bound: nat)
    requires Shape(g, s) && B.Inv(s.b) && StepsBounded(s, run) && s.b.time <= bound
    requires !t.MainThread? && (t.CpuThread? ==> t.c < g.cpus)
    ensures Steps(run, t) <= Limit(g, bound, t)
  {
    match t
    case CpuThread(c) => assert B.DeviceInv(s.b, c + 1);
    case LoaderThread => assert B.DeviceInv(s.b, 0);
    case _ => TimerStepsByTime(s.b, Steps(run, t), bound);
  }

  /** No interleaving goes on for ever: each CPU, the loader and the timer take only so many steps, which depend on the
      configuration alone. */
  lemma StepsAreBounded(g: Config, s0: Os, run: seq<Thread>, s: Os, t: Thread)
    requires Initial(g, s0) && Reaches(g, s0, run, s)
    requires !t.MainThread? && (t.CpuThread? ==> t.c < g.cpus)
    ensures Steps(run, t) <= Limit(g, TimeBound(g), t)
  {
    ReachableBounds(g, s0, run, s);
    TimeIsBounded(g, s0, run, s);
    StepsByTime(g, s, run, t, TimeBound(g));
  }
}
