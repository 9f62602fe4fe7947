/** What each process executes, and how often it is dispatched, does not depend on CPUs or interleaving. */
module OsExecution {
  import opened Options
  import opened MultilevelQueue
  import opened Os
  import opened OsProcesses

  /** The instruction indices of process `p` in the order they were executed. */
  function Executed(log: seq<(Pid, nat)>, p: Pid): seq<nat> {
    if log == [] then []
    else
      var n := |log| - 1;
      Executed(log[..n], p) + if log[n].0 == p then [log[n].1] else []
  }

  function UpTo(n: nat): (r: seq<nat>)
    ensures |r| == n && forall i :: 0 <= i < n ==> r[i] == i
  {
    seq(n, i => i)
  }

  function Min(a: int, b: int): int { if a <= b then a else b }

  /** Instructions that `d` dispatches allow. */
  function Granted(d: nat, slot: nat): nat {
    if d == 0 then 0 else Granted(d - 1, slot) + slot
  }

  /** A process about to be dispatched has used up its earlier time slices and is not finished, unless it is new. */
  ghost predicate Fresh(n: nat, slot: nat, q: Proc) {
    q.pc == Granted(q.dispatched, slot) && (q.dispatched == 0 || q.pc < n)
  }

  /** A dispatched process with `left` instructions to go in its slice. */
  ghost predicate Sliced(n: nat, slot: nat, q: Proc, left: nat) {
    && q.dispatched >= 1 && left <= slot
    && q.pc == Min(n, Granted(q.dispatched, slot) - left)
    && (q.dispatched >= 2 ==> Granted(q.dispatched - 1, slot) < n)
  }

  /** Dispatches a process of `n` instructions needs. */
  function Slices(n: nat, slot: nat): nat
    requires slot > 0
  {
    if n == 0 then 1 else CeilDiv(n, slot)
  }

  ghost predicate CpuProgress(g: Config, s: Os, c: nat)
    requires Shape(g, s) && c < |s.cpus|
  {
    var u := s.cpus[c];
    u.proc.Some? ==>
      var n, q := g.sizes[u.proc.value], s.procs[u.proc.value];
      if u.pc in {Recheck, Count} && u.left == 0 then Fresh(n, g.slot, q)
      else Sliced(n, g.slot, q, u.left) && (u.pc in {Recheck, Execute} ==> u.left > 0)
  }

  ghost predicate Progress(g: Config, s: Os)
    requires Shape(g, s)
  {
    && (forall p :: p in Queued(s) && p < |g.sizes| ==> Fresh(g.sizes[p], g.slot, s.procs[p]))
    && (forall p :: s.next <= p < |g.sizes| ==> s.procs[p] == Proc(0, 0))
    && (forall c :: 0 <= c < |s.cpus| ==> CpuProgress(g, s, c))
    && (forall p :: p in s.finished && p < |g.sizes| ==>
          s.procs[p].pc == g.sizes[p] && s.procs[p].dispatched == Slices(g.sizes[p], g.slot))
    && (forall p :: 0 <= p < |g.sizes| ==> Executed(s.log, p) == UpTo(s.procs[p].pc))
  }

  lemma {:induction false} LeastSlices(n: int, slot: nat, d: nat)
    requires slot > 0 && d > 0 && n > 0 && Granted(d - 1, slot) < n <= Granted(d, slot)
    ensures d == CeilDiv(n, slot)
    decreases d
  {
    if d > 1 { LeastSlices(n - slot, slot, d - 1); }
  }

  /** A process that has reached its end in its slice was dispatched as often as it needed. */
  lemma SlicesOnFinish(n: nat, slot: nat, q: Proc, left: nat)
    requires slot > 0 && Sliced(n, slot, q, left) && q.pc == n
    ensures q.dispatched == Slices(n, slot)
  {
    if n > 0 { LeastSlices(n, slot, q.dispatched); }
  }

  // ---------- Preservation ----------

  /** A step that changes only CPU `c` and the process `p` it holds. */
  lemma ProgressOfOne(g: Config, s: Os, r: Os, c: nat, p: Pid)
    requires Shape(g, s) && Shape(g, r) && Places(s) && Progress(g, s) && OnlyCpu(s, r, c) && HeldBy(s, c, p)
    requires r.ready == s.ready && r.next == s.next && r.finished == s.finished
    requires p < |g.sizes| && r.procs == s.procs[p := r.procs[p]] && CpuProgress(g, r, c)
    requires forall q :: 0 <= q < |g.sizes| ==> Executed(r.log, q) == UpTo(r.procs[q].pc)
    ensures Progress(g, r)
  {
    forall d | 0 <= d < |r.cpus| ensures CpuProgress(g, r, d) {
      assert CpuProgress(g, s, d);
      if d != c && s.cpus[d].proc.Some? { assert HeldBy(s, d, s.cpus[d].proc.value); }
    }
  }

  /** CPU `c` lets go of its process `p`, to a queue or for good. */
  lemma ReleaseKeepsProgress(g: Config, s: Os, r: Os, c: nat, p: Pid)
    requires Shape(g, s) && Shape(g, r) && Places(s) && Progress(g, s) && OnlyCpu(s, r, c) && HeldBy(s, c, p)
    requires r.cpus[c].proc.None? && r.next == s.next && r.procs == s.procs && r.log == s.log && p < |g.sizes|
    requires || (r.finished == s.finished && OneMore(Queued(s), Queued(r), p) && Fresh(g.sizes[p], g.slot, s.procs[p]))
             || (r.finished == s.finished + {p} && Queued(r) == Queued(s) &&
                 s.procs[p].pc == g.sizes[p] && s.procs[p].dispatched == Slices(g.sizes[p], g.slot))
    ensures Progress(g, r)
  {
    forall d | 0 <= d < |r.cpus| ensures CpuProgress(g, r, d) {
      assert CpuProgress(g, s, d);
    }
  }

  lemma TopKeepsProgress(g: Config, s: Os, c: nat)
    requires OsProcesses.Inv(g, s) && Progress(g, s)
    requires CpuEnabled(g, s, c) && s.b.devs[c + 1].Running? && s.cpus[c].pc.Top? && s.cpus[c].proc.Some?
    requires Shape(g, CpuTop(g, s, c))
    ensures Progress(g, CpuTop(g, s, c))
  {
    var u, r := s.cpus[c], CpuTop(g, s, c);
    var p := u.proc.value;
    assert CpuShape(g, u) && CpuProgress(g, s, c) && HeldBy(s, c, p);
    if Finishes(g, s, c) {
      SlicesOnFinish(g.sizes[p], g.slot, s.procs[p], u.left);
      ReleaseKeepsProgress(g, s, r, c, p);
    } else if PutsBack(g, s, c) {
      PutConserves(s.ready, g.prios[p], p);
      ReleaseKeepsProgress(g, s, r, c, p);
    } else {
      ProgressOfOne(g, s, r, c, p);
    }
  }

  lemma GetKeepsProgress(g: Config, s: Os, r: Os, c: nat, p: Option<Pid>)
    requires OsProcesses.Inv(g, s) && Progress(g, s) && Shape(g, r)
    requires OnlyCpu(s, r, c) && Takes(s, r, p)
    requires r.next == s.next && r.procs == s.procs && r.finished == s.finished && r.log == s.log
    requires s.cpus[c].pc in {GetIdle, GetAfterFinish, GetAfterPut}
    requires r.cpus[c].proc == p && r.cpus[c].left == 0 && (p.Some? ==> r.cpus[c].pc in {Recheck, Count})
    ensures Progress(g, r)
  {
    if p.Some? { assert p.value in Queued(s); }
    forall d | 0 <= d < |r.cpus| ensures CpuProgress(g, r, d) {
      assert CpuProgress(g, s, d);
    }
  }

  /** CPU `c` goes on with its process `p`, in a new time slice if it has none left. */
  ghost predicate GoesOn(g: Config, s: Os, r: Os, c: nat, p: Pid)
    requires c < |s.cpus| && p < |s.procs|
  {
    var u, q := s.cpus[c], s.procs[p];
    && OnlyCpu(s, r, c) && r.ready == s.ready && r.next == s.next && r.finished == s.finished && r.log == s.log
    && if u.left == 0 then
         && r.cpus[c] == u.(pc := Execute, left := g.slot)
         && r.procs == s.procs[p := q.(dispatched := q.dispatched + 1)]
       else r.cpus[c] == u.(pc := Execute) && r.procs == s.procs
  }

  lemma RecheckGoesOn(g: Config, s: Os, c: nat)
    requires Shape(g, s) && c < |s.cpus| && s.cpus[c].proc.Some? && CpuShape(g, s.cpus[c])
    ensures GoesOn(g, s, CpuRecheck(g, s, c), c, s.cpus[c].proc.value)
  {
  }

  /** A process that goes on is in its slice, old or new. */
  lemma SliceGoesOn(n: nat, slot: nat, q: Proc, left: nat)
    requires if left == 0 then Fresh(n, slot, q) else Sliced(n, slot, q, left)
    ensures if left == 0 then Sliced(n, slot, q.(dispatched := q.dispatched + 1), slot) else Sliced(n, slot, q, left)
  {
  }

  lemma GoOnKeepsProgress(g: Config, s: Os, r: Os, c: nat, p: Pid)
    requires Places(s) && Shape(g, s) && Progress(g, s) && Shape(g, r) && HeldBy(s, c, p) && p < |g.sizes|
    requires s.cpus[c].pc.Recheck? && GoesOn(g, s, r, c, p)
    ensures Progress(g, r)
  {
    assert CpuProgress(g, s, c);
    SliceGoesOn(g.sizes[p], g.slot, s.procs[p], s.cpus[c].left);
    forall q | 0 <= q < |g.sizes| ensures Executed(r.log, q) == UpTo(r.procs[q].pc) {
      assert r.procs[q].pc == s.procs[q].pc;
    }
    ProgressOfOne(g, s, r, c, p);
  }

  lemma RecheckKeepsProgress(g: Config, s: Os, c: nat)
    requires Places(s) && Shape(g, s) && Progress(g, s) && c < |s.cpus|
    requires s.cpus[c].pc.Recheck? && s.cpus[c].proc.Some? && Shape(g, CpuRecheck(g, s, c))
    ensures Progress(g, CpuRecheck(g, s, c))
  {
    assert CpuShape(g, s.cpus[c]);
    RecheckGoesOn(g, s, c);
    GoOnKeepsProgress(g, s, CpuRecheck(g, s, c), c, s.cpus[c].proc.value);
  }

  lemma ExecutedNext(log: seq<(Pid, nat)>, p: Pid, q: Pid, i: nat)
    ensures Executed(log + [(q, i)], p) == Executed(log, p) + if q == p then [i] else []
  {
    assert (log + [(q, i)])[..|log|] == log;
  }

  /** Executing the instruction at the program counter keeps every process's record in step. */
  lemma LogNext(procs: seq<Proc>, log: seq<(Pid, nat)>, p: Pid, q: Pid)
    requires p < |procs| && q < |procs| && Executed(log, q) == UpTo(procs[q].pc)
    ensures Executed(log + [(p, procs[p].pc)], q) == UpTo(if q == p then procs[q].pc + 1 else procs[q].pc)
  {
    ExecutedNext(log, q, p, procs[p].pc);
    assert UpTo(procs[p].pc + 1) == UpTo(procs[p].pc) + [procs[p].pc];
  }

  /** One more instruction of the slice. */
  lemma SliceNext(n: nat, slot: nat, q: Proc, left: nat)
    requires Sliced(n, slot, q, left) && left > 0
    ensures Sliced(n, slot, if q.pc < n then q.(pc := q.pc + 1) else q, left - 1)
  {
  }

  /** CPU `c` executes the next instruction of its process `p`, if it has one. */
  ghost predicate ExecutesOne(g: Config, s: Os, r: Os, c: nat, p: Pid)
    requires c < |s.cpus| && p < |s.procs| && p < |g.sizes|
  {
    var u, q := s.cpus[c], s.procs[p];
    && OnlyCpu(s, r, c) && r.ready == s.ready && r.next == s.next && r.finished == s.finished
    && r.cpus[c] == u.(pc := EndSlot, left := if u.left > 0 then u.left - 1 else 0)
    && if q.pc < g.sizes[p] then r.procs == s.procs[p := q.(pc := q.pc + 1)] && r.log == s.log + [(p, q.pc)]
       else r.procs == s.procs && r.log == s.log
  }

  lemma ExecuteExecutesOne(g: Config, s: Os, c: nat)
    requires Shape(g, s) && c < |s.cpus| && s.cpus[c].pc.Execute? && CpuShape(g, s.cpus[c])
    ensures ExecutesOne(g, s, CpuExecute(g, s, c), c, s.cpus[c].proc.value)
  {
  }

  lemma ExecuteOneKeepsProgress(g: Config, s: Os, r: Os, c: nat, p: Pid)
    requires Places(s) && Shape(g, s) && Progress(g, s) && Shape(g, r) && HeldBy(s, c, p) && p < |g.sizes|
    requires s.cpus[c].pc.Execute? && ExecutesOne(g, s, r, c, p)
    ensures Progress(g, r)
  {
    assert CpuProgress(g, s, c);
    SliceNext(g.sizes[p], g.slot, s.procs[p], s.cpus[c].left);
    forall q | 0 <= q < |g.sizes| ensures Executed(r.log, q) == UpTo(r.procs[q].pc) {
      if s.procs[p].pc < g.sizes[p] { LogNext(s.procs, s.log, p, q); }
    }
    ProgressOfOne(g, s, r, c, p);
  }

  lemma ExecuteKeepsProgress(g: Config, s: Os, c: nat)
    requires Places(s) && Shape(g, s) && Progress(g, s) && c < |s.cpus|
    requires s.cpus[c].pc.Execute? && Shape(g, CpuExecute(g, s, c))
    ensures Progress(g, CpuExecute(g, s, c))
  {
    assert CpuShape(g, s.cpus[c]);
    ExecuteExecutesOne(g, s, c);
    ExecuteOneKeepsProgress(g, s, CpuExecute(g, s, c), c, s.cpus[c].proc.value);
  }

  /** Nothing is queued, taken, dispatched or executed. */
  ghost predicate SameWork(s: Os, r: Os) {
    r.ready == s.ready && r.next == s.next && r.procs == s.procs && r.finished == s.finished && r.log == s.log
  }

  lemma SameKeepsProgress(g: Config, s: Os, r: Os)
    requires Shape(g, s) && Progress(g, s) && Shape(g, r) && SameWork(s, r) && r.cpus == s.cpus
    ensures Progress(g, r)
  {
    forall d | 0 <= d < |r.cpus| ensures CpuProgress(g, r, d) {
      assert CpuProgress(g, s, d);
    }
  }

  /** A CPU moves on to `pc` without doing anything with its process. */
  lemma MoveKeepsProgress(g: Config, s: Os, r: Os, c: nat, pc: CpuPc)
    requires Shape(g, s) && Progress(g, s) && Shape(g, r) && SameWork(s, r)
    requires c < |s.cpus| && r.cpus == s.cpus[c := s.cpus[c].(pc := pc)]
    requires s.cpus[c].proc.None? || (s.cpus[c].pc.Count? && s.cpus[c].left == 0 && pc.Recheck?) ||
             (s.cpus[c].pc.EndSlot? && pc.Top?)
    ensures Progress(g, r)
  {
    forall d | 0 <= d < |r.cpus| ensures CpuProgress(g, r, d) {
      assert CpuProgress(g, s, d);
    }
  }

  lemma AddKeepsProgress(g: Config, s: Os, r: Os)
    requires OsProcesses.Inv(g, s) && Progress(g, s) && Shape(g, r) && s.loader.AddProc?
    requires OneMore(Queued(s), Queued(r), s.next) && r.next == s.next + 1
    requires r.cpus == s.cpus && r.procs == s.procs && r.finished == s.finished && r.log == s.log
    ensures Progress(g, r)
  {
    forall d | 0 <= d < |r.cpus| ensures CpuProgress(g, r, d) {
      assert CpuProgress(g, s, d);
    }
  }

  lemma CpuGetKeepsProgress(g: Config, s: Os, c: nat)
    requires OsProcesses.Inv(g, s) && Progress(g, s) && c < |s.cpus|
    requires s.cpus[c].pc in {GetIdle, GetAfterFinish, GetAfterPut} && Shape(g, CpuGet(s, c))
    ensures Progress(g, CpuGet(s, c))
  {
    assert CpuControl(s, c);
    GetConserves(s.ready);
    GetKeepsProgress(g, s, CpuGet(s, c), c, Got(s.ready));
  }

  /** Steps of a CPU that concern no process of its own. */
  ghost predicate Idle(g: Config, s: Os, c: nat)
    requires Shape(g, s) && c < |s.cpus|
  {
    || s.b.devs[c + 1].Waiting? || s.cpus[c].pc in {EndSlot, Leave, CheckCount, Count}
    || (s.cpus[c].pc in {Top, Recheck} && s.cpus[c].proc.None?)
  }

  /** Where a CPU goes from such a step; a step at the barrier leaves it where it is. */
  ghost function IdleNext(g: Config, s: Os, c: nat): CpuPc
    requires Shape(g, s) && c < |s.cpus|
  {
    if s.b.devs[c + 1].Waiting? then s.cpus[c].pc
    else
      match s.cpus[c].pc
      case Top => GetIdle
      case CheckCount => if s.count == |g.sizes| then Leave else EndSlot
      case Count => Recheck
      case Recheck => if s.done then Leave else EndSlot
      case EndSlot => Top
      case pc => pc
  }

  lemma IdleMoves(g: Config, s: Os, c: nat)
    requires Shape(g, s) && CpuEnabled(g, s, c) && Idle(g, s, c)
    ensures var r := CpuNext(g, s, c);
            SameWork(s, r) && r.cpus == s.cpus[c := s.cpus[c].(pc := IdleNext(g, s, c))]
  {
  }

  lemma IdleKeepsProgress(g: Config, s: Os, c: nat)
    requires OsProcesses.Inv(g, s) && Progress(g, s) && CpuEnabled(g, s, c) && Idle(g, s, c)
    requires Shape(g, CpuNext(g, s, c))
    ensures Progress(g, CpuNext(g, s, c))
  {
    IdleMoves(g, s, c);
    IdleStepKeepsProgress(g, s, CpuNext(g, s, c), c, IdleNext(g, s, c));
  }

  lemma IdleStepKeepsProgress(g: Config, s: Os, r: Os, c: nat, pc: CpuPc)
    requires OsProcesses.Inv(g, s) && Progress(g, s) && c < |s.cpus| && Idle(g, s, c) && Shape(g, r) && SameWork(s, r)
    requires pc == IdleNext(g, s, c) && r.cpus == s.cpus[c := s.cpus[c].(pc := pc)]
    ensures Progress(g, r)
  {
    assert CpuControl(s, c);
    if pc == s.cpus[c].pc {
      assert r.cpus == s.cpus;
      SameKeepsProgress(g, s, r);
    } else {
      MoveKeepsProgress(g, s, r, c, pc);
    }
  }

  lemma CpuKeepsProgress(g: Config, s: Os, c: nat)
    requires OsProcesses.Inv(g, s) && Progress(g, s) && CpuEnabled(g, s, c)
    requires Shape(g, CpuNext(g, s, c))
    ensures Progress(g, CpuNext(g, s, c))
  {
    if Idle(g, s, c) {
      IdleKeepsProgress(g, s, c);
    } else {
      match s.cpus[c].pc
      case Top => TopKeepsProgress(g, s, c);
      case Recheck => RecheckKeepsProgress(g, s, c);
      case Execute => ExecuteKeepsProgress(g, s, c);
      case _ => CpuGetKeepsProgress(g, s, c);
    }
  }

  lemma LoaderMoves(g: Config, s: Os)
    requires Shape(g, s) && LoaderEnabled(g, s)
    ensures var r := LoaderNext(g, s);
            && r.cpus == s.cpus && r.procs == s.procs && r.finished == s.finished && r.log == s.log
            && if s.b.devs[0].Running? && s.loader.AddProc? then
                 OneMore(Queued(s), Queued(r), s.next) && r.next == s.next + 1
               else SameWork(s, r)
  {
    if s.b.devs[0].Running? && s.loader.AddProc? { PutConserves(s.ready, g.prios[s.next], s.next); }
  }

  lemma LoaderKeepsProgress(g: Config, s: Os)
    requires OsProcesses.Inv(g, s) && Progress(g, s) && LoaderEnabled(g, s) && Shape(g, LoaderNext(g, s))
    ensures Progress(g, LoaderNext(g, s))
  {
    LoaderMoves(g, s);
    if s.b.devs[0].Running? && s.loader.AddProc? {
      AddKeepsProgress(g, s, LoaderNext(g, s));
    } else {
      SameKeepsProgress(g, s, LoaderNext(g, s));
    }
  }

  lemma NextKeepsProgress(g: Config, s: Os, t: Thread)
    requires OsProcesses.Inv(g, s) && Progress(g, s) && Enabled(g, s, t)
    requires Shape(g, Next(g, s, t))
    ensures Progress(g, Next(g, s, t))
  {
    match t
    case CpuThread(c) => CpuKeepsProgress(g, s, c);
    case LoaderThread => LoaderKeepsProgress(g, s);
    case _ => SameKeepsProgress(g, s, Next(g, s, t));
  }

  // ---------- Runs ----------

  lemma {:induction false} ReachableProgress(g: Config, s0: Os, run: seq<Thread>, s: Os)
    requires Initial(g, s0) && Reaches(g, s0, run, s)
    ensures OsProcesses.Inv(g, s) && Progress(g, s)
    decreases |run|
  {
    ReachableInv(g, s0, run, s);
    if run == [] {
      MembersEmpty(s.ready.queues);
      forall c | 0 <= c < |s.cpus| ensures CpuProgress(g, s, c) { }
    } else {
      var n := |run| - 1;
      var p :| Reaches(g, s0, run[..n], p) && Shape(g, p) && Enabled(g, p, run[n]) && s == Next(g, p, run[n]);
      ReachableProgress(g, s0, run[..n], p);
      NextKeepsProgress(g, p, run[n]);
    }
  }

  /** No process runs past its end. */
  lemma NeverPastTheEnd(g: Config, s: Os, p: Pid)
    requires OsProcesses.Inv(g, s) && Progress(g, s) && p < |g.sizes|
    ensures s.procs[p].pc <= g.sizes[p]
  {
    if p < s.next && p !in Queued(s) && p !in s.finished {
      var c :| HeldBy(s, c, p);
      assert CpuProgress(g, s, c);
    }
  }

  /** In every interleaving, on any number of CPUs: a process executes its instructions once each, in order;
      and one that has finished executed all of them in the least number of time slices. */
  lemma ScheduleIndependent(g: Config, s0: Os, run: seq<Thread>, s: Os, p: Pid)
    requires Initial(g, s0) && Reaches(g, s0, run, s) && p < |g.sizes|
    ensures Shape(g, s) && Executed(s.log, p) == UpTo(s.procs[p].pc) && s.procs[p].pc <= g.sizes[p]
    ensures p in s.finished ==>
              s.procs[p].dispatched == Slices(g.sizes[p], g.slot) && Executed(s.log, p) == UpTo(g.sizes[p])
  {
    ReachableProgress(g, s0, run, s);
    NeverPastTheEnd(g, s, p);
  }
}
