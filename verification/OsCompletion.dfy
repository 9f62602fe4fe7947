/** Once all processes are loaded, every slot brings them closer to their ends, and then the CPUs stop: a bound on the
    time that the simulation takes in any interleaving. */
module OsCompletion {
  import opened Options
  import opened Counting
  import opened MultilevelQueue
  import opened Os
  import opened OsProcesses
  import OE = OsExecution
  import B = Barrier

  // ---------- Work ----------

  /** What is left of a process: to be freed, and before that its instructions; an empty one has to be dispatched. */
  function WorkOf(n: nat, q: Proc, finished: bool): nat {
    if finished then 0
    else if q.dispatched == 0 then (if n == 0 then 2 else n + 1)
    else if q.pc < n then n - q.pc + 1 else 1
  }

  ghost function Work(sizes: seq<nat>, procs: seq<Proc>, finished: set<Pid>, n: nat): nat
    requires n <= |sizes| == |procs|
  {
    if n == 0 then 0 else Work(sizes, procs, finished, n - 1) + WorkOf(sizes[n - 1], procs[n - 1], n - 1 in finished)
  }

  /** What is left of all processes before they start. */
  function TotalWork(sizes: seq<nat>): nat {
    if sizes == [] then 0
    else
      var n := |sizes| - 1;
      TotalWork(sizes[..n]) + if sizes[n] == 0 then 2 else sizes[n] + 1
  }

  lemma {:induction false} WorkFalls(
    sizes: seq<nat>, a: seq<Proc>, f: set<Pid>, b: seq<Proc>, h: set<Pid>, n: nat, p: nat)
    requires n <= |sizes| == |a| == |b|
    requires forall q :: 0 <= q < n ==> WorkOf(sizes[q], b[q], q in h) <= WorkOf(sizes[q], a[q], q in f)
    ensures Work(sizes, b, h, n) <= Work(sizes, a, f, n)
    ensures p < n && WorkOf(sizes[p], b[p], p in h) < WorkOf(sizes[p], a[p], p in f) ==>
              Work(sizes, b, h, n) < Work(sizes, a, f, n)
  {
    if n > 0 { WorkFalls(sizes, a, f, b, h, n - 1, p); }
  }

  lemma {:induction false} WorkMeaning(sizes: seq<nat>, procs: seq<Proc>, finished: set<Pid>, n: nat)
    requires n <= |sizes| == |procs| && forall p :: 0 <= p < n ==> procs[p].dispatched == 0 || procs[p].pc <= sizes[p]
    ensures Work(sizes, procs, finished, n) <= TotalWork(sizes[..n])
    ensures Work(sizes, procs, finished, n) == 0 <==> forall p :: 0 <= p < n ==> p in finished
  {
    if n > 0 {
      WorkMeaning(sizes, procs, finished, n - 1);
      assert sizes[..n][..n - 1] == sizes[..n - 1];
    }
  }

  ghost function WorkLeft(g: Config, s: Os): nat
    requires Shape(g, s)
  {
    Work(g.sizes, s.procs, s.finished, |g.sizes|)
  }

  // ---------- Slots ----------

  /** Device `d` is in the slot that the time says, or will be released into it. */
  ghost predicate InSlot(b: B.Sync, d: nat)
    requires B.Shape(b) && d < |b.devs|
  {
    !b.devs[d].Gone? && !(b.devs[d].Waiting? && b.posted[d] && B.Served(b, d))
  }

  /** The same of CPU `c`. */
  ghost predicate CpuInSlot(b: B.Sync, c: nat)
    requires B.Shape(b) && c + 1 < |b.devs|
  {
    InSlot(b, c + 1)
  }

  /** The timer is about to count the next slot. */
  ghost predicate AtTick(b: B.Sync) {
    b.timer.Collect? && b.timer.k == |b.devs|
  }

  /** Then every device has ended its slot or has detached. */
  lemma AllEnded(b: B.Sync, d: nat)
    requires B.Inv(b) && AtTick(b) && d < |b.devs|
    ensures !InSlot(b, d) && (b.devs[d].Gone? || (b.devs[d].Waiting? && b.posted[d]))
    ensures InSlot(B.Next(b, B.TimerStep), d) <==> !b.devs[d].Gone?
  {
    assert B.DeviceInv(b, d);
  }

  /** Every other step of the timer leaves every device in its slot. */
  lemma InSlotKept(b: B.Sync, d: nat)
    requires B.Inv(b) && B.Enabled(b, B.TimerStep) && !AtTick(b) && d < |b.devs|
    ensures InSlot(B.Next(b, B.TimerStep), d) <==> InSlot(b, d)
    ensures B.Next(b, B.TimerStep).time == b.time && B.Next(b, B.TimerStep).devs == b.devs
  {
    assert B.DeviceInv(b, d);
  }

  // ---------- Somebody will work ----------

  /** The process is not at its end, or its CPU is about to dispatch it for the first time. */
  ghost predicate HasWork(sizes: seq<nat>, procs: seq<Proc>, u: Cpu, p: Pid) {
    p < |sizes| && p < |procs| && (procs[p].pc < sizes[p] || (u.left == 0 && procs[p].dispatched == 0))
  }

  /** What this CPU does before it ends its slot reduces the work that is left. */
  ghost predicate WillWork(sizes: seq<nat>, procs: seq<Proc>, u: Cpu, queued: multiset<Pid>) {
    match u.proc
    case None => queued != multiset{} && u.pc in {Top, GetIdle, GetAfterFinish, GetAfterPut}
    case Some(p) =>
      || u.pc.Top?
      || (u.pc in {Recheck, Count} && HasWork(sizes, procs, u, p))
      || (u.pc.Execute? && p < |sizes| && p < |procs| && procs[p].pc < sizes[p])
  }

  ghost predicate ToWork(g: Config, s: Os, c: nat)
    requires B.Shape(s.b) && |s.b.devs| == |s.cpus| + 1 && c < |s.cpus|
  {
    CpuInSlot(s.b, c) && WillWork(g.sizes, s.procs, s.cpus[c], Queued(s))
  }

  ghost predicate StillToWork(g: Config, s: Os)
    requires B.Shape(s.b) && |s.b.devs| == |s.cpus| + 1
  {
    exists c :: 0 <= c < |s.cpus| && ToWork(g, s, c)
  }

  // ---------- Stopping ----------

  ghost predicate CpuCloses(s: Os, c: nat)
    requires B.Shape(s.b) && |s.b.devs| == |s.cpus| + 1 && c < |s.cpus|
  {
    || s.b.devs[c + 1].Gone?
    || (CpuInSlot(s.b, c) && s.cpus[c].proc.None? && s.cpus[c].pc in {Top, GetIdle, CheckCount, Leave})
  }

  ghost predicate LoaderCloses(s: Os)
    requires B.Shape(s.b) && |s.b.devs| > 0
  {
    s.b.devs[0].Gone? || (InSlot(s.b, 0) && s.loader in {LoadTop, SetDone, LoadLeave})
  }

  /** All processes are finished and counted, and nobody will enter another slot. */
  ghost predicate Closing(g: Config, s: Os)
    requires B.Shape(s.b) && |s.b.devs| == |s.cpus| + 1
  {
    && s.next == |g.sizes| && s.count == |g.sizes| && Queued(s) == multiset{} && LoaderCloses(s)
    && (forall c :: 0 <= c < |s.cpus| ==> CpuCloses(s, c))
  }

  /** The timer will not count another slot. */
  ghost predicate Over(b: B.Sync) {
    b.timer.Exited? || (b.timer.Release? && b.timer.last)
  }

  /** When all work should be done if every slot after that of the last arrival reduces it. */
  ghost function Deadline(g: Config, s: Os): nat {
    (if s.added == [] then 0 else s.added[|s.added| - 1]) + TotalWork(g.sizes)
  }

  ghost predicate OnSchedule(g: Config, s: Os)
    requires Shape(g, s)
  {
    s.next == |g.sizes| ==>
      || s.b.time + WorkLeft(g, s) <= Deadline(g, s)
      || (s.b.time + WorkLeft(g, s) <= Deadline(g, s) + 1 && StillToWork(g, s))
      || (s.b.time <= Deadline(g, s) + 1 && Closing(g, s))
      || (s.b.time <= Deadline(g, s) + 2 && Over(s.b))
  }

  /** Every finished process is counted or will be. */
  ghost predicate NoneForgotten(s: Os) {
    forall p :: p in s.finished ==> p in s.counted || exists c: nat :: Owes(s, c, p)
  }

  // ---------- The next slot ----------

  /** What the tick leaves: everybody may run again. */
  ghost predicate Ticked(g: Config, r: Os)
    requires Shape(g, r)
  {
    && r.b.timer.Release? && r.b.timer.k == 0
    && forall d :: 0 <= d < |r.b.devs| ==>
         r.b.devs[d].Gone? || (r.b.devs[d].Waiting? && r.b.posted[d] && InSlot(r.b, d))
  }

  lemma TickTicks(g: Config, s: Os)
    requires Control(g, s) && Enabled(g, s, TimerThread) && AtTick(s.b) && Shape(g, Next(g, s, TimerThread))
    ensures Ticked(g, Next(g, s, TimerThread))
  {
    var r := Next(g, s, TimerThread);
    forall d | 0 <= d < |r.b.devs|
      ensures r.b.devs[d].Gone? || (r.b.devs[d].Waiting? && r.b.posted[d] && InSlot(r.b, d))
    {
      AllEnded(s.b, d);
    }
  }

  /** A CPU that has not detached is at the top of its loop. */
  lemma CpuTicked(g: Config, r: Os, c: nat)
    requires Control(g, r) && Ticked(g, r) && c < |r.cpus|
    ensures r.b.devs[c + 1].Gone? ==> r.cpus[c].pc.Leave? && r.cpus[c].proc.None?
    ensures !r.b.devs[c + 1].Gone? ==> InSlot(r.b, c + 1) && r.cpus[c].pc.Top?
  {
    assert CpuControl(r, c);
  }

  /** If a process is unfinished, somebody will work in the slot that begins. */
  lemma TickFindsWork(g: Config, r: Os, p: Pid)
    requires Inv(g, r) && Ticked(g, r) && r.next == |g.sizes| && p < |g.sizes| && p !in r.finished
    ensures StillToWork(g, r)
  {
    var c: nat;
    if p in Queued(r) {
      assert LastBarrierPassed(g, r);
      c :| c < |r.cpus| && !Decided(r.cpus[c]);
    } else {
      c :| HeldBy(r, c, p);
    }
    CpuTicked(g, r, c);
    assert ToWork(g, r, c);
  }

  /** Otherwise everybody stops in it. */
  lemma TickCloses(g: Config, r: Os)
    requires Inv(g, r) && Ticked(g, r) && NoneForgotten(r) && r.next == |g.sizes| && AllFinished(g, r)
    ensures Closing(g, r)
  {
    AllFinishedQueuesEmpty(g, r);
    forall c | 0 <= c < |r.cpus| ensures CpuCloses(r, c) && r.cpus[c].pc in {Top, Leave} {
      CpuTicked(g, r, c);
      if r.cpus[c].proc.Some? { assert HeldBy(r, c, r.cpus[c].proc.value); }
    }
    forall c: nat, p: Pid ensures !Owes(r, c, p) { }
    assert r.counted == Below(|g.sizes|);
  }

  /** The slot that begins is spent on work, or on stopping. */
  lemma TickBegins(g: Config, r: Os)
    requires Inv(g, r) && OE.Progress(g, r) && NoneForgotten(r) && Ticked(g, r) && r.next == |g.sizes|
    ensures StillToWork(g, r) || (WorkLeft(g, r) == 0 && Closing(g, r))
  {
    forall p | 0 <= p < |g.sizes| ensures r.procs[p].pc <= g.sizes[p] { OE.NeverPastTheEnd(g, r, p); }
    WorkMeaning(g.sizes, r.procs, r.finished, |g.sizes|);
    if AllFinished(g, r) {
      TickCloses(g, r);
    } else {
      var p :| 0 <= p < |g.sizes| && p !in r.finished;
      TickFindsWork(g, r, p);
    }
  }

  /** Nobody has left anything for the next slot; the last one ends the simulation. */
  lemma TickEnds(g: Config, s: Os)
    requires Control(g, s) && Enabled(g, s, TimerThread) && AtTick(s.b)
    ensures !StillToWork(g, s) && !Over(s.b)
    ensures Closing(g, s) ==> Over(Next(g, s, TimerThread).b)
  {
    forall d | 0 <= d < |s.b.devs| ensures !InSlot(s.b, d) { AllEnded(s.b, d); }
    if Closing(g, s) {
      forall d | 0 <= d < |s.b.devs| ensures s.b.devs[d].Gone? {
        if d > 0 { assert CpuCloses(s, d - 1); }
      }
    }
  }

  lemma NextSlot(g: Config, s: Os, r: Os)
    requires Shape(g, s) && Shape(g, r) && OnSchedule(g, s) && r.next == s.next == |g.sizes|
    requires r == s.(b := r.b) && r.b.time == s.b.time + 1
    requires !StillToWork(g, s) && !Over(s.b) && (Closing(g, s) ==> Over(r.b))
    requires StillToWork(g, r) || (WorkLeft(g, r) == 0 && Closing(g, r))
    ensures OnSchedule(g, r)
  {
  }

  lemma TickKeepsSchedule(g: Config, s: Os, r: Os)
    requires Inv(g, s) && Enabled(g, s, TimerThread) && AtTick(s.b) && OnSchedule(g, s) && s.next == |g.sizes|
    requires r == Next(g, s, TimerThread) && Inv(g, r) && OE.Progress(g, r) && NoneForgotten(r)
    ensures OnSchedule(g, r)
  {
    TickTicks(g, s);
    TickBegins(g, r);
    TickEnds(g, s);
    NextSlot(g, s, r);
  }

  // ---------- The steps of a CPU ----------

  /** The step reduces the work that is left, or leaves it to those who will. */
  ghost predicate Advances(g: Config, s: Os, r: Os)
    requires Shape(g, s) && Shape(g, r)
  {
    || WorkLeft(g, r) < WorkLeft(g, s)
    || (WorkLeft(g, r) <= WorkLeft(g, s) && (StillToWork(g, s) ==> StillToWork(g, r)))
  }

  ghost predicate OthersInSlot(b: B.Sync, r: B.Sync, c: nat)
    requires B.Shape(b) && B.Shape(r) && |b.devs| == |r.devs|
  {
    forall d :: 0 <= d < |b.devs| - 1 && d != c ==> CpuInSlot(r, d) == CpuInSlot(b, d)
  }

  /** The other CPUs are in their slots as before, and their processes as they were. */
  ghost predicate OthersStay(s: Os, r: Os, c: nat)
    requires B.Shape(s.b) && B.Shape(r.b) && |s.b.devs| == |r.b.devs|
  {
    && OnlyCpu(s, r, c) && |r.procs| == |s.procs| && OthersInSlot(s.b, r.b, c)
    && (forall d: nat, p: Pid :: HeldBy(s, d, p) && d != c && p < |s.procs| ==> r.procs[p] == s.procs[p])
  }

  /** Another CPU that will work still will, unless it counts on the queues and these are empty now. */
  lemma OtherStays(g: Config, s: Os, r: Os, c: nat, d: nat)
    requires Shape(g, s) && Shape(g, r) && OthersStay(s, r, c) && d < |s.cpus| && d != c && ToWork(g, s, d)
    requires s.cpus[d].proc.Some? || Queued(r) != multiset{}
    ensures StillToWork(g, r)
  {
    if s.cpus[d].proc.Some? { assert HeldBy(s, d, s.cpus[d].proc.value); }
    assert ToWork(g, r, d);
  }

  /** A step that does no work and after which CPU `c` will work if it would before. */
  lemma WaitingAdvances(g: Config, s: Os, r: Os, c: nat)
    requires Shape(g, s) && Shape(g, r) && OthersStay(s, r, c) && r.procs == s.procs && r.finished == s.finished
    requires Queued(s) != multiset{} ==> Queued(r) != multiset{}
    requires ToWork(g, s, c) ==> ToWork(g, r, c)
    ensures Advances(g, s, r)
  {
    if d :| 0 <= d < |s.cpus| && ToWork(g, s, d) {
      if d == c { assert ToWork(g, r, c); } else { OtherStays(g, s, r, c, d); }
    }
  }

  /** Process `p` is freed, dispatched for the first time or executed. */
  lemma WorkAdvances(g: Config, s: Os, r: Os, p: Pid)
    requires Shape(g, s) && Shape(g, r) && p < |g.sizes|
    requires forall q :: 0 <= q < |g.sizes| && q != p ==>
               r.procs[q] == s.procs[q] && (q in r.finished <==> q in s.finished)
    requires WorkOf(g.sizes[p], r.procs[p], p in r.finished) < WorkOf(g.sizes[p], s.procs[p], p in s.finished)
    ensures Advances(g, s, r)
  {
    WorkFalls(g.sizes, s.procs, s.finished, r.procs, r.finished, |g.sizes|, p);
  }

  lemma TopAdvances(g: Config, s: Os, c: nat)
    requires Inv(g, s) && OE.Progress(g, s) && CpuEnabled(g, s, c)
    requires s.b.devs[c + 1].Running? && s.cpus[c].pc.Top? && s.cpus[c].proc.Some? && Shape(g, CpuTop(g, s, c))
    ensures Advances(g, s, CpuTop(g, s, c))
  {
    var u, r := s.cpus[c], CpuTop(g, s, c);
    var p := u.proc.value;
    assert CpuShape(g, u) && HeldBy(s, c, p);
    if Finishes(g, s, c) {
      WorkAdvances(g, s, r, p);
    } else if PutsBack(g, s, c) {
      PutConserves(s.ready, g.prios[p], p);
      PutBackAdvances(g, s, r, c, p);
    } else {
      OE.NeverPastTheEnd(g, s, p);
      ContinueAdvances(g, s, r, c, p);
    }
  }

  lemma PutBackAdvances(g: Config, s: Os, r: Os, c: nat, p: Pid)
    requires Shape(g, s) && Shape(g, r) && OnlyCpu(s, r, c) && OneMore(Queued(s), Queued(r), p)
    requires r.b == s.b && r.procs == s.procs && r.finished == s.finished && s.b.devs[c + 1].Running?
    requires r.cpus[c].pc.GetAfterPut? && r.cpus[c].proc.None?
    ensures Advances(g, s, r)
  {
    assert ToWork(g, r, c);
  }

  lemma ContinueAdvances(g: Config, s: Os, r: Os, c: nat, p: Pid)
    requires Shape(g, s) && Shape(g, r) && HeldBy(s, c, p) && p < |g.sizes| && s.procs[p].pc < g.sizes[p]
    requires s.b.devs[c + 1].Running? && r == s.(cpus := s.cpus[c := s.cpus[c].(pc := Recheck)])
    ensures Advances(g, s, r)
  {
    assert ToWork(g, r, c);
  }

  /** The effect of asking the scheduler. */
  lemma GetAdvances(g: Config, s: Os, r: Os, c: nat, p: Option<Pid>)
    requires Inv(g, s) && OE.Progress(g, s) && Shape(g, r) && OnlyCpu(s, r, c) && Takes(s, r, p)
    requires r.b == s.b && s.b.devs[c + 1].Running? && r.procs == s.procs && r.finished == s.finished
    requires s.cpus[c].proc.None? && r.cpus[c].proc == p && r.cpus[c].left == 0
    requires p.Some? ==> r.cpus[c].pc in {Recheck, Count}
    ensures Advances(g, s, r)
  {
    if p.Some? {
      assert p.value in Queued(s) && CpuShape(g, r.cpus[c]);
      assert ToWork(g, r, c);
    } else {
      WaitingAdvances(g, s, r, c);
    }
  }

  /** A process that goes on: an empty one is done with being dispatched, another one will execute an instruction. */
  lemma GoOnAdvances(g: Config, s: Os, r: Os, c: nat, p: Pid)
    requires Inv(g, s) && OE.Progress(g, s) && Shape(g, r) && HeldBy(s, c, p) && p < |g.sizes|
    requires r.b == s.b && s.b.devs[c + 1].Running? && s.cpus[c].pc.Recheck? && OE.GoesOn(g, s, r, c, p)
    ensures Advances(g, s, r)
  {
    assert OE.CpuProgress(g, s, c);
    if g.sizes[p] == 0 && s.procs[p].dispatched == 0 && s.cpus[c].left == 0 {
      WorkAdvances(g, s, r, p);
    } else {
      WorkFalls(g.sizes, s.procs, s.finished, r.procs, r.finished, |g.sizes|, p);
      WillGoOn(g, s, r, c, p);
    }
  }

  lemma WillGoOn(g: Config, s: Os, r: Os, c: nat, p: Pid)
    requires Shape(g, s) && Places(s) && Shape(g, r) && HeldBy(s, c, p) && p < |g.sizes|
    requires r.b == s.b && s.cpus[c].pc.Recheck? && OE.GoesOn(g, s, r, c, p)
    requires !(s.procs[p].dispatched == 0 && s.cpus[c].left == 0 && s.procs[p].pc >= g.sizes[p])
    ensures StillToWork(g, s) ==> StillToWork(g, r)
  {
    if d :| 0 <= d < |s.cpus| && ToWork(g, s, d) {
      if d == c { assert ToWork(g, r, c); } else { OtherStays(g, s, r, c, d); }
    }
  }

  lemma ExecuteAdvances(g: Config, s: Os, r: Os, c: nat, p: Pid)
    requires Inv(g, s) && OE.Progress(g, s) && Shape(g, r) && HeldBy(s, c, p) && p < |g.sizes|
    requires r.b == s.b && s.b.devs[c + 1].Running? && s.cpus[c].pc.Execute? && OE.ExecutesOne(g, s, r, c, p)
    ensures Advances(g, s, r)
  {
    assert OE.CpuProgress(g, s, c);
    if s.procs[p].pc < g.sizes[p] {
      WorkAdvances(g, s, r, p);
    } else {
      WaitingAdvances(g, s, r, c);
    }
  }

  lemma IdleAdvances(g: Config, s: Os, r: Os, c: nat, pc: CpuPc)
    requires Inv(g, s) && Shape(g, r) && OE.SameWork(s, r) && c < |s.cpus| && OE.Idle(g, s, c)
    requires pc == OE.IdleNext(g, s, c) && r.cpus == s.cpus[c := s.cpus[c].(pc := pc)]
    requires OthersInSlot(s.b, r.b, c)
    requires s.cpus[c].pc !in {EndSlot, Leave} || s.b.devs[c + 1].Waiting? ==> CpuInSlot(r.b, c) == CpuInSlot(s.b, c)
    ensures Advances(g, s, r)
  {
    assert CpuControl(s, c);
    WaitingAdvances(g, s, r, c);
  }

  /** A step of CPU `c` at the barrier moves nobody else from or into the slot. */
  lemma IdleInSlot(g: Config, s: Os, c: nat)
    requires Shape(g, s) && CpuEnabled(g, s, c) && OE.Idle(g, s, c) && Shape(g, CpuNext(g, s, c))
    ensures OthersInSlot(s.b, CpuNext(g, s, c).b, c)
    ensures s.cpus[c].pc !in {EndSlot, Leave} || s.b.devs[c + 1].Waiting? ==>
              CpuInSlot(CpuNext(g, s, c).b, c) == CpuInSlot(s.b, c)
  {
  }

  lemma CpuGetTakes(s: Os, c: nat)
    requires Valid(s.ready) && c < |s.cpus| && s.cpus[c].pc in {GetIdle, GetAfterFinish, GetAfterPut}
    ensures var r, p := CpuGet(s, c), Got(s.ready);
            && OnlyCpu(s, r, c) && Takes(s, r, p) && r == s.(cpus := r.cpus, ready := r.ready)
            && r.cpus[c].proc == p && (p.Some? ==> r.cpus[c].pc in {Recheck, Count})
            && (r.cpus[c].left == s.cpus[c].left || r.cpus[c].left == 0)
            && (s.cpus[c].pc.GetAfterFinish? ==> r.cpus[c].left == 0)
  {
    GetConserves(s.ready);
  }

  lemma CpuGetAdvances(g: Config, s: Os, c: nat)
    requires Inv(g, s) && OE.Progress(g, s) && c < |s.cpus| && s.b.devs[c + 1].Running?
    requires s.cpus[c].pc in {GetIdle, GetAfterFinish, GetAfterPut} && Shape(g, CpuGet(s, c))
    ensures Advances(g, s, CpuGet(s, c))
  {
    assert CpuControl(s, c);
    CpuGetTakes(s, c);
    GetAdvances(g, s, CpuGet(s, c), c, Got(s.ready));
  }

  lemma RunAdvances(g: Config, s: Os, r: Os, c: nat)
    requires Inv(g, s) && OE.Progress(g, s) && c < |s.cpus| && s.b.devs[c + 1].Running? && s.cpus[c].proc.Some?
    requires || (s.cpus[c].pc.Recheck? && r == CpuRecheck(g, s, c))
             || (s.cpus[c].pc.Execute? && r == CpuExecute(g, s, c))
    requires Shape(g, r)
    ensures Advances(g, s, r)
  {
    assert CpuShape(g, s.cpus[c]);
    if s.cpus[c].pc.Recheck? {
      OE.RecheckGoesOn(g, s, c);
      GoOnAdvances(g, s, r, c, s.cpus[c].proc.value);
    } else {
      OE.ExecuteExecutesOne(g, s, c);
      ExecuteAdvances(g, s, r, c, s.cpus[c].proc.value);
    }
  }

  lemma CpuAdvances(g: Config, s: Os, c: nat)
    requires Inv(g, s) && OE.Progress(g, s) && CpuEnabled(g, s, c) && Shape(g, CpuNext(g, s, c))
    ensures Advances(g, s, CpuNext(g, s, c))
  {
    if OE.Idle(g, s, c) {
      OE.IdleMoves(g, s, c);
      IdleInSlot(g, s, c);
      IdleAdvances(g, s, CpuNext(g, s, c), c, OE.IdleNext(g, s, c));
    } else {
      match s.cpus[c].pc
      case Top => TopAdvances(g, s, c);
      case Recheck => RunAdvances(g, s, CpuNext(g, s, c), c);
      case Execute => RunAdvances(g, s, CpuNext(g, s, c), c);
      case _ => CpuGetAdvances(g, s, c);
    }
  }

  /** Where a stopping CPU goes. */
  ghost function CloseNext(s: Os, c: nat): CpuPc
    requires |s.b.devs| == |s.cpus| + 1 && c < |s.cpus|
  {
    if s.b.devs[c + 1].Waiting? then s.cpus[c].pc
    else match s.cpus[c].pc case Top => GetIdle case GetIdle => CheckCount case _ => Leave
  }

  /** It takes nothing and enters no slot. */
  lemma CloseMoves(g: Config, s: Os, c: nat)
    requires Shape(g, s) && CpuEnabled(g, s, c) && s.count == |g.sizes| && Queued(s) == multiset{}
    requires s.cpus[c].proc.None? && s.cpus[c].pc in {Top, GetIdle, CheckCount, Leave}
    ensures var r := CpuNext(g, s, c);
            && r == s.(b := r.b, cpus := s.cpus[c := s.cpus[c].(pc := CloseNext(s, c))])
            && r.b == if s.b.devs[c + 1].Waiting? then B.Next(s.b, B.Proceed(c + 1))
                      else if s.cpus[c].pc.Leave? then B.Next(s.b, B.Detach(c + 1)) else s.b
  {
    if s.b.devs[c + 1].Running? && s.cpus[c].pc.GetIdle? { GetConserves(s.ready); }
  }

  lemma CloseMoveKeeps(g: Config, s: Os, r: Os, c: nat)
    requires Control(g, s) && Shape(g, r) && CpuEnabled(g, s, c) && Closing(g, s)
    requires r == s.(b := r.b, cpus := s.cpus[c := s.cpus[c].(pc := CloseNext(s, c))])
    requires r.b == if s.b.devs[c + 1].Waiting? then B.Next(s.b, B.Proceed(c + 1))
                    else if s.cpus[c].pc.Leave? then B.Next(s.b, B.Detach(c + 1)) else s.b
    ensures Closing(g, r)
  {
    assert CpuCloses(s, c);
    forall d | 0 <= d < |r.cpus| ensures CpuCloses(r, d) { assert CpuCloses(s, d); }
  }

  /** A CPU that is stopping goes on to do so. */
  lemma CpuKeepsClosing(g: Config, s: Os, c: nat)
    requires Control(g, s) && CpuEnabled(g, s, c) && Closing(g, s) && Shape(g, CpuNext(g, s, c))
    ensures Closing(g, CpuNext(g, s, c))
  {
    assert CpuCloses(s, c);
    CloseMoves(g, s, c);
    CloseMoveKeeps(g, s, CpuNext(g, s, c), c);
  }

  // ---------- On schedule ----------

  lemma CpuKeepsTime(g: Config, s: Os, c: nat)
    requires Shape(g, s) && CpuEnabled(g, s, c)
    ensures var r := CpuNext(g, s, c);
            r.next == s.next && r.added == s.added && r.b.time == s.b.time && r.b.timer == s.b.timer
  {
    if s.b.devs[c + 1].Running? {
      match s.cpus[c].pc
      case Top => assert CpuTop(g, s, c).b == s.b;
      case Recheck => assert CpuRecheck(g, s, c).b == s.b;
      case Execute => assert CpuExecute(g, s, c).b == s.b;
      case _ =>
    }
  }

  lemma CpuKeepsSchedule(g: Config, s: Os, c: nat)
    requires Inv(g, s) && OE.Progress(g, s) && OnSchedule(g, s) && CpuEnabled(g, s, c) && Shape(g, CpuNext(g, s, c))
    ensures OnSchedule(g, CpuNext(g, s, c))
  {
    CpuKeepsTime(g, s, c);
    CpuAdvances(g, s, c);
    if Closing(g, s) { CpuKeepsClosing(g, s, c); }
  }

  /** Nobody is moved from or into the slot. */
  ghost predicate SameSlots(s: Os, r: Os)
    requires B.Shape(s.b) && B.Shape(r.b) && |s.b.devs| == |r.b.devs|
  {
    && r.b.time == s.b.time && (Over(s.b) ==> Over(r.b))
    && (forall d :: 0 <= d < |s.b.devs| ==>
          InSlot(r.b, d) == InSlot(s.b, d) && (s.b.devs[d].Gone? ==> r.b.devs[d].Gone?))
  }

  lemma TimerSameSlots(g: Config, s: Os, t: Thread)
    requires Control(g, s) && (t.TimerThread? || t.MainThread?) && Enabled(g, s, t)
    requires t.TimerThread? ==> !AtTick(s.b)
    ensures SameSlots(s, Next(g, s, t))
  {
    if t.TimerThread? {
      forall d | 0 <= d < |s.b.devs| ensures InSlot(Next(g, s, t).b, d) == InSlot(s.b, d) { InSlotKept(s.b, d); }
    }
  }

  lemma SameKeepsSchedule(g: Config, s: Os, r: Os)
    requires Shape(g, s) && Shape(g, r) && OnSchedule(g, s) && r == s.(b := r.b) && SameSlots(s, r)
    ensures OnSchedule(g, r)
  {
    if StillToWork(g, s) {
      var c :| 0 <= c < |s.cpus| && ToWork(g, s, c);
      assert ToWork(g, r, c);
    }
    if Closing(g, s) {
      forall c | 0 <= c < |r.cpus| ensures CpuCloses(r, c) { assert CpuCloses(s, c); }
    }
  }

  /** The last process has arrived: all work is still to be done at most. */
  lemma LastArrives(g: Config, s: Os, r: Os)
    requires Inv(g, s) && OE.Progress(g, s) && Shape(g, r) && r.procs == s.procs && r.finished == s.finished
    requires r.next == |g.sizes| && r.added == s.added + [s.b.time] && r.b.time == s.b.time
    ensures OnSchedule(g, r)
  {
    forall p | 0 <= p < |g.sizes| ensures s.procs[p].pc <= g.sizes[p] { OE.NeverPastTheEnd(g, s, p); }
    WorkMeaning(g.sizes, s.procs, s.finished, |g.sizes|);
    assert g.sizes[..|g.sizes|] == g.sizes;
  }

  /** Its other steps leave CPUs, queues and processes alone; when it is stopping it goes on to do so. */
  lemma LoaderMoves(g: Config, s: Os)
    requires Control(g, s) && LoaderEnabled(g, s) && s.next == |g.sizes|
    ensures var r := LoaderNext(g, s);
            && r == s.(b := r.b, loader := r.loader, done := r.done) && B.Shape(r.b)
            && |r.b.devs| == |s.b.devs| && r.b.time == s.b.time && r.b.timer == s.b.timer
            && r.b.devs[1..] == s.b.devs[1..] && r.b.posted[1..] == s.b.posted[1..]
            && (LoaderCloses(s) ==> LoaderCloses(r))
  {
  }

  lemma OtherSlots(s: Os, r: Os, c: nat)
    requires B.Shape(s.b) && B.Shape(r.b) && |r.b.devs| == |s.b.devs| && r.b.timer == s.b.timer && c + 1 < |s.b.devs|
    requires r.b.devs[1..] == s.b.devs[1..] && r.b.posted[1..] == s.b.posted[1..]
    ensures CpuInSlot(r.b, c) == CpuInSlot(s.b, c) && r.b.devs[c + 1] == s.b.devs[c + 1]
  {
    assert r.b.devs[c + 1] == r.b.devs[1..][c] && r.b.posted[c + 1] == r.b.posted[1..][c];
    assert s.b.devs[c + 1] == s.b.devs[1..][c] && s.b.posted[c + 1] == s.b.posted[1..][c];
  }

  lemma LoaderKeepsSchedule(g: Config, s: Os, r: Os)
    requires Shape(g, s) && Shape(g, r) && OnSchedule(g, s) && s.next == |g.sizes|
    requires r == s.(b := r.b, loader := r.loader, done := r.done)
    requires r.b.time == s.b.time && r.b.timer == s.b.timer
    requires |r.b.devs| == |s.b.devs| && r.b.devs[1..] == s.b.devs[1..] && r.b.posted[1..] == s.b.posted[1..]
    requires LoaderCloses(s) ==> LoaderCloses(r)
    ensures OnSchedule(g, r)
  {
    if StillToWork(g, s) {
      var c :| 0 <= c < |s.cpus| && ToWork(g, s, c);
      OtherSlots(s, r, c);
      assert ToWork(g, r, c);
    }
    if Closing(g, s) {
      forall c | 0 <= c < |r.cpus| ensures CpuCloses(r, c) {
        assert CpuCloses(s, c);
        OtherSlots(s, r, c);
      }
    }
  }

  // ---------- Nobody is forgotten ----------

  lemma FreedRemembered(s: Os, r: Os, c: nat)
    requires NoneForgotten(s) && OnlyCpu(s, r, c)
    requires forall p :: p in r.finished && p !in s.finished ==> Owes(r, c, p)
    requires s.counted <= r.counted && forall p: Pid :: Owes(s, c, p) ==> Owes(r, c, p) || p in r.counted
    ensures NoneForgotten(r)
  {
    forall p | p in r.finished && p !in r.counted ensures exists d: nat :: Owes(r, d, p) {
      if p in s.finished {
        var d :| Owes(s, d, p);
        assert Owes(r, d, p);
      } else {
        assert Owes(r, c, p);
      }
    }
  }

  /** A CPU that frees a process remembers it until it has counted it. */
  lemma CpuRemembers(g: Config, s: Os, c: nat)
    requires Shape(g, s) && CpuEnabled(g, s, c) && CpuControl(s, c)
    ensures var r := CpuNext(g, s, c);
            && OnlyCpu(s, r, c) && s.counted <= r.counted
            && (forall p :: p in r.finished && p !in s.finished ==> Owes(r, c, p))
            && (forall p: Pid :: Owes(s, c, p) ==> Owes(r, c, p) || p in r.counted)
  {
  }

  lemma NextForgetsNone(g: Config, s: Os, t: Thread)
    requires Inv(g, s) && Enabled(g, s, t) && NoneForgotten(s)
    ensures NoneForgotten(Next(g, s, t))
  {
    if t.CpuThread? {
      assert CpuControl(s, t.c);
      CpuRemembers(g, s, t.c);
      FreedRemembered(s, Next(g, s, t), t.c);
    } else {
      OthersForgetNone(s, Next(g, s, t));
    }
  }

  lemma OthersForgetNone(s: Os, r: Os)
    requires NoneForgotten(s) && r.cpus == s.cpus && r.finished == s.finished && r.counted == s.counted
    ensures NoneForgotten(r)
  {
    forall c: nat, p: Pid ensures Owes(r, c, p) <==> Owes(s, c, p) { }
  }

  // ---------- Runs ----------

  lemma NextKeepsSchedule(g: Config, s: Os, t: Thread, r: Os)
    requires Inv(g, s) && OE.Progress(g, s) && OnSchedule(g, s) && Enabled(g, s, t) && r == Next(g, s, t)
    requires Inv(g, r) && OE.Progress(g, r) && NoneForgotten(r)
    ensures OnSchedule(g, r)
  {
    match t
    case CpuThread(c) => CpuKeepsSchedule(g, s, c);
    case LoaderThread => LoaderThreadKeepsSchedule(g, s, r);
    case _ => TimerThreadKeepsSchedule(g, s, t, r);
  }

  lemma LoaderThreadKeepsSchedule(g: Config, s: Os, r: Os)
    requires Inv(g, s) && OE.Progress(g, s) && OnSchedule(g, s) && LoaderEnabled(g, s)
    requires r == LoaderNext(g, s) && Shape(g, r)
    ensures OnSchedule(g, r)
  {
    if s.next == |g.sizes| {
      LoaderMoves(g, s);
      LoaderKeepsSchedule(g, s, r);
    } else if r.next == |g.sizes| {
      LastArrives(g, s, r);
    }
  }

  lemma TimerThreadKeepsSchedule(g: Config, s: Os, t: Thread, r: Os)
    requires Inv(g, s) && OnSchedule(g, s) && (t.TimerThread? || t.MainThread?) && Enabled(g, s, t)
    requires r == Next(g, s, t) && Inv(g, r) && OE.Progress(g, r) && NoneForgotten(r)
    ensures OnSchedule(g, r)
  {
    if t.MainThread? || !AtTick(s.b) {
      TimerSameSlots(g, s, t);
      SameKeepsSchedule(g, s, r);
    } else if s.next == |g.sizes| {
      TickKeepsSchedule(g, s, r);
    }
  }

  lemma {:induction false} ReachableOnSchedule(g: Config, s0: Os, run: seq<Thread>, s: Os)
    requires Initial(g, s0) && Reaches(g, s0, run, s)
    ensures Inv(g, s) && OE.Progress(g, s) && NoneForgotten(s) && OnSchedule(g, s)
    decreases |run|
  {
    OE.ReachableProgress(g, s0, run, s);
    if run == [] {
      WorkMeaning(g.sizes, s.procs, s.finished, |g.sizes|);
      assert g.sizes[..|g.sizes|] == g.sizes;
    } else {
      var n := |run| - 1;
      var p :| Reaches(g, s0, run[..n], p) && Shape(g, p) && Enabled(g, p, run[n]) && s == Next(g, p, run[n]);
      ReachableOnSchedule(g, s0, run[..n], p);
      NextForgetsNone(g, p, run[n]);
      NextKeepsSchedule(g, p, run[n], s);
    }
  }

  /** In every interleaving on any number of CPUs: two slots after the deadline at the latest, all processes are
      finished, loader and CPUs have left and the timer counts no further slot. */
  lemma DoneByDeadline(g: Config, s0: Os, run: seq<Thread>, s: Os)
    requires Initial(g, s0) && Reaches(g, s0, run, s) && s.next == |g.sizes|
    ensures s.b.time <= Deadline(g, s) + 2
    ensures s.b.time == Deadline(g, s) + 2 ==> AllFinished(g, s) && B.AllGone(s.b) && Over(s.b)
  {
    ReachableOnSchedule(g, s0, run, s);
    if s.b.time == Deadline(g, s) + 2 {
      forall c | 0 <= c < |s.cpus| ensures Stopped(s, c) { }
      NoProcessLeftBehind(g, s0, run, s);
    }
  }
}
