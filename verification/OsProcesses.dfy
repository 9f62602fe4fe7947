/** No process is ever in two places, and none is left behind when the CPUs stop. */
module OsProcesses {
  import opened Options
  import opened Counting
  import opened MultilevelQueue
  import opened Os
  import B = Barrier

  // ---------- Control ----------

  ghost predicate CpuControl(s: Os, c: nat)
    requires c < |s.cpus| && |s.b.devs| == |s.cpus| + 1
  {
    var u := s.cpus[c];
    && (s.b.devs[c + 1].Waiting? ==> u.pc.Top?)
    && (s.b.devs[c + 1].Gone? ==> u.pc.Leave?)
    && (u.pc in {GetIdle, CheckCount, GetAfterFinish, GetAfterPut, Leave} ==> u.proc.None?)
    && (u.proc.None? && !u.pc.GetAfterFinish? ==> u.left == 0)
    && (u.pc in {GetAfterFinish, Count} ==> u.freed.Some?)
    && (u.pc.Count? ==> u.left == 0)
  }

  /** What program counters, flags and devices say about each other. */
  ghost predicate Control(g: Config, s: Os) {
    && Shape(g, s) && B.Inv(s.b)
    && (forall c :: 0 <= c < |s.cpus| ==> CpuControl(s, c))
    && (s.b.devs[0].Waiting? ==> s.loader.LoadTop?)
    && (s.b.devs[0].Gone? ==> s.loader.LoadLeave?)
    && (s.loader in {SetDone, LoadLeave} ==> s.next == |g.sizes|)
    && (s.done <==> s.loader.LoadLeave?)
  }

  // ---------- Places ----------

  ghost function Queued(s: Os): multiset<Pid> { Members(s.ready.queues) }

  ghost predicate HeldBy(s: Os, c: nat, p: Pid) { c < |s.cpus| && s.cpus[c].proc == Some(p) }

  ghost predicate Held(s: Os, p: Pid) { exists c: nat :: HeldBy(s, c, p) }

  /** Every loaded process is in exactly one place: a ready queue, one CPU, or finished. */
  ghost predicate Places(s: Os) {
    && (forall p :: p in Queued(s) ==> Queued(s)[p] == 1 && p < s.next && p !in s.finished)
    && (forall c: nat, p: Pid :: HeldBy(s, c, p) ==> p < s.next && p !in Queued(s) && p !in s.finished)
    && (forall c: nat, d: nat, p: Pid :: HeldBy(s, c, p) && HeldBy(s, d, p) ==> c == d)
    && (forall p :: p in s.finished ==> p < s.next)
    && (forall p: nat :: p < s.next ==> p in Queued(s) || p in s.finished || Held(s, p))
  }

  // ---------- Counting finished processes ----------

  /** CPU `c` has freed `p` and not yet counted it. */
  ghost predicate Owes(s: Os, c: nat, p: Pid) {
    c < |s.cpus| && s.cpus[c].pc in {GetAfterFinish, Count} && s.cpus[c].freed == Some(p)
  }

  ghost predicate Counts(s: Os) {
    && s.count == |s.counted| && s.counted <= s.finished
    && (forall c: nat, p: Pid :: Owes(s, c, p) ==> p in s.finished && p !in s.counted)
    && (forall c: nat, d: nat, p: Pid :: Owes(s, c, p) && Owes(s, d, p) ==> c == d)
  }

  // ---------- Stopping ----------

  ghost predicate AllFinished(g: Config, s: Os) {
    forall p :: 0 <= p < |g.sizes| ==> p in s.finished
  }

  /** Once `done` is seen, this CPU stops without looking at the queues again. */
  ghost predicate Decided(u: Cpu) {
    u.pc.Leave? || (u.pc in {Recheck, Count} && u.proc.None?)
  }

  /** Everything has been loaded, and since then the timer has seen every CPU end its slot. */
  ghost predicate LastBarrierPassed(g: Config, s: Os)
    requires |s.b.devs| > 0 && |s.b.posted| > 0
  {
    && s.next == |g.sizes|
    && (|| s.loader in {SetDone, LoadLeave}
        || (s.loader.LoadTop? && (!s.b.devs[0].Waiting? || !s.b.posted[0] || (s.b.timer.Release? && s.b.timer.k == 0))))
  }

  ghost predicate SomeCpuLooksAgain(s: Os) {
    exists c :: 0 <= c < |s.cpus| && !Decided(s.cpus[c])
  }

  ghost predicate Stops(g: Config, s: Os)
    requires Shape(g, s)
  {
    && (forall c :: 0 <= c < |s.cpus| && s.cpus[c].pc.Leave? ==> s.done || AllFinished(g, s))
    && (LastBarrierPassed(g, s) && Queued(s) != multiset{} ==> SomeCpuLooksAgain(s))
  }

  ghost predicate Inv(g: Config, s: Os) {
    Control(g, s) && Places(s) && Counts(s) && Stops(g, s)
  }

  // ---------- Places are kept ----------

  /** Only CPU `c` may hold something else than before. */
  ghost predicate OnlyCpu(s: Os, r: Os, c: nat) {
    |r.cpus| == |s.cpus| && c < |s.cpus| && forall d :: 0 <= d < |s.cpus| && d != c ==> r.cpus[d] == s.cpus[d]
  }

  lemma PlacesSame(s: Os, r: Os)
    requires Places(s) && r.ready.queues == s.ready.queues && r.finished == s.finished && r.next == s.next
    requires |r.cpus| == |s.cpus| && forall c :: 0 <= c < |s.cpus| ==> r.cpus[c].proc == s.cpus[c].proc
    ensures Places(r)
  {
    forall c: nat, p: Pid ensures HeldBy(r, c, p) <==> HeldBy(s, c, p) { }
    forall p: nat | p < r.next && p !in Queued(r) && p !in r.finished ensures Held(r, p) {
      var c :| HeldBy(s, c, p);
      assert HeldBy(r, c, p);
    }
  }

  /** What a scheduler call does to the queued processes when it returns `p`. */
  ghost predicate Takes(s: Os, r: Os, p: Option<Pid>) {
    match p
    case None => Queued(s) == multiset{} && Queued(r) == multiset{}
    case Some(q) => OneMore(Queued(r), Queued(s), q)
  }

  /** A CPU takes what the scheduler gives it. */
  lemma PlacesGet(s: Os, r: Os, c: nat, p: Option<Pid>)
    requires Places(s) && OnlyCpu(s, r, c) && s.cpus[c].proc.None?
    requires Takes(s, r, p) && r.cpus[c].proc == p && r.finished == s.finished && r.next == s.next
    ensures Places(r)
    ensures p.Some? ==> p.value < s.next
  {
    if p.Some? { assert p.value in Queued(s); }
    forall d: nat, q: Pid ensures HeldBy(r, d, q) <==> HeldBy(s, d, q) || (d == c && p == Some(q)) { }
    forall q: nat | q < r.next && q !in Queued(r) && q !in r.finished ensures Held(r, q) {
      if q in Queued(s) {
        assert HeldBy(r, c, q);
      } else {
        var d :| HeldBy(s, d, q);
        assert HeldBy(r, d, q);
      }
    }
  }

  /** A CPU gives its process back to the scheduler. */
  lemma PlacesPut(s: Os, r: Os, c: nat, p: Pid)
    requires Places(s) && OnlyCpu(s, r, c) && HeldBy(s, c, p)
    requires OneMore(Queued(s), Queued(r), p) && r.cpus[c].proc.None? && r.finished == s.finished && r.next == s.next
    ensures Places(r)
  {
    forall d: nat, q: Pid ensures HeldBy(r, d, q) <==> HeldBy(s, d, q) && d != c { }
    forall q: nat | q < r.next && q !in Queued(r) && q !in r.finished ensures Held(r, q) {
      var d :| HeldBy(s, d, q);
      assert HeldBy(r, d, q);
    }
  }

  /** A CPU frees its finished process. */
  lemma PlacesFinish(s: Os, r: Os, c: nat, p: Pid)
    requires Places(s) && OnlyCpu(s, r, c) && HeldBy(s, c, p)
    requires r.ready == s.ready && r.cpus[c].proc.None? && r.finished == s.finished + {p} && r.next == s.next
    ensures Places(r)
  {
    forall d: nat, q: Pid ensures HeldBy(r, d, q) <==> HeldBy(s, d, q) && d != c { }
    forall q: nat | q < r.next && q !in Queued(r) && q !in r.finished ensures Held(r, q) {
      var d :| HeldBy(s, d, q);
      assert HeldBy(r, d, q);
    }
  }

  /** The loader adds the next process. */
  lemma PlacesAdd(s: Os, r: Os, prio: nat)
    requires Places(s) && Valid(s.ready) && HasRoom(s.ready, prio)
    requires r.ready == Put(s.ready, prio, s.next) && r.next == s.next + 1
    requires r.cpus == s.cpus && r.finished == s.finished
    ensures Places(r)
  {
    PutConserves(s.ready, prio, s.next);
    forall d: nat, q: Pid ensures HeldBy(r, d, q) <==> HeldBy(s, d, q) { }
    forall q: nat | q < r.next && q !in Queued(r) && q !in r.finished ensures Held(r, q) {
      var d :| HeldBy(s, d, q);
      assert HeldBy(r, d, q);
    }
  }

  // ---------- Control is kept ----------

  /** A barrier operation of device `d` moves no other device. */
  lemma OtherDevicesStay(s: B.Sync, a: B.Action)
    requires B.Inv(s) && B.Enabled(s, a)
    ensures B.Inv(B.Next(s, a)) && |B.Next(s, a).devs| == |s.devs|
    ensures a.Signal? || a.Proceed? || a.Detach? ==>
              forall e :: 0 <= e < |s.devs| && e != a.d ==> B.Next(s, a).devs[e] == s.devs[e]
    ensures a.TimerStep? || a.StopTimer? ==> B.Next(s, a).devs == s.devs
  {
    B.NextKeepsInv(s, a);
  }

  /** A step that changes at most CPU `c` and its device keeps control if CPU `c` stays in order. */
  lemma ControlOfOne(g: Config, s: Os, r: Os, c: nat)
    requires Control(g, s) && OnlyCpu(s, r, c) && B.Inv(r.b) && |r.b.devs| == |s.b.devs|
    requires forall e :: 0 <= e < |s.b.devs| && e != c + 1 ==> r.b.devs[e] == s.b.devs[e]
    requires r.loader == s.loader && r.next == s.next && r.done == s.done && Valid(r.ready) && |r.procs| == |s.procs|
    requires CpuShape(g, r.cpus[c]) && CpuControl(r, c)
    ensures Control(g, r)
  {
    forall d | 0 <= d < |r.cpus| ensures CpuControl(r, d) && CpuShape(g, r.cpus[d]) {
      assert CpuControl(s, d) && CpuShape(g, s.cpus[d]);
    }
  }

  lemma LoaderKeepsControl(g: Config, s: Os)
    requires Control(g, s) && LoaderEnabled(g, s)
    ensures Control(g, LoaderNext(g, s))
  {
    var r := LoaderNext(g, s);
    if s.b.devs[0].Waiting? {
      OtherDevicesStay(s.b, B.Proceed(0));
    } else if s.loader.LoadEndSlot? {
      OtherDevicesStay(s.b, B.Signal(0));
    } else if s.loader.LoadLeave? {
      OtherDevicesStay(s.b, B.Detach(0));
    }
    forall d | 0 <= d < |r.cpus| ensures CpuControl(r, d) {
      assert CpuControl(s, d);
    }
  }

  lemma TimerKeepsControl(g: Config, s: Os, t: Thread)
    requires Control(g, s) && (t.TimerThread? || t.MainThread?) && Enabled(g, s, t)
    ensures Control(g, Next(g, s, t))
  {
    var r := Next(g, s, t);
    OtherDevicesStay(s.b, if t.TimerThread? then B.TimerStep else B.StopTimer);
    forall d | 0 <= d < |r.cpus| ensures CpuControl(r, d) {
      assert CpuControl(s, d);
    }
  }

  // ---------- Counting is kept ----------

  /** A step of CPU `c` that neither incurs nor settles a debt. */
  lemma CountsSame(s: Os, r: Os, c: nat)
    requires Counts(s) && OnlyCpu(s, r, c) && r.count == s.count && r.counted == s.counted && r.finished == s.finished
    requires r.cpus[c].pc in {GetAfterFinish, Count} ==>
               s.cpus[c].pc in {GetAfterFinish, Count} && r.cpus[c].freed == s.cpus[c].freed
    ensures Counts(r)
  {
    forall d: nat, p: Pid ensures Owes(r, d, p) ==> Owes(s, d, p) { }
  }

  /** A freed process becomes a debt of its CPU. */
  lemma CountsFinish(s: Os, r: Os, c: nat, p: Pid)
    requires Counts(s) && OnlyCpu(s, r, c) && p !in s.finished && s.cpus[c].pc.Top?
    requires r.count == s.count && r.counted == s.counted && r.finished == s.finished + {p}
    requires r.cpus[c].pc.GetAfterFinish? && r.cpus[c].freed == Some(p)
    ensures Counts(r)
  {
    forall d: nat, q: Pid ensures Owes(r, d, q) <==> Owes(s, d, q) || (d == c && q == p) { }
  }

  /** Counting settles the debt. */
  lemma CountsCount(s: Os, r: Os, c: nat, p: Pid)
    requires Counts(s) && OnlyCpu(s, r, c) && Owes(s, c, p) && r.cpus[c].pc.Recheck?
    requires r.count == s.count + 1 && r.counted == s.counted + {p} && r.finished == s.finished
    ensures Counts(r)
  {
    forall d: nat, q: Pid ensures Owes(r, d, q) <==> Owes(s, d, q) && d != c { }
  }

  /** When the count reaches the number of processes, all have finished. */
  lemma FullCount(g: Config, s: Os)
    requires Control(g, s) && Places(s) && Counts(s) && s.count == |g.sizes|
    ensures AllFinished(g, s) && Queued(s) == multiset{}
  {
    var all := Below(|g.sizes|);
    assert s.counted <= all;
    FullSubset(s.counted, all);
    AllFinishedQueuesEmpty(g, s);
  }

  lemma AllFinishedQueuesEmpty(g: Config, s: Os)
    requires Control(g, s) && Places(s) && AllFinished(g, s)
    ensures Queued(s) == multiset{}
  {
    forall p ensures p !in Queued(s) { }
  }

  // ---------- Stopping is kept ----------

  /** A step of CPU `c` keeps the stop condition if it decides to stop only with empty queues, fills
      the queues only if it will look again, and leaves only when that is right. */
  lemma StopsOfOne(g: Config, s: Os, r: Os, c: nat)
    requires Shape(g, s) && Shape(g, r) && Stops(g, s) && OnlyCpu(s, r, c)
    requires r.done == s.done && (AllFinished(g, s) ==> AllFinished(g, r))
    requires LastBarrierPassed(g, r) ==> LastBarrierPassed(g, s)
    requires r.cpus[c].pc.Leave? ==> s.done || AllFinished(g, s)
    requires Decided(r.cpus[c]) ==> Queued(r) == multiset{} || (Queued(s) == Queued(r) && Decided(s.cpus[c]))
    ensures Stops(g, r)
  {
    if LastBarrierPassed(g, r) && Queued(r) != multiset{} {
      if Decided(r.cpus[c]) {
        var d :| 0 <= d < |s.cpus| && !Decided(s.cpus[d]);
        assert r.cpus[d] == s.cpus[d];
      } else {
        assert SomeCpuLooksAgain(r);
      }
    }
  }

  lemma LoaderKeepsStops(g: Config, s: Os)
    requires Inv(g, s) && LoaderEnabled(g, s)
    requires Shape(g, LoaderNext(g, s))
    ensures Stops(g, LoaderNext(g, s))
  {
    var r := LoaderNext(g, s);
    assert B.DeviceInv(s.b, 0);
    if s.b.devs[0].Running? && s.loader.AddProc? {
      assert !LastBarrierPassed(g, r);
      forall c | 0 <= c < |s.cpus| && s.cpus[c].pc.Leave? ensures AllFinished(g, s) { }
    } else {
      assert LastBarrierPassed(g, r) ==> LastBarrierPassed(g, s);
    }
  }

  /** At the tick after the last process was added every attached CPU waits at the barrier,
      so none has decided to stop without looking at the queues again. */
  lemma TickKeepsStops(g: Config, s: Os)
    requires Inv(g, s) && Enabled(g, s, TimerThread)
    requires Shape(g, Next(g, s, TimerThread))
    ensures Stops(g, Next(g, s, TimerThread))
  {
    var r := Next(g, s, TimerThread);
    if LastBarrierPassed(g, r) && !LastBarrierPassed(g, s) && Queued(r) != multiset{} {
      assert s.b.timer.Collect? && s.b.timer.k == |s.b.devs|;
      assert !s.done;
      if s.cpus[0].pc.Leave? {
        AllFinishedQueuesEmpty(g, s);
        assert false;
      }
      assert B.DeviceInv(s.b, 1) && CpuControl(s, 0);
      assert !Decided(r.cpus[0]);
    }
  }

  // ---------- The steps of a CPU ----------

  /** Nothing of the loader, the barrier or the history changes. */
  ghost predicate SameRest(s: Os, r: Os) {
    r.b == s.b && r.loader == s.loader && r.next == s.next && r.done == s.done && |r.procs| == |s.procs|
  }

  /** The CPU frees its process `p`. */
  lemma FinishKeepsInv(g: Config, s: Os, r: Os, c: nat, p: Pid)
    requires Inv(g, s) && OnlyCpu(s, r, c) && SameRest(s, r) && r.ready == s.ready && HeldBy(s, c, p)
    requires s.b.devs[c + 1].Running? && s.cpus[c].pc.Top?
    requires r.cpus[c] == s.cpus[c].(pc := GetAfterFinish, proc := None, freed := Some(p))
    requires r.count == s.count && r.counted == s.counted && r.finished == s.finished + {p}
    ensures Inv(g, r)
  {
    assert CpuControl(s, c) && CpuShape(g, s.cpus[c]);
    ControlOfOne(g, s, r, c);
    PlacesFinish(s, r, c, p);
    CountsFinish(s, r, c, p);
    StopsOfOne(g, s, r, c);
  }

  /** The CPU gives its process `p` back. */
  lemma PutBackKeepsInv(g: Config, s: Os, r: Os, c: nat, p: Pid)
    requires Inv(g, s) && OnlyCpu(s, r, c) && SameRest(s, r) && Valid(r.ready) && HeldBy(s, c, p)
    requires s.b.devs[c + 1].Running? && s.cpus[c].pc.Top? && s.cpus[c].left == 0
    requires r.cpus[c] == s.cpus[c].(pc := GetAfterPut, proc := None) && OneMore(Queued(s), Queued(r), p)
    requires r.count == s.count && r.counted == s.counted && r.finished == s.finished
    ensures Inv(g, r)
  {
    assert CpuControl(s, c) && CpuShape(g, s.cpus[c]);
    ControlOfOne(g, s, r, c);
    PlacesPut(s, r, c, p);
    CountsSame(s, r, c);
    StopsOfOne(g, s, r, c);
  }

  lemma TopKeepsInv(g: Config, s: Os, c: nat)
    requires Inv(g, s) && CpuEnabled(g, s, c) && s.b.devs[c + 1].Running? && s.cpus[c].pc.Top?
    ensures Inv(g, CpuTop(g, s, c))
  {
    var u, r := s.cpus[c], CpuTop(g, s, c);
    assert CpuControl(s, c) && CpuShape(g, u);
    if Finishes(g, s, c) {
      FinishKeepsInv(g, s, r, c, u.proc.value);
    } else if PutsBack(g, s, c) {
      PutConserves(s.ready, g.prios[u.proc.value], u.proc.value);
      PutBackKeepsInv(g, s, r, c, u.proc.value);
    } else {
      QuietKeepsInv(g, s, r, c);
    }
  }

  /** The effect of `CpuGet`, with the scheduler's answer `p` in place of its algorithm. */
  lemma GetEffectKeepsInv(g: Config, s: Os, r: Os, c: nat, p: Option<Pid>)
    requires Inv(g, s) && OnlyCpu(s, r, c) && SameRest(s, r) && Valid(r.ready) && Takes(s, r, p)
    requires r.count == s.count && r.counted == s.counted && r.finished == s.finished
    requires var u := s.cpus[c];
             r.cpus[c] == match u.pc
                          case GetIdle => u.(pc := if p.None? then CheckCount else Recheck, proc := p)
                          case GetAfterFinish => u.(pc := Count, proc := p, left := 0)
                          case _ => u.(pc := Recheck, proc := p)
    requires s.cpus[c].pc in {GetIdle, GetAfterFinish, GetAfterPut} && s.b.devs[c + 1].Running?
    ensures Inv(g, r)
  {
    assert CpuControl(s, c);
    PlacesGet(s, r, c, p);
    ControlOfOne(g, s, r, c);
    CountsSame(s, r, c);
    StopsOfOne(g, s, r, c);
  }

  lemma CountKeepsInv(g: Config, s: Os, c: nat)
    requires Inv(g, s) && CpuEnabled(g, s, c) && s.b.devs[c + 1].Running? && s.cpus[c].pc in {CheckCount, Count}
    ensures Inv(g, CpuNext(g, s, c))
  {
    var u, r := s.cpus[c], CpuNext(g, s, c);
    assert CpuControl(s, c) && CpuShape(g, u);
    ControlOfOne(g, s, r, c);
    PlacesSame(s, r);
    if u.pc.Count? {
      CountsCount(s, r, c, u.freed.value);
    } else {
      CountsSame(s, r, c);
      if s.count == |g.sizes| { FullCount(g, s); }
    }
    StopsOfOne(g, s, r, c);
  }

  /** A step that moves nothing, takes no debt and decides to stop only when that is already decided. */
  lemma QuietKeepsInv(g: Config, s: Os, r: Os, c: nat)
    requires Inv(g, s) && OnlyCpu(s, r, c) && SameRest(s, r) && r.ready == s.ready
    requires r.count == s.count && r.counted == s.counted && r.finished == s.finished
    requires s.b.devs[c + 1].Running?
    requires s.cpus[c].pc !in {GetAfterFinish, Count} && r.cpus[c].pc !in {GetAfterFinish, Count}
    requires r.cpus[c].proc == s.cpus[c].proc && CpuShape(g, r.cpus[c]) && CpuControl(r, c)
    requires r.cpus[c].pc.Leave? ==> s.done
    requires Decided(r.cpus[c]) ==> Decided(s.cpus[c])
    ensures Inv(g, r)
  {
    ControlOfOne(g, s, r, c);
    PlacesSame(s, r);
    CountsSame(s, r, c);
    StopsOfOne(g, s, r, c);
  }

  /** Deciding and executing move nothing. */
  lemma RunKeepsInv(g: Config, s: Os, r: Os, c: nat)
    requires Inv(g, s) && c < |s.cpus| && s.b.devs[c + 1].Running?
    requires (s.cpus[c].pc.Recheck? && r == CpuRecheck(g, s, c)) || (s.cpus[c].pc.Execute? && r == CpuExecute(g, s, c))
    ensures Inv(g, r)
  {
    assert CpuControl(s, c) && CpuShape(g, s.cpus[c]);
    QuietKeepsInv(g, s, r, c);
  }

  /** Entering and leaving `next_slot`, and detaching. */
  lemma BarrierMoveKeepsInv(g: Config, s: Os, r: Os, c: nat, a: B.Action)
    requires Inv(g, s) && OnlyCpu(s, r, c) && a in {B.Proceed(c + 1), B.Signal(c + 1), B.Detach(c + 1)}
    requires B.Enabled(s.b, a) && r == s.(b := B.Next(s.b, a), cpus := r.cpus)
    requires r.cpus[c] == s.cpus[c].(pc := if a.Signal? then Top else s.cpus[c].pc)
    requires (a.Signal? ==> s.cpus[c].pc.EndSlot?) && (a.Detach? ==> s.cpus[c].pc.Leave?)
    ensures Inv(g, r)
  {
    assert CpuControl(s, c) && CpuShape(g, s.cpus[c]);
    OtherDevicesStay(s.b, a);
    ControlOfOne(g, s, r, c);
    PlacesSame(s, r);
    CountsSame(s, r, c);
    StopsOfOne(g, s, r, c);
  }

  lemma BarrierStepKeepsInv(g: Config, s: Os, c: nat)
    requires Inv(g, s) && CpuEnabled(g, s, c)
    requires s.b.devs[c + 1].Waiting? || s.cpus[c].pc in {EndSlot, Leave}
    ensures Inv(g, CpuNext(g, s, c))
  {
    assert CpuControl(s, c);
    BarrierMoveKeepsInv(g, s, CpuNext(g, s, c), c,
                        if s.b.devs[c + 1].Waiting? then B.Proceed(c + 1)
                        else if s.cpus[c].pc.EndSlot? then B.Signal(c + 1) else B.Detach(c + 1));
  }

  lemma CpuKeepsInv(g: Config, s: Os, c: nat)
    requires Inv(g, s) && CpuEnabled(g, s, c)
    ensures Inv(g, CpuNext(g, s, c))
  {
    var pc := s.cpus[c].pc;
    if s.b.devs[c + 1].Waiting? || pc in {EndSlot, Leave} {
      BarrierStepKeepsInv(g, s, c);
    } else if pc.Top? {
      TopKeepsInv(g, s, c);
    } else if pc in {GetIdle, GetAfterFinish, GetAfterPut} {
      GetConserves(s.ready);
      GetEffectKeepsInv(g, s, CpuGet(s, c), c, Got(s.ready));
    } else if pc in {CheckCount, Count} {
      CountKeepsInv(g, s, c);
    } else {
      RunKeepsInv(g, s, CpuNext(g, s, c), c);
    }
  }

  lemma LoaderKeepsPlaces(g: Config, s: Os)
    requires Shape(g, s) && Places(s) && LoaderEnabled(g, s)
    ensures Places(LoaderNext(g, s))
  {
    if s.b.devs[0].Running? && s.loader.AddProc? {
      PlacesAdd(s, LoaderNext(g, s), g.prios[s.next]);
    } else {
      PlacesSame(s, LoaderNext(g, s));
    }
  }

  lemma LoaderKeepsInv(g: Config, s: Os)
    requires Inv(g, s) && LoaderEnabled(g, s)
    ensures Inv(g, LoaderNext(g, s))
  {
    LoaderKeepsControl(g, s);
    LoaderKeepsStops(g, s);
    LoaderKeepsPlaces(g, s);
    forall c: nat, p: Pid ensures Owes(LoaderNext(g, s), c, p) <==> Owes(s, c, p) { }
  }

  // ---------- Runs ----------

  lemma NextKeepsInv(g: Config, s: Os, t: Thread)
    requires Inv(g, s) && Enabled(g, s, t)
    ensures Inv(g, Next(g, s, t))
  {
    match t
    case CpuThread(c) => CpuKeepsInv(g, s, c);
    case LoaderThread => LoaderKeepsInv(g, s);
    case _ =>
      TimerKeepsControl(g, s, t);
      PlacesSame(s, Next(g, s, t));
      if t.TimerThread? { TickKeepsStops(g, s); }
      forall c: nat, p: Pid ensures Owes(Next(g, s, t), c, p) <==> Owes(s, c, p) { }
  }

  lemma {:induction false} ReachableInv(g: Config, s0: Os, run: seq<Thread>, s: Os)
    requires Initial(g, s0) && Reaches(g, s0, run, s)
    ensures Inv(g, s)
    decreases |run|
  {
    if run == [] {
      forall d | 0 <= d < |s.b.devs| ensures B.DeviceInv(s.b, d) { }
      forall d | 0 <= d < |s.cpus| ensures CpuControl(s, d) { }
      MembersEmpty(s.ready.queues);
    } else {
      var n := |run| - 1;
      var p :| Reaches(g, s0, run[..n], p) && Shape(g, p) && Enabled(g, p, run[n]) && s == Next(g, p, run[n]);
      ReachableInv(g, s0, run[..n], p);
      NextKeepsInv(g, p, run[n]);
    }
  }

  /** In every interleaving, no process is in two places and none that was loaded is lost. */
  lemma OnePlace(g: Config, s0: Os, run: seq<Thread>, s: Os)
    requires Initial(g, s0) && Reaches(g, s0, run, s)
    ensures Places(s)
  {
    ReachableInv(g, s0, run, s);
  }

  /** In every interleaving of CPUs, loader and timer, CPUs and loader are in step. */
  lemma LockStep(g: Config, s0: Os, run: seq<Thread>, s: Os, d: nat, e: nat)
    requires Initial(g, s0) && Reaches(g, s0, run, s)
    requires B.Shape(s.b) && d < |s.b.devs| && e < |s.b.devs|
    ensures B.InStep(s.b, d, e)
  {
    ReachableInv(g, s0, run, s);
    B.InvInStep(s.b, d, e);
  }

  /** CPU `c` has left its loop and detached from the timer. */
  ghost predicate Stopped(s: Os, c: nat)
    requires |s.b.devs| == |s.cpus| + 1 && c < |s.cpus|
  {
    s.b.devs[c + 1].Gone?
  }

  /** In every interleaving, if all CPUs have stopped then every configured process was loaded and has finished. */
  lemma NoProcessLeftBehind(g: Config, s0: Os, run: seq<Thread>, s: Os)
    requires Initial(g, s0) && Reaches(g, s0, run, s)
    requires Shape(g, s) && forall c :: 0 <= c < |s.cpus| ==> Stopped(s, c)
    ensures s.next == |g.sizes| && AllFinished(g, s)
  {
    ReachableInv(g, s0, run, s);
    forall c | 0 <= c < |s.cpus| ensures s.cpus[c].pc.Leave? && s.cpus[c].proc.None? {
      assert Stopped(s, c) && CpuControl(s, c);
    }
    assert s.cpus[0].pc.Leave?;
    if AllFinished(g, s) {
      assert s.next !in s.finished;
    } else {
      assert s.done && !SomeCpuLooksAgain(s);
      forall p: nat | p < |g.sizes| ensures p in s.finished {
        assert !Held(s, p);
      }
    }
  }
}
