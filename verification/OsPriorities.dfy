/** What the threads do to the ready queues is a history of `MultilevelQueue`: every process waits at its own priority,
    and therefore not for long. */
module OsPriorities {
  import opened Options
  import opened MultilevelQueue
  import opened Os
  import OP = OsProcesses

  // ---------- The scheduler calls of a run ----------

  /** The scheduler call that a step of CPU `c` makes, if any. */
  ghost function CpuCall(g: Config, s: Os, c: nat): Option<Event>
    requires Shape(g, s) && CpuEnabled(g, s, c)
  {
    if s.b.devs[c + 1].Waiting? then None
    else if s.cpus[c].pc in {GetIdle, GetAfterFinish, GetAfterPut} then Some(GetProc)
    else if PutsBack(g, s, c) then Some(PutProc(g.prios[s.cpus[c].proc.value], s.cpus[c].proc.value))
    else None
  }

  ghost function Call(g: Config, s: Os, t: Thread): Option<Event>
    requires Shape(g, s) && Enabled(g, s, t)
  {
    match t
    case CpuThread(c) => CpuCall(g, s, c)
    case LoaderThread =>
      if s.b.devs[0].Running? && s.loader.AddProc? then Some(PutProc(g.prios[s.next], s.next)) else None
    case _ => None
  }

  /** Changes the queues as the call says, and not at all without one. */
  ghost predicate Calls(q: Mlq, e: Option<Event>, r: Mlq)
    requires Valid(q)
  {
    match e
    case None => r == q
    case Some(e) => Possible(q, e) && r == After(q, e)
  }

  lemma CpuCalls(g: Config, s: Os, c: nat)
    requires Shape(g, s) && CpuEnabled(g, s, c)
    ensures Calls(s.ready, CpuCall(g, s, c), CpuNext(g, s, c).ready)
  {
    if s.b.devs[c + 1].Running? {
      match s.cpus[c].pc
      case Top => assert CpuTop(g, s, c).ready == CpuNext(g, s, c).ready;
      case Recheck => assert CpuRecheck(g, s, c).ready == s.ready;
      case Execute => assert CpuExecute(g, s, c).ready == s.ready;
      case _ =>
    }
  }

  /** The queues change by scheduler calls only: a process is queued at its configured priority, by the loader when it
      adds it and by a CPU when it puts it back. */
  lemma QueuesChangeByCalls(g: Config, s: Os, t: Thread)
    requires Shape(g, s) && Enabled(g, s, t)
    ensures Calls(s.ready, Call(g, s, t), Next(g, s, t).ready)
  {
    if t.CpuThread? { CpuCalls(g, s, t.c); }
  }

  // ---------- Every process at its own priority ----------

  ghost predicate AtPriority(g: Config, q: Mlq, i: nat)
    requires Valid(q) && i < MAX_PRIO
  {
    forall p :: p in q.queues[i] ==> p < |g.prios| && g.prios[p] == i
  }

  ghost predicate AtPriorities(g: Config, q: Mlq)
    requires Valid(q)
  {
    forall i :: 0 <= i < MAX_PRIO ==> AtPriority(g, q, i)
  }

  lemma CallKeepsPriorities(g: Config, q: Mlq, e: Event)
    requires Valid(q) && Possible(q, e) && AtPriorities(g, q)
    requires e.PutProc? ==> e.pid < |g.prios| && g.prios[e.pid] == e.prio
    ensures AtPriorities(g, After(q, e))
  {
    var r := After(q, e);
    forall i | 0 <= i < MAX_PRIO ensures AtPriority(g, r, i) {
      assert AtPriority(g, q, i);
      forall p | p in r.queues[i] ensures p in q.queues[i] || (e.PutProc? && i == e.prio && p == e.pid) { }
    }
  }

  lemma NextKeepsPriorities(g: Config, s: Os, t: Thread)
    requires Shape(g, s) && Enabled(g, s, t) && AtPriorities(g, s.ready)
    ensures Valid(Next(g, s, t).ready) && AtPriorities(g, Next(g, s, t).ready)
  {
    QueuesChangeByCalls(g, s, t);
    var e := Call(g, s, t);
    if e.Some? { CallKeepsPriorities(g, s.ready, e.value); }
  }

  lemma {:induction false} ReachablePriorities(g: Config, s0: Os, run: seq<Thread>, s: Os)
    requires Initial(g, s0) && Reaches(g, s0, run, s)
    ensures Valid(s.ready) && AtPriorities(g, s.ready)
    decreases |run|
  {
    if run == [] {
      forall i | 0 <= i < MAX_PRIO ensures AtPriority(g, s.ready, i) { assert s.ready.queues[i] == []; }
    } else {
      var n := |run| - 1;
      var p :| Reaches(g, s0, run[..n], p) && Shape(g, p) && Enabled(g, p, run[n]) && s == Next(g, p, run[n]);
      ReachablePriorities(g, s0, run[..n], p);
      NextKeepsPriorities(g, p, run[n]);
    }
  }

  lemma {:induction false} MemberQueued(queues: seq<seq<Pid>>, p: Pid) returns (i: nat)
    requires p in Members(queues)
    ensures i < |queues| && p in queues[i]
  {
    if p in queues[0] {
      i := 0;
    } else {
      i := MemberQueued(queues[1..], p);
      i := i + 1;
    }
  }

  lemma {:induction false} QueuedMember(queues: seq<seq<Pid>>, p: Pid, i: nat)
    requires i < |queues| && p in queues[i]
    ensures p in Members(queues)
  {
    if i > 0 { QueuedMember(queues[1..], p, i - 1); }
  }

  /** In every interleaving a process is queued exactly if it is in the queue of its configured priority, and in no
      other, however often it was dispatched and put back. */
  lemma QueuedAtOwnPriority(g: Config, s0: Os, run: seq<Thread>, s: Os, p: Pid, i: nat)
    requires Initial(g, s0) && Reaches(g, s0, run, s) && i < MAX_PRIO
    ensures Valid(s.ready) && (p in s.ready.queues[i] <==> p in OP.Queued(s) && p < |g.prios| && g.prios[p] == i)
  {
    ReachablePriorities(g, s0, run, s);
    assert AtPriority(g, s.ready, i);
    if p in s.ready.queues[i] {
      QueuedMember(s.ready.queues, p, i);
    } else if p in OP.Queued(s) {
      var j := MemberQueued(s.ready.queues, p);
      assert AtPriority(g, s.ready, j);
    }
  }

  // ---------- Bounded waiting along a trail of queues ----------

  ghost predicate CallAt(qs: seq<Mlq>, es: seq<Option<Event>>, n: nat)
    requires n < |es| && n + 1 < |qs|
  {
    Valid(qs[n]) && Calls(qs[n], es[n], qs[n + 1])
  }

  /** The queues `qs` follow from each other by the calls `es`. */
  ghost predicate Trail(qs: seq<Mlq>, es: seq<Option<Event>>) {
    |qs| == |es| + 1 && Valid(qs[0]) && forall n :: 0 <= n < |es| ==> CallAt(qs, es, n)
  }

  /** How often the scheduler is asked for a process by the first `n` calls. */
  ghost function Asked(es: seq<Option<Event>>, n: nat): nat
    requires n <= |es|
  {
    if n == 0 then 0 else Asked(es, n - 1) + if es[n - 1] == Some(GetProc) then 1 else 0
  }

  /** A call hands out the process at position `k` of queue `i`, or moves it to position `k'`. */
  lemma CallMovesOn(q: Mlq, e: Option<Event>, r: Mlq, i: nat, k: nat) returns (k': nat)
    requires Valid(q) && Calls(q, e, r) && i < MAX_PRIO && k < |q.queues[i]|
    requires !(e == Some(GetProc) && Got(q) == Some(q.queues[i][k]) && Pick(q) == i && k == 0)
    ensures Valid(r) && k' < |r.queues[i]| && r.queues[i][k'] == q.queues[i][k]
    ensures Wait(r, i, k') + (if e == Some(GetProc) then 1 else 0) <= Wait(q, i, k)
  {
    WaitFalls(q, i, k);
    k' := if e == Some(GetProc) && Pick(q) == i then k - 1 else k;
    if e.Some? { EventMovesOn(q, i, k, e.value); }
  }

  lemma {:induction false} HandedOut(qs: seq<Mlq>, es: seq<Option<Event>>, m: nat, i: nat, k: nat) returns (n: nat)
    requires Trail(qs, es) && m <= |es| && Valid(qs[m]) && i < MAX_PRIO && k < |qs[m].queues[i]|
    requires Asked(es, |es|) >= Asked(es, m) + Wait(qs[m], i, k)
    ensures m <= n < |es| && es[n] == Some(GetProc) && Valid(qs[n]) && Got(qs[n]) == Some(qs[m].queues[i][k])
    ensures Asked(es, n) < Asked(es, m) + Wait(qs[m], i, k)
    decreases |es| - m
  {
    WaitFalls(qs[m], i, k);
    assert CallAt(qs, es, m);
    if es[m] == Some(GetProc) && Pick(qs[m]) == i && k == 0 {
      n := m;
    } else {
      var k' := CallMovesOn(qs[m], es[m], qs[m + 1], i, k);
      n := HandedOut(qs, es, m + 1, i, k');
    }
  }

  // ---------- Bounded waiting of processes ----------

  ghost predicate StepsTo(g: Config, s: Os, t: Thread, r: Os) {
    Shape(g, s) && Enabled(g, s, t) && r == Next(g, s, t)
  }

  /** The `n`-th step of the run, with its scheduler call. */
  ghost predicate StepAt(g: Config, run: seq<Thread>, states: seq<Os>, es: seq<Option<Event>>, n: nat)
    requires n < |run| && n + 1 < |states| && n < |es|
  {
    StepsTo(g, states[n], run[n], states[n + 1]) && es[n] == Call(g, states[n], run[n])
  }

  /** `run` goes through `states` and makes the scheduler calls `es`. */
  ghost predicate Through(g: Config, run: seq<Thread>, states: seq<Os>, es: seq<Option<Event>>) {
    |states| == |run| + 1 && |es| == |run| && forall n :: 0 <= n < |run| ==> StepAt(g, run, states, es, n)
  }

  lemma {:induction false} InvThrough(
    g: Config, run: seq<Thread>, states: seq<Os>, es: seq<Option<Event>>, n: nat)
    requires Through(g, run, states, es) && OP.Inv(g, states[0]) && n <= |run|
    ensures OP.Inv(g, states[n])
  {
    if n > 0 {
      InvThrough(g, run, states, es, n - 1);
      assert StepAt(g, run, states, es, n - 1);
      OP.NextKeepsInv(g, states[n - 1], run[n - 1]);
    }
  }

  ghost function Queues(states: seq<Os>): (qs: seq<Mlq>)
    ensures |qs| == |states| && forall n :: 0 <= n < |states| ==> qs[n] == states[n].ready
  {
    seq(|states|, n requires 0 <= n < |states| => states[n].ready)
  }

  /** The queues of a run follow from each other by its scheduler calls. */
  lemma RunIsTrail(g: Config, run: seq<Thread>, states: seq<Os>, es: seq<Option<Event>>)
    requires Through(g, run, states, es) && Valid(states[0].ready)
    ensures Trail(Queues(states), es)
  {
    var qs := Queues(states);
    forall n | 0 <= n < |es| ensures CallAt(qs, es, n) {
      assert StepAt(g, run, states, es, n);
      QueuesChangeByCalls(g, states[n], run[n]);
    }
  }

  /** A CPU that asks gets the process the scheduler picks. */
  lemma AskedIsGiven(g: Config, s: Os, t: Thread, r: Os)
    requires OP.Control(g, s) && StepsTo(g, s, t, r) && Call(g, s, t) == Some(GetProc)
    ensures t.CpuThread? && t.c < |s.cpus| && s.cpus[t.c].proc.None?
    ensures t.c < |r.cpus| && r.cpus[t.c].proc == Got(s.ready)
  {
    assert OP.CpuControl(s, t.c);
  }

  /** The `n`-th step of the run puts `p` on a CPU. */
  ghost predicate Dispatches(run: seq<Thread>, states: seq<Os>, n: nat, p: Pid) {
    && n < |run| && n + 1 < |states| && run[n].CpuThread?
    && !OP.HeldBy(states[n], run[n].c, p) && OP.HeldBy(states[n + 1], run[n].c, p)
  }

  lemma QueuedDispatched(g: Config, run: seq<Thread>, states: seq<Os>, es: seq<Option<Event>>, p: Pid, i: nat)
    returns (n: nat)
    requires Through(g, run, states, es) && OP.Inv(g, states[0]) && i < MAX_PRIO && p in states[0].ready.queues[i]
    requires Asked(es, |es|) >= EPOCH * (CeilDiv(CAPACITY, Quota(i)) + 1)
    ensures n < |es| && Dispatches(run, states, n, p) && Asked(es, n) < EPOCH * (CeilDiv(CAPACITY, Quota(i)) + 1)
  {
    var qs := Queues(states);
    RunIsTrail(g, run, states, es);
    var k :| 0 <= k < |qs[0].queues[i]| && qs[0].queues[i][k] == p;
    WaitBound(qs[0], i, k);
    CeilDivMonotone(k + 1, CAPACITY, Quota(i));
    n := HandedOut(qs, es, 0, i, k);
    InvThrough(g, run, states, es, n);
    assert StepAt(g, run, states, es, n);
    AskedIsGiven(g, states[n], run[n], states[n + 1]);
  }

  /** In every interleaving a queued process is put on a CPU before the CPUs have asked this often, whatever the
      priorities of the others: the bound depends on its own alone. */
  lemma ProcessWaitsBounded(
    g: Config, s0: Os, before: seq<Thread>, run: seq<Thread>, states: seq<Os>, es: seq<Option<Event>>, p: Pid)
    returns (n: nat)
    requires Initial(g, s0) && Through(g, run, states, es) && Reaches(g, s0, before, states[0])
    requires p in OP.Queued(states[0]) && p < |g.prios| && g.prios[p] < MAX_PRIO
    requires Asked(es, |es|) >= EPOCH * (CeilDiv(CAPACITY, Quota(g.prios[p])) + 1)
    ensures n < |es| && Dispatches(run, states, n, p)
    ensures Asked(es, n) < EPOCH * (CeilDiv(CAPACITY, Quota(g.prios[p])) + 1)
  {
    OP.ReachableInv(g, s0, before, states[0]);
    QueuedAtOwnPriority(g, s0, before, states[0], p, g.prios[p]);
    n := QueuedDispatched(g, run, states, es, p, g.prios[p]);
  }
}
