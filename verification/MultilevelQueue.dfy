/**
The multilevel ready queue of src/sched.c over the bounded queues of src/queue.c, as values.
`Scheduler` proves that the arrays and loops of those files implement these functions.
*/
module MultilevelQueue {
  import opened Options

  const MAX_PRIO: nat := 140
  const CAPACITY: nat := 10

  type Pid = nat

  /** One queue and one remaining quota per priority. */
  datatype Mlq = Mlq(queues: seq<seq<Pid>>, slots: seq<nat>)

  /** Dispatches that priority `i` may use per epoch. */
  function Quota(i: nat): nat
    requires i < MAX_PRIO
  {
    MAX_PRIO - i
  }

  function FullSlots(): (s: seq<nat>)
    ensures |s| == MAX_PRIO && forall i :: 0 <= i < MAX_PRIO ==> s[i] == Quota(i)
  {
    seq(MAX_PRIO, i requires 0 <= i < MAX_PRIO => Quota(i))
  }

  predicate Valid(q: Mlq) {
    && |q.queues| == MAX_PRIO && |q.slots| == MAX_PRIO
    && (forall i :: 0 <= i < MAX_PRIO ==> |q.queues[i]| <= CAPACITY)
    && (forall i :: 0 <= i < MAX_PRIO ==> q.slots[i] <= Quota(i))
  }

  predicate AllEmpty(q: Mlq)
    requires Valid(q)
  {
    forall i :: 0 <= i < MAX_PRIO ==> q.queues[i] == []
  }

  predicate Eligible(q: Mlq, i: nat)
    requires Valid(q) && i < MAX_PRIO
  {
    q.queues[i] != [] && q.slots[i] > 0
  }

  /** The first eligible priority from `i` on, or MAX_PRIO. */
  function FirstEligible(q: Mlq, i: nat): (r: nat)
    requires Valid(q) && i <= MAX_PRIO
    ensures i <= r <= MAX_PRIO
    ensures r < MAX_PRIO ==> Eligible(q, r)
    ensures forall j :: i <= j < r ==> !Eligible(q, j)
    decreases MAX_PRIO - i
  {
    if i == MAX_PRIO || Eligible(q, i) then i else FirstEligible(q, i + 1)
  }

  /** `init_slot`. */
  function Reset(q: Mlq): (r: Mlq)
    requires Valid(q)
    ensures Valid(r)
  {
    q.(slots := FullSlots())
  }

  /** The state in which the next process is picked: quotas are renewed only if nobody is eligible. */
  function Renewed(q: Mlq): (r: Mlq)
    requires Valid(q)
    ensures Valid(r) && r.queues == q.queues
  {
    if !AllEmpty(q) && FirstEligible(q, 0) == MAX_PRIO then Reset(q) else q
  }

  /** The priority the next dispatch takes from, or MAX_PRIO when nothing is ready. */
  function Pick(q: Mlq): nat
    requires Valid(q)
  {
    FirstEligible(Renewed(q), 0)
  }

  /** `get_mlq_proc` hands out a process exactly when some queue is not empty. */
  lemma PickExistsIff(q: Mlq)
    requires Valid(q)
    ensures Pick(q) < MAX_PRIO <==> !AllEmpty(q)
  {
    if !AllEmpty(q) && FirstEligible(q, 0) == MAX_PRIO {
      var i :| 0 <= i < MAX_PRIO && q.queues[i] != [];
      assert Eligible(Reset(q), i);
    }
  }

  function Dispatch(q: Mlq, i: nat): (r: Mlq)
    requires Valid(q) && i < MAX_PRIO && Eligible(q, i)
    ensures Valid(r)
  {
    q.(queues := q.queues[i := q.queues[i][1..]], slots := q.slots[i := q.slots[i] - 1])
  }

  /** `get_mlq_proc`: the new state. */
  function Get(q: Mlq): (r: Mlq)
    requires Valid(q)
    ensures Valid(r)
  {
    if Pick(q) < MAX_PRIO then Dispatch(Renewed(q), Pick(q)) else q
  }

  /** `get_mlq_proc`: the process returned, `None` for NULL. */
  function Got(q: Mlq): Option<Pid>
    requires Valid(q)
  {
    if Pick(q) < MAX_PRIO then Some(q.queues[Pick(q)][0]) else None
  }

  /** `add_mlq_proc` and `put_mlq_proc` when there is room; a full queue exits the program. */
  predicate HasRoom(q: Mlq, prio: nat)
    requires Valid(q)
  {
    prio < MAX_PRIO && |q.queues[prio]| < CAPACITY
  }

  function Put(q: Mlq, prio: nat, p: Pid): (r: Mlq)
    requires Valid(q) && HasRoom(q, prio)
    ensures Valid(r)
  {
    q.(queues := q.queues[prio := q.queues[prio] + [p]])
  }

  /** A dispatch at priority `i` means every non-empty higher priority has used up its quota. */
  lemma HigherPrioritiesSpent(q: Mlq, j: nat)
    requires Valid(q) && j < Pick(q) && q.queues[j] != []
    ensures Renewed(q).slots[j] == 0
  {
    assert !Eligible(Renewed(q), j);
  }

  // ---------- Conservation ----------

  /** Every queued process, with multiplicity. */
  function Members(queues: seq<seq<Pid>>): multiset<Pid> {
    if queues == [] then multiset{} else multiset(queues[0]) + Members(queues[1..])
  }

  /** `b` is `a` plus one more `p`. */
  ghost predicate OneMore(a: multiset<Pid>, b: multiset<Pid>, p: Pid) {
    b == a + multiset{p}
  }

  lemma {:induction false} MembersPop(queues: seq<seq<Pid>>, i: nat)
    requires i < |queues| && queues[i] != []
    ensures OneMore(Members(queues[i := queues[i][1..]]), Members(queues), queues[i][0])
  {
    var t := queues[i := queues[i][1..]];
    if i == 0 {
      assert t[1..] == queues[1..];
      assert queues[0] == [queues[0][0]] + queues[0][1..];
    } else {
      assert t[1..] == queues[1..][i - 1 := queues[1..][i - 1][1..]];
      MembersPop(queues[1..], i - 1);
    }
  }

  lemma {:induction false} MembersPush(queues: seq<seq<Pid>>, i: nat, p: Pid)
    requires i < |queues|
    ensures OneMore(Members(queues), Members(queues[i := queues[i] + [p]]), p)
  {
    var t := queues[i := queues[i] + [p]];
    if i == 0 {
      assert t[1..] == queues[1..];
    } else {
      assert t[1..] == queues[1..][i - 1 := queues[1..][i - 1] + [p]];
      MembersPush(queues[1..], i - 1, p);
    }
  }

  lemma {:induction false} MembersEmpty(queues: seq<seq<Pid>>)
    requires forall i :: 0 <= i < |queues| ==> queues[i] == []
    ensures Members(queues) == multiset{}
  {
    if queues != [] { MembersEmpty(queues[1..]); }
  }

  /** A dispatch removes exactly the process it returns; it returns none only when none is queued. */
  lemma GetConserves(q: Mlq)
    requires Valid(q)
    ensures match Got(q)
            case None => Get(q) == q && Members(q.queues) == multiset{}
            case Some(p) => OneMore(Members(Get(q).queues), Members(q.queues), p)
  {
    PickExistsIff(q);
    if Pick(q) < MAX_PRIO { MembersPop(q.queues, Pick(q)); } else { MembersEmpty(q.queues); }
  }

  /** Queueing adds exactly the process queued. */
  lemma PutConserves(q: Mlq, prio: nat, p: Pid)
    requires Valid(q) && HasRoom(q, prio)
    ensures OneMore(Members(q.queues), Members(Put(q, prio, p).queues), p)
  {
    MembersPush(q.queues, prio, p);
  }

  // ---------- Histories ----------

  datatype Event = GetProc | PutProc(prio: nat, pid: Pid)

  /** Everything but queueing into a full queue goes on. */
  predicate Possible(q: Mlq, e: Event)
    requires Valid(q)
  {
    e.PutProc? ==> HasRoom(q, e.prio)
  }

  function After(q: Mlq, e: Event): (r: Mlq)
    requires Valid(q) && Possible(q, e)
    ensures Valid(r)
  {
    match e
    case GetProc => Get(q)
    case PutProc(prio, p) => Put(q, prio, p)
  }

  /** No full queue cuts the history short. */
  ghost predicate Runs(q: Mlq, es: seq<Event>)
    requires Valid(q)
    decreases |es|
  {
    es == [] || (Possible(q, es[0]) && Runs(After(q, es[0]), es[1..]))
  }

  /** The state after a history. */
  ghost function Exec(q: Mlq, es: seq<Event>): (r: Mlq)
    requires Valid(q) && Runs(q, es)
    ensures Valid(r)
    decreases |es|
  {
    if es == [] then q else Exec(After(q, es[0]), es[1..])
  }

  function Gets(es: seq<Event>): nat {
    if es == [] then 0 else (if es[0].GetProc? then 1 else 0) + Gets(es[1..])
  }

  // ---------- Bounded waiting ----------

  function Sum(s: seq<nat>): nat {
    if s == [] then 0 else s[0] + Sum(s[1..])
  }

  lemma {:induction false} SumUpdate(s: seq<nat>, i: nat)
    requires i < |s| && s[i] > 0
    ensures Sum(s[i := s[i] - 1]) == Sum(s) - 1
  {
    var t := s[i := s[i] - 1];
    if i == 0 {
      assert t[1..] == s[1..];
    } else {
      assert t[1..] == s[1..][i - 1 := s[1..][i - 1] - 1];
      SumUpdate(s[1..], i - 1);
    }
  }

  /** `n + (n - 1) + ... + 1`. */
  function Triangle(n: nat): nat {
    if n == 0 then 0 else n + Triangle(n - 1)
  }

  lemma {:induction false} TriangleClosed(n: nat)
    ensures 2 * Triangle(n) == n * (n + 1)
  {
    if n > 0 { TriangleClosed(n - 1); }
  }

  lemma {:induction false} SumBounded(s: seq<nat>)
    requires forall i :: 0 <= i < |s| ==> s[i] <= |s| - i
    ensures Sum(s) <= Triangle(|s|)
    ensures (forall i :: 0 <= i < |s| ==> s[i] == |s| - i) ==> Sum(s) == Triangle(|s|)
  {
    if s != [] { SumBounded(s[1..]); }
  }

  /** Dispatches in a full epoch: 140 + 139 + ... + 1. */
  const EPOCH: nat := 9870

  lemma EpochLength(q: Mlq)
    requires Valid(q)
    ensures Sum(q.slots) <= EPOCH && Sum(FullSlots()) == EPOCH
  {
    SumBounded(q.slots);
    SumBounded(FullSlots());
    TriangleClosed(MAX_PRIO);
  }

  /** `a / b` rounded up, and 0 for `a <= 0`. */
  function CeilDiv(a: int, b: nat): nat
    requires b > 0
    decreases a
  {
    if a <= 0 then 0 else 1 + CeilDiv(a - b, b)
  }

  lemma {:induction false} CeilDivMeaning(a: int, b: nat)
    requires b > 0
    ensures a <= b * CeilDiv(a, b)
    ensures a > 0 ==> b * (CeilDiv(a, b) - 1) < a
    decreases a
  {
    if a > 0 { CeilDivMeaning(a - b, b); }
  }

  lemma {:induction false} CeilDivMonotone(a: int, a': int, b: nat)
    requires b > 0 && a <= a'
    ensures CeilDiv(a, b) <= CeilDiv(a', b)
    decreases a
  {
    if a > 0 { CeilDivMonotone(a - b, a' - b, b); }
  }

  /** An upper bound on the dispatches up to and including the one of position `k` of queue `i`:
      what is left of this epoch, and a whole epoch for every further quota needed. */
  function Wait(q: Mlq, i: nat, k: nat): nat
    requires Valid(q) && i < MAX_PRIO
  {
    Sum(q.slots) + EPOCH * CeilDiv(k + 1 - q.slots[i], Quota(i))
  }

  lemma WaitBound(q: Mlq, i: nat, k: nat)
    requires Valid(q) && i < MAX_PRIO
    ensures Wait(q, i, k) <= EPOCH * (CeilDiv(k + 1, Quota(i)) + 1)
  {
    EpochLength(q);
    CeilDivMonotone(k + 1 - q.slots[i], k + 1, Quota(i));
  }

  /** Renewing the quotas never lengthens the wait, as the waiting queue's quota must be spent by then. */
  lemma RenewedWait(q: Mlq, i: nat, k: nat)
    requires Valid(q) && i < MAX_PRIO && k < |q.queues[i]|
    ensures Wait(Renewed(q), i, k) <= Wait(q, i, k)
  {
    if Renewed(q) != q {
      assert !Eligible(q, i);
      ResetWait(q, i, k);
    }
  }

  lemma ResetWait(q: Mlq, i: nat, k: nat)
    requires Valid(q) && i < MAX_PRIO && q.slots[i] == 0
    ensures Wait(Reset(q), i, k) <= Wait(q, i, k)
  {
    EpochLength(q);
    assert CeilDiv(k + 1, Quota(i)) == 1 + CeilDiv(k + 1 - Quota(i), Quota(i));
  }

  /** A dispatch takes one slot; at queue `i` it also moves everybody one position forward. */
  lemma DispatchWait(q: Mlq, i: nat, k: nat, j: nat)
    requires Valid(q) && i < MAX_PRIO && j < MAX_PRIO && Eligible(q, j)
    ensures j != i ==> Wait(Dispatch(q, j), i, k) == Wait(q, i, k) - 1
    ensures j == i && k > 0 ==> Wait(Dispatch(q, j), i, k - 1) == Wait(q, i, k) - 1
    ensures Wait(q, i, k) > 0
  {
    SumUpdate(q.slots, j);
  }

  /** Every dispatch of another process shortens the wait. */
  lemma WaitFalls(q: Mlq, i: nat, k: nat)
    requires Valid(q) && i < MAX_PRIO && k < |q.queues[i]|
    ensures Pick(q) < MAX_PRIO
    ensures Pick(q) != i ==> Get(q).queues[i] == q.queues[i] && Wait(Get(q), i, k) < Wait(q, i, k)
    ensures Pick(q) == i ==> Got(q) == Some(q.queues[i][0]) && Get(q).queues[i] == q.queues[i][1..]
    ensures Pick(q) == i && k > 0 ==> Wait(Get(q), i, k - 1) < Wait(q, i, k)
    ensures Wait(q, i, k) > 0
  {
    PickExistsIff(q);
    RenewedWait(q, i, k);
    DispatchWait(Renewed(q), i, k, Pick(q));
  }

  /** Is the process now at position `k` of queue `i` dispatched by the `t`-th event of the history? */
  ghost predicate ServedAt(q: Mlq, i: nat, k: nat, es: seq<Event>, t: nat)
    requires Valid(q) && Runs(q, es) && i < MAX_PRIO && k < |q.queues[i]|
  {
    && t < |es| && es[t].GetProc?
    && Runs(q, es[..t])
    && Got(Exec(q, es[..t])) == Some(q.queues[i][k])
    && Gets(es[..t]) < Wait(q, i, k)
  }

  /** One event later: the same process at its new position `k'`. */
  ghost predicate MovedOn(q: Mlq, i: nat, k: nat, e: Event, k': nat)
    requires Valid(q) && Possible(q, e) && i < MAX_PRIO && k < |q.queues[i]|
  {
    && k' < |After(q, e).queues[i]| && After(q, e).queues[i][k'] == q.queues[i][k]
    && Wait(After(q, e), i, k') + (if e.GetProc? then 1 else 0) <= Wait(q, i, k)
  }

  /** Queueing at the back changes nobody's wait. */
  lemma PutKeepsWait(q: Mlq, i: nat, k: nat, prio: nat, p: Pid)
    requires Valid(q) && HasRoom(q, prio) && i < MAX_PRIO && k < |q.queues[i]|
    ensures var r := Put(q, prio, p);
            k < |r.queues[i]| && r.queues[i][k] == q.queues[i][k] && Wait(r, i, k) == Wait(q, i, k)
  {
  }

  lemma EventMovesOn(q: Mlq, i: nat, k: nat, e: Event)
    requires Valid(q) && Possible(q, e) && i < MAX_PRIO && k < |q.queues[i]|
    ensures if e.GetProc? && Pick(q) == i then k > 0 ==> MovedOn(q, i, k, e, k - 1) else MovedOn(q, i, k, e, k)
  {
    match e
    case GetProc => WaitFalls(q, i, k);
    case PutProc(prio, p) => PutKeepsWait(q, i, k, prio, p);
  }

  lemma ServedLater(q: Mlq, i: nat, k: nat, k': nat, es: seq<Event>, t: nat)
    requires Valid(q) && Runs(q, es) && i < MAX_PRIO && k < |q.queues[i]| && es != []
    requires MovedOn(q, i, k, es[0], k')
    requires ServedAt(After(q, es[0]), i, k', es[1..], t)
    ensures ServedAt(q, i, k, es, t + 1)
  {
    assert es[..t + 1][1..] == es[1..][..t];
  }

  /** Bounded waiting: whatever is queued meanwhile, a process at position `k` of queue `i` is
      dispatched within `Wait(q, i, k)` calls of `get_proc`. */
  lemma {:induction false} BoundedWaiting(q: Mlq, i: nat, k: nat, es: seq<Event>) returns (t: nat)
    requires Valid(q) && Runs(q, es) && i < MAX_PRIO && k < |q.queues[i]|
    requires Gets(es) >= Wait(q, i, k)
    ensures ServedAt(q, i, k, es, t)
    decreases |es|
  {
    WaitFalls(q, i, k);
    if es[0].GetProc? && Pick(q) == i && k == 0 {
      t := 0;
      assert es[..0] == [];
    } else {
      var k' := if es[0].GetProc? && Pick(q) == i then k - 1 else k;
      EventMovesOn(q, i, k, es[0]);
      t := BoundedWaiting(After(q, es[0]), i, k', es[1..]);
      ServedLater(q, i, k, k', es, t);
      t := t + 1;
    }
  }

  /** The bound in terms of position and priority alone. */
  lemma BoundedWaitingOverall(q: Mlq, i: nat, k: nat, es: seq<Event>) returns (t: nat)
    requires Valid(q) && Runs(q, es) && i < MAX_PRIO && k < |q.queues[i]|
    requires Gets(es) >= EPOCH * (CeilDiv(k + 1, Quota(i)) + 1)
    ensures t < |es| && es[t].GetProc? && Runs(q, es[..t]) && Got(Exec(q, es[..t])) == Some(q.queues[i][k])
    ensures Gets(es[..t]) < EPOCH * (CeilDiv(k + 1, Quota(i)) + 1)
  {
    WaitBound(q, i, k);
    t := BoundedWaiting(q, i, k, es);
  }

  // ---------- Epochs ----------

  /** Does this event renew the quotas? */
  ghost predicate Renews(q: Mlq, e: Event)
    requires Valid(q)
  {
    e.GetProc? && !AllEmpty(q) && FirstEligible(q, 0) == MAX_PRIO
  }

  /** No event of the history renews the quotas. */
  ghost predicate OneEpoch(q: Mlq, es: seq<Event>)
    requires Valid(q) && Runs(q, es)
    decreases |es|
  {
    es == [] ||
    (!Renews(q, es[0]) && OneEpoch(After(q, es[0]), es[1..]))
  }

  /** How often priority `i` is dispatched in a history. */
  ghost function Dispatches(q: Mlq, es: seq<Event>, i: nat): nat
    requires Valid(q) && Runs(q, es)
    decreases |es|
  {
    if es == [] then 0
    else (if es[0].GetProc? && Pick(q) == i then 1 else 0) + Dispatches(After(q, es[0]), es[1..], i)
  }

  lemma {:induction false} SlotsCountDispatches(q: Mlq, es: seq<Event>, i: nat)
    requires Valid(q) && Runs(q, es) && OneEpoch(q, es) && i < MAX_PRIO
    ensures Exec(q, es).slots[i] + Dispatches(q, es, i) == q.slots[i]
    decreases |es|
  {
    if es != [] {
      SlotsCountDispatches(After(q, es[0]), es[1..], i);
    }
  }

  /** Within an epoch no priority is dispatched more than its quota, and one that still has
      a process waiting when the quotas are renewed was dispatched exactly that often. */
  lemma QuotaPerEpoch(q: Mlq, es: seq<Event>, i: nat)
    requires Valid(q) && q.slots == FullSlots() && Runs(q, es) && OneEpoch(q, es) && i < MAX_PRIO
    ensures Dispatches(q, es, i) <= Quota(i)
    ensures Renews(Exec(q, es), GetProc) && Exec(q, es).queues[i] != [] ==> Dispatches(q, es, i) == Quota(i)
  {
    SlotsCountDispatches(q, es, i);
    if Renews(Exec(q, es), GetProc) && Exec(q, es).queues[i] != [] {
      assert !Eligible(Exec(q, es), i);
    }
  }
}
