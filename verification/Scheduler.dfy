/** The array queue of src/queue.c and the scheduler of src/sched.c. They implement `MultilevelQueue`. */
module Scheduler {
  import opened Options
  import opened MultilevelQueue

  /** `queue_t`: a bounded queue in an array, front at index 0. */
  class ReadyQueue {
    const proc: array<Pid>
    var size: nat

    ghost predicate Valid()
      reads this
    {
      proc.Length == CAPACITY && size <= CAPACITY
    }

    ghost function Contents(): seq<Pid>
      requires Valid()
      reads this, proc
    {
      proc[..size]
    }

    constructor ()
      ensures Valid() && Contents() == [] && fresh(proc)
    {
      proc := new Pid[CAPACITY];
      size := 0;
    }

    /** `empty`. */
    method IsEmpty() returns (r: bool)
      requires Valid()
      ensures r <==> Contents() == []
    {
      r := size == 0;
    }

    /** `enqueue`: to the back if there is room. A full queue is an error that ends the program. */
    method Enqueue(p: Pid) returns (ok: bool)
      requires Valid()
      modifies this, proc
      ensures Valid() && ok == (|old(Contents())| < CAPACITY)
      ensures Contents() == if ok then old(Contents()) + [p] else old(Contents())
    {
      ok := size < CAPACITY;
      if ok {
        proc[size] := p;
        size := size + 1;
      }
    }

    /** `dequeue`: the front leaves, and everybody moves up one place. */
    method Dequeue() returns (front: Option<Pid>)
      requires Valid()
      modifies this, proc
      ensures Valid()
      ensures front == if old(Contents()) == [] then None else Some(old(Contents())[0])
      ensures Contents() == if old(Contents()) == [] then [] else old(Contents())[1..]
    {
      if size == 0 {
        return None;
      }
      front := Some(proc[0]);
      var i := 0;
      while i < size - 1
        invariant 0 <= i <= size - 1 && size == old(size)
        invariant forall k :: 0 <= k < i ==> proc[k] == old(proc[..])[k + 1]
        invariant forall k :: i <= k < size ==> proc[k] == old(proc[..])[k]
      {
        proc[i] := proc[i + 1];
        i := i + 1;
      }
      size := size - 1;
    }
  }

  /** The ready queues by priority and what is left of their quotas. */
  class Mlqs {
    const queues: seq<ReadyQueue>
    const slots: array<nat>
    ghost const Repr: set<object>

    ghost predicate ValidQueue(i: nat)
      requires i < |queues|
      reads queues[i]
    {
      queues[i] in Repr && queues[i].proc in Repr && queues[i].proc != slots && queues[i].Valid()
    }

    ghost predicate Apart(i: nat, j: nat)
      requires i < |queues| && j < |queues|
    {
      queues[i] != queues[j] && queues[i].proc != queues[j].proc
    }

    ghost predicate Valid()
      reads this, Repr
    {
      && this in Repr && slots in Repr && |queues| == MAX_PRIO && slots.Length == MAX_PRIO
      && (forall i :: 0 <= i < MAX_PRIO ==> queues[i] in Repr && ValidQueue(i))
      && (forall i, j :: 0 <= i < j < MAX_PRIO ==> Apart(i, j))
      && (forall i :: 0 <= i < MAX_PRIO ==> slots[i] <= Quota(i))
    }

    ghost function QueueAt(i: nat): seq<Pid>
      requires Valid() && i < MAX_PRIO
      reads this, Repr
    {
      assert ValidQueue(i);
      queues[i].Contents()
    }

    /** The scheduler as a value. */
    ghost function State(): (q: Mlq)
      requires Valid()
      reads this, Repr
      ensures MultilevelQueue.Valid(q)
      ensures forall i :: 0 <= i < MAX_PRIO ==> q.queues[i] == QueueAt(i)
      ensures q.slots == slots[..]
    {
      var qs := seq(MAX_PRIO, i requires 0 <= i < MAX_PRIO && Valid() reads this, Repr => QueueAt(i));
      assert forall i :: 0 <= i < MAX_PRIO ==> ValidQueue(i);
      Mlq(qs, slots[..])
    }

    /** `init_scheduler`. */
    constructor ()
      ensures Valid() && fresh(Repr)
      ensures State() == Mlq(seq(MAX_PRIO, _ => []), FullSlots())
    {
      var qs: seq<ReadyQueue> := [];
      ghost var objects: set<object> := {};
      while |qs| < MAX_PRIO
        invariant |qs| <= MAX_PRIO && fresh(objects)
        invariant forall i :: 0 <= i < |qs| ==>
                    qs[i] in objects && qs[i].proc in objects && qs[i].Valid() && qs[i].Contents() == []
        invariant forall i, j :: 0 <= i < j < |qs| ==> qs[i] != qs[j] && qs[i].proc != qs[j].proc
      {
        var q := new ReadyQueue();
        qs := qs + [q];
        objects := objects + {q, q.proc};
      }
      var s := new nat[MAX_PRIO](i requires 0 <= i < MAX_PRIO => MAX_PRIO - i);
      queues, slots := qs, s;
      Repr := objects + {this, s};
    }

    /** `init_slot`. */
    method InitSlots()
      requires Valid()
      modifies slots
      ensures Valid() && State() == Reset(old(State()))
    {
      ghost var q := State();
      var i := 0;
      while i < MAX_PRIO
        invariant i <= MAX_PRIO
        invariant forall j :: 0 <= j < i ==> slots[j] == MAX_PRIO - j
        invariant forall j :: i <= j < MAX_PRIO ==> slots[j] == old(slots[j])
      {
        slots[i] := MAX_PRIO - i;
        i := i + 1;
      }
      assert slots[..] == FullSlots();
      assert State().queues == q.queues;
    }

    /** `queue_empty`, which returns -1 when some ready queue holds a process. */
    method SomeReady() returns (r: bool)
      requires Valid()
      ensures r <==> !AllEmpty(State())
    {
      var i := 0;
      while i < MAX_PRIO
        invariant i <= MAX_PRIO
        invariant forall j :: 0 <= j < i ==> State().queues[j] == []
      {
        assert ValidQueue(i);
        var e := queues[i].IsEmpty();
        if !e {
          assert State().queues[i] != [];
          return true;
        }
        assert State().queues[i] == QueueAt(i);
        i := i + 1;
      }
      return false;
    }

    /** Dequeue from queue `i` and charge its quota. */
    method DispatchFrom(i: nat) returns (p: Option<Pid>)
      requires Valid() && i < MAX_PRIO && Eligible(State(), i)
      modifies queues[i], queues[i].proc, slots
      ensures Valid() && State() == Dispatch(old(State()), i) && p == Some(old(State()).queues[i][0])
    {
      ghost var q := State();
      assert forall j :: 0 <= j < MAX_PRIO ==> ValidQueue(j) && q.queues[j] == QueueAt(j);
      p := queues[i].Dequeue();
      slots[i] := slots[i] - 1;
      assert forall j :: 0 <= j < MAX_PRIO ==> ValidQueue(j);
      forall j | 0 <= j < MAX_PRIO ensures QueueAt(j) == if j == i then q.queues[i][1..] else q.queues[j] {
        if j < i { assert Apart(j, i); } else if i < j { assert Apart(i, j); }
      }
      assert State().queues == Dispatch(q, i).queues;
      assert slots[..] == Dispatch(q, i).slots;
    }

    lemma FirstIs(q: Mlq, i: nat)
      requires MultilevelQueue.Valid(q) && i < MAX_PRIO && Eligible(q, i)
      requires forall j :: 0 <= j < i ==> !Eligible(q, j)
      ensures FirstEligible(q, 0) == i
    {
    }

    /** One pass over the queues: dispatch from the first eligible one, if any. */
    method Scan() returns (p: Option<Pid>)
      requires Valid()
      modifies Repr
      ensures Valid()
      ensures var q := old(State());
              var i := FirstEligible(q, 0);
              if i < MAX_PRIO then State() == Dispatch(q, i) && p == Some(q.queues[i][0]) else State() == q && p == None
    {
      p := None;
      var i := 0;
      while i < MAX_PRIO
        invariant i <= MAX_PRIO && Valid() && State() == old(State()) && p == None
        invariant forall j :: 0 <= j < i ==> !Eligible(State(), j)
      {
        assert ValidQueue(i);
        var e := queues[i].IsEmpty();
        assert State().queues[i] == QueueAt(i);
        if !e && slots[i] != 0 {
          FirstIs(State(), i);
          p := DispatchFrom(i);
          return;
        }
        i := i + 1;
      }
    }

    /** `get_mlq_proc`: at most two passes, the second with renewed quotas. */
    method GetProc() returns (p: Option<Pid>)
      requires Valid()
      modifies Repr
      ensures Valid() && State() == Get(old(State())) && p == Got(old(State()))
    {
      ghost var q := State();
      ghost var passes := 0;
      p := None;
      var ready := SomeReady();
      while ready
        invariant Valid() && p == None && passes <= 1
        invariant ready <==> !AllEmpty(q)
        invariant State() == if passes == 0 then q else Reset(q)
        invariant passes == 1 ==> !AllEmpty(q) && FirstEligible(q, 0) == MAX_PRIO
        decreases 2 - passes
      {
        PickExistsIff(q);
        p := Scan();
        if p.Some? {
          return;
        }
        InitSlots();
        passes := passes + 1;
      }
      PickExistsIff(q);
    }

    /** `put_mlq_proc` and `add_mlq_proc`; `false` stands for the exit on a full queue. */
    method PutProc(prio: nat, p: Pid) returns (ok: bool)
      requires Valid() && prio < MAX_PRIO
      modifies Repr
      ensures Valid() && ok == HasRoom(old(State()), prio)
      ensures State() == if ok then Put(old(State()), prio, p) else old(State())
    {
      ghost var q := State();
      assert forall j :: 0 <= j < MAX_PRIO ==> ValidQueue(j) && q.queues[j] == QueueAt(j);
      ok := queues[prio].Enqueue(p);
      assert forall j :: 0 <= j < MAX_PRIO ==> ValidQueue(j);
      forall j | 0 <= j < MAX_PRIO ensures QueueAt(j) == if j == prio && ok then q.queues[j] + [p] else q.queues[j] {
        if j < prio { assert Apart(j, prio); } else if prio < j { assert Apart(prio, j); }
      }
      assert slots[..] == q.slots;
      assert State().queues == (if ok then Put(q, prio, p) else q).queues;
    }
  }
}
