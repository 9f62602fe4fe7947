/**
Programs run by the threads of `Os` on the memory of `Interleaving`: whatever the number of CPUs, the interleaving and
the other processes, what a process reads is decided by its own program.
*/
module Programs {
  import opened Options
  import Q = MultilevelQueue
  import opened Paging
  import PR = PagingRuns
  import RS = RegionSafety
  import O = Os
  import opened OsExecution
  import opened Instructions
  import V = Interleaving

  /** An instruction of a program; CALC does not use memory. */
  datatype Code = Calc | Memory(i: Instr)

  /** One program per process of the configuration, each with instructions of its own process. */
  ghost predicate ProgramsOf(g: O.Config, progs: seq<seq<Code>>) {
    && |progs| == |g.sizes|
    && (forall p :: 0 <= p < |progs| ==> |progs[p]| == g.sizes[p])
    && (forall p, k :: 0 <= p < |progs| && 0 <= k < |progs[p]| && progs[p][k].Memory? ==> progs[p][k].i.pid == p)
  }

  function MemoryPart(c: Code): seq<Instr> { if c.Memory? then [c.i] else [] }

  /** What instruction `k` of process `p` asks of memory. */
  function Request(progs: seq<seq<Code>>, p: Q.Pid, k: nat): seq<Instr> {
    if p < |progs| && k < |progs[p]| then MemoryPart(progs[p][k]) else []
  }

  /** The memory instructions behind a log of executed instructions. */
  function History(progs: seq<seq<Code>>, log: seq<(Q.Pid, nat)>): seq<Instr> {
    if log == [] then []
    else
      var n := |log| - 1;
      History(progs, log[..n]) + Request(progs, log[n].0, log[n].1)
  }

  /** The memory instructions of a piece of program. */
  function MemoryOf(code: seq<Code>): seq<Instr> {
    if code == [] then []
    else
      var n := |code| - 1;
      MemoryOf(code[..n]) + MemoryPart(code[n])
  }

  /** The instructions of one process in a history. */
  function Own(h: seq<Instr>, p: Q.Pid): seq<Instr> {
    if h == [] then []
    else
      var n := |h| - 1;
      Own(h[..n], p) + if h[n].pid == p then [h[n]] else []
  }

  lemma OwnNext(h: seq<Instr>, i: Instr, p: Q.Pid)
    ensures Own(h + [i], p) == Own(h, p) + if i.pid == p then [i] else []
  {
    assert (h + [i])[..|h|] == h;
  }

  /** A request adds to the instructions of its own process only. */
  lemma OwnRequest(g: O.Config, progs: seq<seq<Code>>, h: seq<Instr>, q: Q.Pid, k: nat, p: Q.Pid)
    requires ProgramsOf(g, progs)
    ensures Own(h + Request(progs, q, k), p) == Own(h, p) + if q == p then Request(progs, q, k) else []
  {
    var r := Request(progs, q, k);
    if r == [] {
      assert h + r == h;
    } else {
      OwnNext(h, r[0], p);
    }
  }

  /** The requests of the given instructions of process `p`. */
  function Requests(progs: seq<seq<Code>>, p: Q.Pid, indices: seq<nat>): seq<Instr> {
    if indices == [] then []
    else
      var n := |indices| - 1;
      Requests(progs, p, indices[..n]) + Request(progs, p, indices[n])
  }

  lemma RequestsNext(progs: seq<seq<Code>>, p: Q.Pid, indices: seq<nat>, k: nat)
    ensures Requests(progs, p, indices + [k]) == Requests(progs, p, indices) + Request(progs, p, k)
  {
    assert (indices + [k])[..|indices|] == indices;
  }

  /** The part of a history that belongs to a process consists of the requests of its executed instructions. */
  lemma {:induction false} OwnRequests(g: O.Config, progs: seq<seq<Code>>, log: seq<(Q.Pid, nat)>, p: Q.Pid)
    requires ProgramsOf(g, progs)
    ensures Own(History(progs, log), p) == Requests(progs, p, Executed(log, p))
    decreases |log|
  {
    if log != [] {
      var front, q, k := log[..|log| - 1], log[|log| - 1].0, log[|log| - 1].1;
      OwnRequests(g, progs, front, p);
      OwnRequest(g, progs, History(progs, front), q, k, p);
      if q == p {
        RequestsNext(progs, p, Executed(front, p), k);
      } else {
        assert Executed(log, p) == Executed(front, p);
      }
    }
  }

  /** The first `n` instructions in order are the first `n` of the program. */
  lemma {:induction false} RequestsInOrder(progs: seq<seq<Code>>, p: Q.Pid, n: nat)
    requires p < |progs| && n <= |progs[p]|
    ensures Requests(progs, p, UpTo(n)) == MemoryOf(progs[p][..n])
    decreases n
  {
    if n > 0 {
      RequestsInOrder(progs, p, n - 1);
      assert UpTo(n) == UpTo(n - 1) + [n - 1];
      RequestsNext(progs, p, UpTo(n - 1), n - 1);
      assert progs[p][..n][..n - 1] == progs[p][..n - 1];
    } else {
      assert UpTo(0) == [] && progs[p][..0] == [];
    }
  }

  /** The part of a history that belongs to a process is the part of its program it has executed. */
  lemma OwnHistory(g: O.Config, progs: seq<seq<Code>>, log: seq<(Q.Pid, nat)>, p: Q.Pid, n: nat)
    requires ProgramsOf(g, progs) && p < |progs| && n <= |progs[p]| && Executed(log, p) == UpTo(n)
    ensures Own(History(progs, log), p) == MemoryOf(progs[p][..n])
  {
    OwnRequests(g, progs, log, p);
    RequestsInOrder(progs, p, n);
  }

  // ---------- Events ----------

  function Instrs(h: seq<Event>): seq<Instr> { seq(|h|, k requires 0 <= k < |h| => h[k].i) }

  /** No write of process `p` ran out of swap space. */
  ghost predicate WritesDone(h: seq<Event>, p: Q.Pid) {
    forall k :: 0 <= k < |h| && h[k].i.pid == p && h[k].i.WriteVar? ==> h[k].done
  }

  /** The byte that a piece of program stores in a variable last, if all its writes get through. */
  function ProgramStores(code: seq<Instr>, p: Q.Pid, rgid: nat, off: nat): Option<Byte> {
    LastStored(seq(|code|, k requires 0 <= k < |code| => Event(code[k], true)), p, rgid, off)
  }

  lemma ProgramStoresNext(code: seq<Instr>, i: Instr, p: Q.Pid, rgid: nat, off: nat)
    ensures ProgramStores(code + [i], p, rgid, off) ==
            if !Affects(Event(i, true), p, rgid, off) then ProgramStores(code, p, rgid, off)
            else if i.WriteVar? then Some(i.value) else None
  {
    var es := seq(|code|, k requires 0 <= k < |code| => Event(code[k], true));
    var es' := seq(|code + [i]|, k requires 0 <= k < |code + [i]| => Event((code + [i])[k], true));
    assert es'[..|code|] == es && es'[|code|] == Event(i, true);
  }

  /** What was last stored in a variable of a process is decided by its own instructions. */
  lemma {:induction false} LastStoredOwn(h: seq<Event>, p: Q.Pid, rgid: nat, off: nat)
    requires WritesDone(h, p)
    ensures LastStored(h, p, rgid, off) == ProgramStores(Own(Instrs(h), p), p, rgid, off)
  {
    if h != [] {
      var n := |h| - 1;
      var front, e := h[..n], h[n];
      LastStoredOwn(front, p, rgid, off);
      assert Instrs(h) == Instrs(front) + [e.i];
      OwnNext(Instrs(front), e.i, p);
      if e.i.pid == p {
        ProgramStoresNext(Own(Instrs(front), p), e.i, p, rgid, off);
      } else {
        assert Own(Instrs(h), p) == Own(Instrs(front), p);
      }
    }
  }

  // ---------- Theorems ----------

  /** A state of the threads, and a state of memory that its executed instructions have led to, in any interleaving of
      their operations. */
  ghost predicate RunsTogether(
      g: O.Config, s0: O.Os, run: seq<O.Thread>, s: O.Os, progs: seq<seq<Code>>,
      c0: V.State, vmemsz: nat, acts: seq<V.Action>, c: V.State)
  {
    && O.Initial(g, s0) && O.Reaches(g, s0, run, s) && ProgramsOf(g, progs)
    && RS.GoodSize(vmemsz) && V.Booted(c0, vmemsz) && |c0.procs| == |progs| == |c.procs| && V.Reaches(c0, acts, c)
    && Instrs(V.Begun(acts)) == History(progs, s.log)
  }

  /** What a process has begun is the part of its program it has executed. */
  lemma BegunIsExecuted(
      g: O.Config, s0: O.Os, run: seq<O.Thread>, s: O.Os, progs: seq<seq<Code>>,
      c0: V.State, vmemsz: nat, acts: seq<V.Action>, c: V.State, p: Q.Pid)
    requires RunsTogether(g, s0, run, s, progs, c0, vmemsz, acts, c) && p < |progs|
    ensures |s.procs| == |progs| && s.procs[p].pc <= |progs[p]|
    ensures Own(Instrs(V.Begun(acts)), p) == MemoryOf(progs[p][..s.procs[p].pc])
  {
    ScheduleIndependent(g, s0, run, s, p);
    OwnHistory(g, progs, s.log, p, s.procs[p].pc);
  }

  /** On any number of CPUs, in every interleaving of their operations and beside any other processes, a variable of a
      process that is between two instructions holds the byte the executed part of its own program stored there last. */
  lemma VariablesFollowProgram(
      g: O.Config, s0: O.Os, run: seq<O.Thread>, s: O.Os, progs: seq<seq<Code>>,
      c0: V.State, vmemsz: nat, acts: seq<V.Action>, c: V.State, p: Q.Pid, rgid: nat, off: nat)
    requires RunsTogether(g, s0, run, s, progs, c0, vmemsz, acts, c) && p < |progs|
    requires c.procs[p].todo == [] && WritesDone(V.Begun(acts), p)
    ensures |s.procs| == |progs| && s.procs[p].pc <= |progs[p]|
    ensures var x := c.procs[p].space;
            var w := ProgramStores(MemoryOf(progs[p][..s.procs[p].pc]), p, rgid, off);
            w.Some? && IsVar(x, rgid, off) ==>
              && VarSlot(x, p, rgid, off) in c.m.table && Backed(c.m, VarSlot(x, p, rgid, off))
              && Content(c.m, VarSlot(x, p, rgid, off))[VarCell(x, rgid, off)] == w.value
  {
    BegunIsExecuted(g, s0, run, s, progs, c0, vmemsz, acts, c, p);
    LastStoredOwn(V.Begun(acts), p, rgid, off);
    V.VariablesHoldInterleaved(c0, vmemsz, acts, c, p, rgid, off);
  }

  /** Process `p` is about to complete the read of its variable that is the last instruction it has begun. */
  ghost predicate CompletesRead(c: V.State, c': V.State, p: Q.Pid, rgid: nat, off: nat) {
    && p < |c.procs| && IsVar(c.procs[p].space, rgid, off)
    && c.procs[p].todo == [ReadOp(p, c.procs[p].space.syms[rgid], off)]
    && V.Steps(c, V.Do(p), c') && c.procs[p].now.Some? && c.procs[p].now.value.done
  }

  /** The byte it gets. */
  ghost function ByteRead(c: V.State, p: Q.Pid): Byte
    requires p < |c.procs| && c.procs[p].todo != [] && c.procs[p].todo[0].Read? && c.procs[p].todo[0].off < PAGE_SIZE
    requires var op := c.procs[p].todo[0];
             Access(BySwapOffset, c.m, op.slot, PhysOffset(op.area, op.off), false, 0).Ok?
  {
    var op := c.procs[p].todo[0];
    PR.ReadValue(BySwapOffset, c.m, op.slot, op.area, op.off)
  }

  /** Every read of every process returns the byte its own program stored there last. */
  lemma ReadsFollowProgram(
      g: O.Config, s0: O.Os, run: seq<O.Thread>, s: O.Os, progs: seq<seq<Code>>,
      c0: V.State, vmemsz: nat, acts: seq<V.Action>, c: V.State, c': V.State, p: Q.Pid, rgid: nat, off: nat)
    requires RunsTogether(g, s0, run, s, progs, c0, vmemsz, acts, c) && p < |progs|
    requires CompletesRead(c, c', p, rgid, off) && WritesDone(V.Begun(acts), p)
    ensures |s.procs| == |progs| && s.procs[p].pc <= |progs[p]|
    ensures var op := c.procs[p].todo[0]; Access(BySwapOffset, c.m, op.slot, PhysOffset(op.area, op.off), false, 0).Ok?
    ensures var w := ProgramStores(MemoryOf(progs[p][..s.procs[p].pc]), p, rgid, off);
            w.Some? ==> ByteRead(c, p) == w.value
  {
    BegunIsExecuted(g, s0, run, s, progs, c0, vmemsz, acts, c, p);
    LastStoredOwn(V.Begun(acts), p, rgid, off);
    V.ReadsHoldInterleaved(c0, vmemsz, acts, c, p, rgid, off, c');
  }

  /** So two runs that differ in CPUs, time slice, interleaving, memory and all other processes agree on every byte that
      a process reads back from what it wrote. */
  lemma ReadsAgree(
      g: O.Config, s0: O.Os, run: seq<O.Thread>, s: O.Os, progs: seq<seq<Code>>,
      c0: V.State, vmemsz: nat, acts: seq<V.Action>, c: V.State, c': V.State,
      g2: O.Config, t0: O.Os, run2: seq<O.Thread>, t: O.Os, progs2: seq<seq<Code>>,
      d0: V.State, vmemsz2: nat, acts2: seq<V.Action>, d: V.State, d': V.State, p: Q.Pid, rgid: nat, off: nat)
    requires RunsTogether(g, s0, run, s, progs, c0, vmemsz, acts, c) && p < |progs|
    requires CompletesRead(c, c', p, rgid, off) && WritesDone(V.Begun(acts), p)
    requires RunsTogether(g2, t0, run2, t, progs2, d0, vmemsz2, acts2, d) && p < |progs2|
    requires CompletesRead(d, d', p, rgid, off) && WritesDone(V.Begun(acts2), p)
    requires |s.procs| == |progs| && |t.procs| == |progs2| && s.procs[p].pc <= |progs[p]|
    requires progs[p] == progs2[p] && s.procs[p].pc == t.procs[p].pc
    requires ProgramStores(MemoryOf(progs[p][..s.procs[p].pc]), p, rgid, off).Some?
    ensures var op := c.procs[p].todo[0]; Access(BySwapOffset, c.m, op.slot, PhysOffset(op.area, op.off), false, 0).Ok?
    ensures var op := d.procs[p].todo[0]; Access(BySwapOffset, d.m, op.slot, PhysOffset(op.area, op.off), false, 0).Ok?
    ensures ByteRead(c, p) == ByteRead(d, p)
  {
    ReadsFollowProgram(g, s0, run, s, progs, c0, vmemsz, acts, c, c', p, rgid, off);
    ReadsFollowProgram(g2, t0, run2, t, progs2, d0, vmemsz2, acts2, d, d', p, rgid, off);
  }
}
