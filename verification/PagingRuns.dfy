/**
What holds over whole runs of the paging machine: any number of processes,
any order of mapping, faulting, evicting, reading, writing and reusing pages.
*/
module PagingRuns {
  import opened Counting
  import opened LruSpec
  import opened Options
  import opened Paging
  import opened PagingInvariant

  /** A machine after `init_memphy`: all frames free, in ascending order, nothing mapped. */
  ghost predicate Booted(m: Machine) {
    && m.ramFree == seq(|m.ram|, i => i) && m.swapFree == seq(|m.swap|, i => i)
    && m.table == map[] && m.lru == [] && m.pending == []
  }

  datatype Reached = Stuck | At(m: Machine)

  function After(r: Outcome): Reached { if r.Undefined? then Stuck else At(r.m) }

  /** The state after `ops`, or `Stuck` if some operation was illegal or undefined. */
  function Run(d: Decoder, m0: Machine, ops: seq<Op>): Reached {
    if ops == [] then At(m0)
    else
      var n := |ops| - 1;
      match Run(d, m0, ops[..n])
      case Stuck => Stuck
      case At(m) =>
        if Legal(m, ops[n]) then After(Step(d, m, ops[n])) else Stuck
  }

  /** The result of the last of `ops` in a run that reaches it. */
  function LastOutcome(d: Decoder, m0: Machine, ops: seq<Op>): Outcome
    requires ops != [] && Run(d, m0, ops).At?
  {
    var n := |ops| - 1;
    Step(d, Run(d, m0, ops[..n]).m, ops[n])
  }

  /** No operation of the run failed for lack of swap space. */
  ghost predicate NoFailure(d: Decoder, m0: Machine, ops: seq<Op>)
    requires Run(d, m0, ops).At?
  {
    ops == [] || (LastOutcome(d, m0, ops).Ok? && NoFailure(d, m0, ops[..|ops| - 1]))
  }

  // ---------- Ownership ----------

  lemma BootedInv(m: Machine)
    requires Booted(m)
    ensures Inv(m) && Complete(m)
  {
    forall o: nat | o < |m.swap| ensures o in m.swapFree { assert m.swapFree[o] == o; }
  }

  /** Devices keep their sizes, and a RAM free list that is empty stays empty. */
  ghost predicate SameDevices(m: Machine, r: Machine) {
    |r.ram| == |m.ram| && |r.swap| == |m.swap| && (m.ramFree == [] ==> r.ramFree == [])
  }

  lemma GetPageSameDevices(d: Decoder, m: Machine, slot: Slot)
    requires !GetPage(d, m, slot).Undefined?
    ensures SameDevices(m, GetPage(d, m, slot).m)
  {
  }

  lemma StepSameDevices(d: Decoder, m: Machine, op: Op)
    requires Legal(m, op) && !Step(d, m, op).Undefined?
    ensures SameDevices(m, Step(d, m, op).m)
  {
    if op.Read? || Puts(op) { GetPageSameDevices(d, m, op.slot); }
  }

  /** The invariant holds in every reachable state, and nothing is lost until swap runs out. */
  lemma {:induction false} ReachableInv(m0: Machine, ops: seq<Op>)
    requires Booted(m0) && Run(BySwapOffset, m0, ops).At?
    ensures Inv(Run(BySwapOffset, m0, ops).m)
    ensures NoFailure(BySwapOffset, m0, ops) ==> Complete(Run(BySwapOffset, m0, ops).m)
    ensures |Run(BySwapOffset, m0, ops).m.ram| == |m0.ram| && |Run(BySwapOffset, m0, ops).m.swap| == |m0.swap|
  {
    if ops == [] {
      BootedInv(m0);
    } else {
      var n := |ops| - 1;
      ReachableInv(m0, ops[..n]);
      var m := Run(BySwapOffset, m0, ops[..n]).m;
      StepKeeps(m, ops[n]);
      StepSameDevices(BySwapOffset, m, ops[n]);
    }
  }

  ghost predicate FreeRam(m: Machine, f: nat) { f in m.ramFree }
  ghost predicate PendingRam(m: Machine, f: nat) { f in m.pending }
  ghost predicate PresentRam(m: Machine, f: nat) { InRam(f) in m.table.Values }

  /** In a complete state every RAM frame has exactly one owner. */
  lemma EveryRamFrameOwned(m: Machine, f: nat)
    requires Inv(m) && Complete(m) && f < |m.ram|
    ensures FreeRam(m, f) || PendingRam(m, f) || PresentRam(m, f)
    ensures FreeRam(m, f) ==> !PendingRam(m, f) && !PresentRam(m, f)
    ensures PendingRam(m, f) ==> !PresentRam(m, f)
    ensures forall s, t :: s in m.table && t in m.table && m.table[s] == m.table[t] == InRam(f) ==> s == t
  {
    var listed := seq(|m.lru|, i requires 0 <= i < |m.lru| => m.lru[i].fpn);
    var all := m.ramFree + m.pending + listed;
    forall i | 0 <= i < |m.lru| ensures listed[i] < |m.ram| && listed[i] !in m.ramFree && listed[i] !in m.pending {
      assert m.lru[i] in m.lru;
    }
    DistinctConcat(m.ramFree, m.pending);
    DistinctConcat(m.ramFree + m.pending, listed);
    Pigeonhole(all, |m.ram|);
    assert f in all;
    if f !in m.ramFree && f !in m.pending {
      var i :| 0 <= i < |m.lru| && listed[i] == f;
      assert m.lru[i] in m.lru;
      assert m.table[m.lru[i].slot] == InRam(f);
    }
  }

  /** In every run, no RAM frame has two owners; without a failure, each has exactly one. */
  lemma RamOwnershipOverRuns(m0: Machine, ops: seq<Op>, f: nat)
    requires Booted(m0) && Run(BySwapOffset, m0, ops).At? && f < |m0.ram|
    ensures var m := Run(BySwapOffset, m0, ops).m;
            && (FreeRam(m, f) ==> !PendingRam(m, f) && !PresentRam(m, f))
            && (PendingRam(m, f) ==> !PresentRam(m, f))
            && (forall s, t :: s in m.table && t in m.table && m.table[s] == m.table[t] == InRam(f) ==> s == t)
            && (NoFailure(BySwapOffset, m0, ops) ==> FreeRam(m, f) || PendingRam(m, f) || PresentRam(m, f))
  {
    ReachableInv(m0, ops);
    var m := Run(BySwapOffset, m0, ops).m;
    if NoFailure(BySwapOffset, m0, ops) { EveryRamFrameOwned(m, f); }
  }

  /** The same for swap frames, whose owners are the free list and the swapped entries. */
  lemma SwapOwnershipOverRuns(m0: Machine, ops: seq<Op>, o: nat)
    requires Booted(m0) && Run(BySwapOffset, m0, ops).At? && o < |m0.swap|
    ensures var m := Run(BySwapOffset, m0, ops).m;
            && (o in m.swapFree ==> InSwap(o) !in m.table.Values)
            && (forall s, t :: s in m.table && t in m.table && m.table[s] == m.table[t] == InSwap(o) ==> s == t)
            && (NoFailure(BySwapOffset, m0, ops) ==> o in m.swapFree || InSwap(o) in m.table.Values)
  {
    ReachableInv(m0, ops);
  }

  /** Each listed node's entry is present in that frame, frames are listed once, and
      without a failure every present entry of every process is listed. */
  lemma ListAgreesOverRuns(m0: Machine, ops: seq<Op>)
    requires Booted(m0) && Run(BySwapOffset, m0, ops).At?
    ensures var m := Run(BySwapOffset, m0, ops).m;
            && LruAgrees(m)
            && (NoFailure(BySwapOffset, m0, ops) ==>
                  forall s, f :: s in m.table && m.table[s] == InRam(f) ==> Node(s, f) in m.lru)
  {
    ReachableInv(m0, ops);
  }

  /** Once a page is swapped out, the RAM free list is empty for the rest of the run. */
  lemma {:induction false} RamStaysFull(m0: Machine, ops: seq<Op>, more: seq<Op>)
    requires Booted(m0) && Run(BySwapOffset, m0, ops).At? && Run(BySwapOffset, m0, ops + more).At?
    requires exists s :: s in Run(BySwapOffset, m0, ops).m.table && Run(BySwapOffset, m0, ops).m.table[s].InSwap?
    ensures Run(BySwapOffset, m0, ops + more).m.ramFree == []
  {
    if more == [] {
      assert ops + more == ops;
      ReachableInv(m0, ops);
    } else {
      var n := |more| - 1;
      var front := ops + more[..n];
      assert (ops + more)[..|ops + more| - 1] == front;
      RamStaysFull(m0, ops, more[..n]);
      StepSameDevices(BySwapOffset, Run(BySwapOffset, m0, front).m, more[n]);
    }
  }

  // ---------- Transparency ----------

  /** The byte last stored in a cell of page `slot`, looking only at the history. */
  function LastStored(d: Decoder, m0: Machine, ops: seq<Op>, slot: Slot, cell: nat): Option<Byte>
    requires Run(d, m0, ops).At?
  {
    if ops == [] then None
    else
      var op := ops[|ops| - 1];
      if Stores(op, slot, cell) && LastOutcome(d, m0, ops).Ok? then Some(op.value)
      else LastStored(d, m0, ops[..|ops| - 1], slot, cell)
  }

  /** The byte last written to offset `off` of page `slot`, whichever area it was written as. */
  function LastWritten(d: Decoder, m0: Machine, ops: seq<Op>, slot: Slot, off: nat): Option<Byte>
    requires Run(d, m0, ops).At?
  {
    if ops == [] then None
    else
      var op := ops[|ops| - 1];
      if Puts(op) && op.slot == slot && op.off == off && LastOutcome(d, m0, ops).Ok? then Some(op.value)
      else LastWritten(d, m0, ops[..|ops| - 1], slot, off)
  }

  /** Page `slot` is only ever written as a page of `area`. */
  ghost predicate WrittenAs(ops: seq<Op>, slot: Slot, area: Area) {
    forall i :: 0 <= i < |ops| && Puts(ops[i]) && ops[i].slot == slot ==> ops[i].area == area
  }

  /** In a page that is written as one area only, offsets are stored in cells of their own; a page written as
      the other area only has them in the mirrored cells. */
  lemma {:induction false} WrittenIsStored(
      d: Decoder, m0: Machine, ops: seq<Op>, slot: Slot, written: Area, area: Area, off: nat)
    requires Run(d, m0, ops).At? && WrittenAs(ops, slot, written) && off < PAGE_SIZE
    ensures LastStored(d, m0, ops, slot, PhysOffset(area, off))
            == LastWritten(d, m0, ops, slot, if area == written then off else PAGE_SIZE - 1 - off)
  {
    if ops != [] {
      var front := ops[..|ops| - 1];
      forall i | 0 <= i < |front| && Puts(front[i]) && front[i].slot == slot ensures front[i].area == written {
        assert front[i] == ops[i];
      }
      WrittenIsStored(d, m0, front, slot, written, area, off);
      LastIsLegal(d, m0, ops);
    }
  }

  /** The last operation of a run was legal. */
  lemma LastIsLegal(d: Decoder, m0: Machine, ops: seq<Op>)
    requires ops != [] && Run(d, m0, ops).At?
    ensures Run(d, m0, ops[..|ops| - 1]).At? && Legal(Run(d, m0, ops[..|ops| - 1]).m, ops[|ops| - 1])
    ensures Run(d, m0, ops).m == LastOutcome(d, m0, ops).m
  {
  }

  /** Paging is invisible: in every run, every cell that was ever stored to belongs to a mapped page and holds
      what was stored last, through any number of evictions and page-ins. */
  lemma {:induction false} Transparent(m0: Machine, ops: seq<Op>, slot: Slot, cell: nat)
    requires Booted(m0) && Run(BySwapOffset, m0, ops).At? && cell < PAGE_SIZE
    ensures Inv(Run(BySwapOffset, m0, ops).m)
    ensures var m, w := Run(BySwapOffset, m0, ops).m, LastStored(BySwapOffset, m0, ops, slot, cell);
            w.Some? ==> slot in m.table && Content(m, slot)[cell] == w.value
  {
    ReachableInv(m0, ops);
    if LastStored(BySwapOffset, m0, ops, slot, cell).Some? {
      var front, op := ops[..|ops| - 1], ops[|ops| - 1];
      LastIsLegal(BySwapOffset, m0, ops);
      ReachableInv(m0, front);
      StepKeeps(Run(BySwapOffset, m0, front).m, op);
      if !(Stores(op, slot, cell) && LastOutcome(BySwapOffset, m0, ops).Ok?) {
        Transparent(m0, front, slot, cell);
      }
    }
  }

  /** The byte `pg_getval` fetches: the page's frame after the access, at the physical offset. */
  function ReadValue(d: Decoder, m: Machine, slot: Slot, area: Area, off: nat): Byte
    requires off < PAGE_SIZE && Access(d, m, slot, PhysOffset(area, off), false, 0).Ok?
  {
    var m' := Access(d, m, slot, PhysOffset(area, off), false, 0).m;
    var f := FrameField(EntryOf(m', slot));
    if f < |m'.ram| then m'.ram[f][PhysOffset(area, off)] else 0
  }

  /** A completed read returns the byte last stored in the cell it names. */
  lemma ReadReturnsLastStore(m0: Machine, ops: seq<Op>, slot: Slot, area: Area, off: nat)
    requires Booted(m0) && Run(BySwapOffset, m0, ops).At?
    requires var m := Run(BySwapOffset, m0, ops).m;
             Legal(m, Read(slot, area, off)) && Step(BySwapOffset, m, Read(slot, area, off)).Ok?
    ensures var w := LastStored(BySwapOffset, m0, ops, slot, PhysOffset(area, off));
            w.Some? ==> ReadValue(BySwapOffset, Run(BySwapOffset, m0, ops).m, slot, area, off) == w.value
  {
    Transparent(m0, ops, slot, PhysOffset(area, off));
    AccessKeeps(Run(BySwapOffset, m0, ops).m, slot, PhysOffset(area, off), false, 0);
  }

  /** A completed read of a page written as one area only returns the byte last written to that offset, or, if
      the page is read as the other area, the byte last written to the mirrored offset. */
  lemma ReadReturnsLastWrite(m0: Machine, ops: seq<Op>, slot: Slot, written: Area, area: Area, off: nat)
    requires Booted(m0) && Run(BySwapOffset, m0, ops).At? && WrittenAs(ops, slot, written)
    requires var m := Run(BySwapOffset, m0, ops).m;
             Legal(m, Read(slot, area, off)) && Step(BySwapOffset, m, Read(slot, area, off)).Ok?
    ensures var w := LastWritten(BySwapOffset, m0, ops, slot, if area == written then off else PAGE_SIZE - 1 - off);
            w.Some? ==> ReadValue(BySwapOffset, Run(BySwapOffset, m0, ops).m, slot, area, off) == w.value
  {
    WrittenIsStored(BySwapOffset, m0, ops, slot, written, area, off);
    ReadReturnsLastStore(m0, ops, slot, area, off);
  }
}
