/**
The fault handler as compiled reads the swap location of a page from the wrong field of its entry. When that
does no harm, and what it does otherwise.
*/
module CompiledPaging {
  import opened LruSpec
  import opened Options
  import opened Paging
  import opened PagingInvariant
  import opened PagingRuns

  lemma MisreadUnlessZero(off: nat)
    ensures FpnReading(off) == off <==> off == 0
  {
    if FpnReading(off) == off {
      var k := 32 * off / 8192;
      assert 31 * off == 8192 * k;
    }
  }

  /** The swap offset a step's fault handler decodes, if it gets that far. */
  function FaultOffset(m: Machine, op: Op): Option<nat>
    requires Legal(m, op)
  {
    if !op.TakeFrame? && !op.InstallPage? && m.table[op.slot].InSwap? && m.lru != [] && m.swapFree != []
    then Some(m.table[op.slot].off) else None
  }

  /** Reading the location from the wrong field is harmless exactly for offset 0: for any other
      offset the compiled handler frees the wrong swap frame or reads outside the device. */
  lemma CompiledReplaceIff(m: Machine, slot: Slot)
    requires Inv(m) && m.ramFree == [] && slot in m.table && m.table[slot].InSwap? && m.lru != [] && m.swapFree != []
    ensures var off := m.table[slot].off;
            var a, b := Replace(AsCompiled, m, slot, off), Replace(BySwapOffset, m, slot, off);
            && b.Ok?
            && (a == b <==> off == 0)
            && (off != 0 && a.Ok? ==> a.m.swapFree[0] != b.m.swapFree[0])
  {
    var off := m.table[slot].off;
    MisreadUnlessZero(off);
    SwapOutKeeps(m);
    var a, b := Replace(AsCompiled, m, slot, off), Replace(BySwapOffset, m, slot, off);
    assert b.m.swapFree[0] == off;
    if a.Ok? { assert a.m.swapFree[0] == FpnReading(off); }
  }

  /** After a compiled replacement the swap frame that was read has an owner exactly if its number is 0. */
  lemma CompiledReplaceLosesFrame(m: Machine, slot: Slot)
    requires Inv(m) && Complete(m) && m.ramFree == [] && slot in m.table && m.table[slot].InSwap?
    requires Replace(AsCompiled, m, slot, m.table[slot].off).Ok?
    ensures Complete(Replace(AsCompiled, m, slot, m.table[slot].off).m) <==> m.table[slot].off == 0
  {
    var off := m.table[slot].off;
    MisreadUnlessZero(off);
    if off == 0 {
      CompiledReplaceIff(m, slot);
      ReplaceComplete(m, slot);
    } else {
      var r := Replace(AsCompiled, m, slot, off).m;
      assert off !in r.swapFree;
      forall s | s in r.table ensures r.table[s] != InSwap(off) {
        assert m.swapFree[0] in m.swapFree;
      }
    }
  }

  /** Accesses that follow different fetches differ, if the fetches left different swap frames free. */
  lemma AccessesAgreeIff(a: Outcome, b: Outcome, slot: Slot, stale: nat, phys: nat, write: bool, value: Byte)
    requires phys < PAGE_SIZE && !a.OutOfSwap? && (a.Ok? ==> slot in a.m.table)
    requires b.Ok? && slot in b.m.table && FrameField(b.m.table[slot]) < |b.m.ram|
    requires a != b && a.Ok? ==> a.m.swapFree != b.m.swapFree
    ensures (After(AccessFetched(a, slot, stale, phys, write, value))
             == After(AccessFetched(b, slot, stale, phys, write, value))) <==> a == b
  {
  }

  lemma CompiledAccessIff(m: Machine, slot: Slot, phys: nat, write: bool, value: Byte)
    requires Inv(m) && slot in m.table && phys < PAGE_SIZE
    requires m.table[slot].InSwap? && m.lru != [] && m.swapFree != []
    ensures (After(Access(AsCompiled, m, slot, phys, write, value))
             == After(Access(BySwapOffset, m, slot, phys, write, value))) <==> m.table[slot].off == 0
  {
    assert m.ramFree == [];
    CompiledReplaceIff(m, slot);
    ReplaceKeeps(m, slot);
    var off := m.table[slot].off;
    var a, b := Replace(AsCompiled, m, slot, off), Replace(BySwapOffset, m, slot, off);
    AccessesAgreeIff(a, b, slot, FrameField(m.table[slot]), phys, write, value);
  }

  lemma CompiledPokeIff(m: Machine, slot: Slot, phys: nat, value: Byte)
    requires Inv(m) && slot in m.table && phys < PAGE_SIZE
    requires m.table[slot].InSwap? && m.lru != [] && m.swapFree != []
    ensures (After(Poke(AsCompiled, m, slot, phys, value)) == After(Poke(BySwapOffset, m, slot, phys, value))) <==>
              m.table[slot].off == 0
  {
    assert m.ramFree == [];
    CompiledReplaceIff(m, slot);
    ReplaceKeeps(m, slot);
  }

  lemma CompiledReuseIff(m: Machine, slot: Slot)
    requires Inv(m) && slot in m.table && m.table[slot].InSwap? && m.lru != [] && m.swapFree != []
    ensures After(Reuse(AsCompiled, m, slot)) == After(Reuse(BySwapOffset, m, slot)) <==> m.table[slot].off == 0
  {
    CompiledReplaceIff(m, slot);
    ReplaceKeeps(m, slot);
  }

  lemma HarmlessFault(m: Machine, slot: Slot)
    requires RamFullOnceSwapped(m) && slot in m.table
    requires m.table[slot].InSwap? && m.lru != [] && m.swapFree != [] ==> m.table[slot].off == 0
    ensures GetPage(AsCompiled, m, slot) == GetPage(BySwapOffset, m, slot)
    ensures Reuse(AsCompiled, m, slot) == Reuse(BySwapOffset, m, slot)
  {
  }

  /** A step as compiled leads where it should exactly if it does not fault, or faults on swap frame 0. */
  lemma CompiledStepIff(m: Machine, op: Op)
    requires Inv(m) && Legal(m, op)
    ensures FaultOffset(m, op) in {None, Some(0)} <==>
              After(Step(AsCompiled, m, op)) == After(Step(BySwapOffset, m, op))
    ensures FaultOffset(m, op) in {None, Some(0)} ==> Step(AsCompiled, m, op) == Step(BySwapOffset, m, op)
  {
    if FaultOffset(m, op) in {None, Some(0)} {
      if !op.TakeFrame? && !op.InstallPage? { HarmlessFault(m, op.slot); }
    } else {
      match op
      case ReusePage(s) => CompiledReuseIff(m, s);
      case Read(s, a, off) => CompiledAccessIff(m, s, PhysOffset(a, off), false, 0);
      case Write(s, a, off, v) => CompiledAccessIff(m, s, PhysOffset(a, off), true, v);
      case SetByte(s, a, off, v) => CompiledPokeIff(m, s, PhysOffset(a, off), v);
    }
  }

  /** Every fault of the intended run finds its page in swap frame 0. */
  ghost predicate FaultsAtZero(m0: Machine, ops: seq<Op>)
    requires Run(BySwapOffset, m0, ops).At?
  {
    ops == [] ||
    var n := |ops| - 1;
    FaultsAtZero(m0, ops[..n]) && FaultOffset(Run(BySwapOffset, m0, ops[..n]).m, ops[n]) in {None, Some(0)}
  }

  /** The compiled handler produces the same states all along the run. */
  ghost predicate AgreesAlong(m0: Machine, ops: seq<Op>)
  {
    Run(AsCompiled, m0, ops) == Run(BySwapOffset, m0, ops) && (ops == [] || AgreesAlong(m0, ops[..|ops| - 1]))
  }

  /** The code as compiled behaves as intended over a run exactly when every fault is on swap frame 0. */
  lemma {:induction false} CompiledRunIff(m0: Machine, ops: seq<Op>)
    requires Booted(m0) && Run(BySwapOffset, m0, ops).At?
    ensures AgreesAlong(m0, ops) <==> FaultsAtZero(m0, ops)
  {
    if ops != [] {
      var n := |ops| - 1;
      CompiledRunIff(m0, ops[..n]);
      ReachableInv(m0, ops[..n]);
      CompiledStepIff(Run(BySwapOffset, m0, ops[..n]).m, ops[n]);
    }
  }

  // ---------- What compiled reads return ----------

  /** A compiled read that faults returns a byte of the frame it misread, as that frame is once the victim is saved.
      It is the byte of the page exactly if the two frames agree there. */
  lemma CompiledReadIff(m: Machine, slot: Slot, area: Area, off: nat)
    requires Inv(m) && slot in m.table && m.table[slot].InSwap? && off < PAGE_SIZE
    requires Step(AsCompiled, m, Read(slot, area, off)).Ok?
    ensures CanSwapOut(m) && FpnReading(m.table[slot].off) < |m.swap|
    ensures var cell, saved := PhysOffset(area, off), SwapOut(m).swap;
            ReadValue(AsCompiled, m, slot, area, off) == Content(m, slot)[cell]
            <==> saved[FpnReading(m.table[slot].off)][cell] == saved[m.table[slot].off][cell]
  {
    assert m.ramFree == [];
    assert m.swapFree[0] in m.swapFree;
  }

  /** Histories in which every fault is on swap frame 0 mean the same to both handlers. */
  lemma {:induction false} CompiledHistory(m0: Machine, ops: seq<Op>, slot: Slot, cell: nat)
    requires Booted(m0) && Run(BySwapOffset, m0, ops).At? && FaultsAtZero(m0, ops)
    ensures Run(AsCompiled, m0, ops) == Run(BySwapOffset, m0, ops)
    ensures LastStored(AsCompiled, m0, ops, slot, cell) == LastStored(BySwapOffset, m0, ops, slot, cell)
  {
    if ops != [] {
      var n := |ops| - 1;
      CompiledHistory(m0, ops[..n], slot, cell);
      ReachableInv(m0, ops[..n]);
      CompiledStepIff(Run(BySwapOffset, m0, ops[..n]).m, ops[n]);
    }
  }

  /** As long as every fault is on swap frame 0, a read as compiled returns the byte last stored. */
  lemma CompiledReadReturnsLastStore(m0: Machine, ops: seq<Op>, slot: Slot, area: Area, off: nat)
    requires Booted(m0) && Run(BySwapOffset, m0, ops).At? && FaultsAtZero(m0, ops)
    requires var m := Run(BySwapOffset, m0, ops).m;
             && Legal(m, Read(slot, area, off)) && Step(BySwapOffset, m, Read(slot, area, off)).Ok?
             && FaultOffset(m, Read(slot, area, off)) in {None, Some(0)}
    ensures Run(AsCompiled, m0, ops) == Run(BySwapOffset, m0, ops)
    ensures var m, w := Run(AsCompiled, m0, ops).m, LastStored(AsCompiled, m0, ops, slot, PhysOffset(area, off));
            && Legal(m, Read(slot, area, off)) && Step(AsCompiled, m, Read(slot, area, off)).Ok?
            && (w.Some? ==> ReadValue(AsCompiled, m, slot, area, off) == w.value)
  {
    CompiledHistory(m0, ops, slot, PhysOffset(area, off));
    ReachableInv(m0, ops);
    CompiledStepIff(Run(BySwapOffset, m0, ops).m, Read(slot, area, off));
    ReadReturnsLastStore(m0, ops, slot, area, off);
  }

  // ---------- A run that goes wrong ----------

  lemma RunNext(d: Decoder, m0: Machine, ops: seq<Op>, op: Op, m: Machine)
    requires Run(d, m0, ops) == At(m) && Legal(m, op)
    ensures Run(d, m0, ops + [op]) == After(Step(d, m, op))
  {
    assert (ops + [op])[..|ops + [op]| - 1] == ops;
  }

  /** Three pages take turns in one frame; the second is written while it is there. */
  function ThreePages(a: Slot, b: Slot, c: Slot, v: Byte): seq<Op> {
    [TakeFrame, InstallPage(a)] + [TakeFrame, InstallPage(b)] + [Write(b, Stack, 0, v)] + [TakeFrame, InstallPage(c)]
  }

  /** A machine whose only RAM frame holds page `p`. */
  ghost predicate Holds(m: Machine, p: Slot) {
    && |m.ram| == 1 && m.ramFree == [] && m.pending == []
    && m.lru == [Node(p, 0)] && p in m.table && m.table[p] == InRam(0)
  }

  /** Mapping the first page. */
  lemma MapFirst(d: Decoder, m0: Machine, p: Slot)
    requires Booted(m0) && |m0.ram| == 1
    ensures var r := Run(d, m0, [TakeFrame, InstallPage(p)]);
            && r.At? && Holds(r.m, p)
            && r.m.swap == m0.swap && r.m.swapFree == m0.swapFree && r.m.table == map[p := InRam(0)]
  {
    var m1 := Take(m0).m;
    RunNext(d, m0, [], TakeFrame, m0);
    assert m0.ramFree == [0] && m1.pending == [0];
    RunNext(d, m0, [TakeFrame], InstallPage(p), m1);
    assert [TakeFrame] + [InstallPage(p)] == [TakeFrame, InstallPage(p)];
  }

  /** Mapping another page sends the one in the frame to the next free swap frame. */
  lemma MapNext(d: Decoder, m0: Machine, ops: seq<Op>, m: Machine, p: Slot, q: Slot)
    requires Run(d, m0, ops) == At(m) && Holds(m, p) && q !in m.table
    requires m.swapFree != [] && m.swapFree[0] < |m.swap|
    ensures var r := Run(d, m0, ops + [TakeFrame, InstallPage(q)]);
            && r.At? && Holds(r.m, q)
            && r.m.swap == m.swap[m.swapFree[0] := m.ram[0]] && r.m.swapFree == m.swapFree[1..]
            && r.m.table == m.table[p := InSwap(m.swapFree[0])][q := InRam(0)]
  {
    var m1 := Take(m).m;
    RunNext(d, m0, ops, TakeFrame, m);
    RunNext(d, m0, ops + [TakeFrame], InstallPage(q), m1);
    assert m1.pending == [0];
    assert ops + [TakeFrame] + [InstallPage(q)] == ops + [TakeFrame, InstallPage(q)];
  }

  /** Writing the page in the frame. */
  lemma WriteHeld(d: Decoder, m0: Machine, ops: seq<Op>, m: Machine, p: Slot, v: Byte)
    requires Run(d, m0, ops) == At(m) && Holds(m, p)
    ensures var r := Run(d, m0, ops + [Write(p, Stack, 0, v)]);
            && r.At? && Holds(r.m, p) && r.m.ram[0][0] == v
            && r.m.swap == m.swap && r.m.swapFree == m.swapFree && r.m.table == m.table
            && LastOutcome(d, m0, ops + [Write(p, Stack, 0, v)]).Ok?
  {
    var op := Write(p, Stack, 0, v);
    RunNext(d, m0, ops, op, m);
    assert (ops + [op])[..|ops|] == ops;
    assert IndexOf(m.lru, 0) == 0;
    assert MoveToBack(m.lru, 0) == m.lru;
  }

  /** The machine after that: the second page is in swap frame 1. */
  ghost predicate SecondInSwap(m0: Machine, m: Machine, b: Slot, c: Slot, v: Byte) {
    && Holds(m, c)
    && |m.swap| == |m0.swap| >= 33 && m.swap[32] == m0.swap[32] && m.swap[1][0] == v
    && m.swapFree != [] && m.swapFree[0] == 2
    && b in m.table && m.table[b] == InSwap(1)
  }

  lemma AfterThreePages(d: Decoder, m0: Machine, a: Slot, b: Slot, c: Slot, v: Byte)
    requires Booted(m0) && |m0.ram| == 1 && |m0.swap| >= 33 && a != b && b != c && a != c
    ensures Run(d, m0, ThreePages(a, b, c, v)).At? && SecondInSwap(m0, Run(d, m0, ThreePages(a, b, c, v)).m, b, c, v)
    ensures LastStored(d, m0, ThreePages(a, b, c, v), b, 0) == Some(v)
  {
    var first := [TakeFrame, InstallPage(a)];
    var second := first + [TakeFrame, InstallPage(b)];
    var third := second + [Write(b, Stack, 0, v)];
    MapFirst(d, m0, a);
    MapNext(d, m0, first, Run(d, m0, first).m, a, b);
    WriteHeld(d, m0, second, Run(d, m0, second).m, b, v);
    MapNext(d, m0, third, Run(d, m0, third).m, b, c);
    StoreSurvives(d, m0, third, b, 0, c);
  }

  lemma StoreSurvives(d: Decoder, m0: Machine, ops: seq<Op>, slot: Slot, cell: nat, p: Slot)
    requires Run(d, m0, ops + [TakeFrame, InstallPage(p)]).At?
    ensures Run(d, m0, ops).At?
    ensures LastStored(d, m0, ops + [TakeFrame, InstallPage(p)], slot, cell) == LastStored(d, m0, ops, slot, cell)
  {
    var all := ops + [TakeFrame, InstallPage(p)];
    assert all[..|all| - 1] == ops + [TakeFrame];
    assert (ops + [TakeFrame])[..|ops|] == ops;
  }

  /** Reading a swapped page into the frame of another. */
  lemma ReadSwapped(d: Decoder, m: Machine, p: Slot, q: Slot)
    requires Holds(m, p) && p != q && q in m.table && m.table[q].InSwap?
    requires m.swapFree != [] && m.swapFree[0] < |m.swap|
    requires Locate(d, m.table[q].off) < |m.swap| && Locate(d, m.table[q].off) != m.swapFree[0]
    ensures Step(d, m, Read(q, Stack, 0)).Ok?
    ensures ReadValue(d, m, q, Stack, 0) == m.swap[Locate(d, m.table[q].off)][0]
  {
    var f := Replace(d, m, q, m.table[q].off);
    assert f.Ok? && f.m.table[q] == InRam(0) && f.m.ram[0] == m.swap[Locate(d, m.table[q].off)];
  }

  /** In a machine with one RAM frame and 33 swap frames or more, a read as compiled returns a byte of swap
      frame 32, whatever was written; the intended one returns what was written. */
  lemma CompiledReadForgets(d: Decoder, m0: Machine, a: Slot, b: Slot, c: Slot, v: Byte)
    requires Booted(m0) && |m0.ram| == 1 && |m0.swap| >= 33 && a != b && b != c && a != c
    ensures Run(d, m0, ThreePages(a, b, c, v)).At?
    ensures var m, read := Run(d, m0, ThreePages(a, b, c, v)).m, Read(b, Stack, 0);
            && Legal(m, read) && FaultOffset(m, read) == Some(1) && Step(d, m, read).Ok?
            && LastStored(d, m0, ThreePages(a, b, c, v), b, 0) == Some(v)
            && ReadValue(d, m, b, Stack, 0) == if d == AsCompiled then m0.swap[32][0] else v
  {
    AfterThreePages(d, m0, a, b, c, v);
    SecondRead(d, m0, Run(d, m0, ThreePages(a, b, c, v)).m, b, c, v);
  }

  lemma SecondRead(d: Decoder, m0: Machine, m: Machine, b: Slot, c: Slot, v: Byte)
    requires SecondInSwap(m0, m, b, c, v) && b != c
    ensures var read := Read(b, Stack, 0);
            && Legal(m, read) && FaultOffset(m, read) == Some(1) && Step(d, m, read).Ok?
            && ReadValue(d, m, b, Stack, 0) == if d == AsCompiled then m0.swap[32][0] else v
  {
    assert Locate(d, 1) == if d == AsCompiled then 32 else 1;
    ReadSwapped(d, m, c, b);
  }
}
