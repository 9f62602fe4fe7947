/**
Processes with their address spaces on top of shared paged memory, one instruction after the other. The main
theorem is what a program can rely on: a variable holds what was last written to it, whatever else runs.
*/
module System {
  import opened Options
  import opened LruSpec
  import opened Paging
  import PI = PagingInvariant
  import PR = PagingRuns
  import PL = PagingLimits
  import opened RegionScan
  import opened Regions
  import RS = RegionSafety
  import opened Instructions

  /** One address space per process, and the memory they share. */
  datatype System = System(spaces: seq<Space>, m: Machine)

  // ---------- Instructions ----------

  /** The operations of an allocation, which stops at the first that fails. */
  function Perform(d: Decoder, m: Machine, ops: seq<Op>): Outcome
    decreases |ops|
  {
    if ops == [] then Ok(m)
    else if !Legal(m, ops[0]) then Undefined
    else
      match Step(d, m, ops[0])
      case Ok(m1) => Perform(d, m1, ops[1..])
      case r => r
  }

  /** The operations of any other instruction, which goes on after a failure. */
  function PerformAll(d: Decoder, m: Machine, ops: seq<Op>): Outcome
    decreases |ops|
  {
    if ops == [] then Ok(m)
    else if !Legal(m, ops[0]) then Undefined
    else
      match Step(d, m, ops[0])
      case Ok(m1) => PerformAll(d, m1, ops[1..])
      case OutOfSwap(m1) =>
        (match PerformAll(d, m1, ops[1..])
         case Undefined => Undefined
         case r => OutOfSwap(r.m))
      case Undefined => Undefined
  }

  /** What an instruction does to memory. */
  ghost function Carry(d: Decoder, m: Machine, s: Space, i: Instr): Outcome
    requires Covered(s, i)
  {
    if i.Allocate? then Perform(d, m, Ops(s, i)) else PerformAll(d, m, Ops(s, i))
  }

  /** One covered instruction; `e.done` tells whether it ran out of swap space. A growth that does so is not covered:
      it leaves its limit behind. */
  ghost predicate Executes(y: System, e: Event, y': System) {
    && e.i.pid < |y.spaces| && Covered(y.spaces[e.i.pid], e.i)
    && var s := y.spaces[e.i.pid];
       var r := Carry(BySwapOffset, y.m, s, e.i);
       && y'.spaces == y.spaces[e.i.pid := SpaceAfter(s, e.i)]
       && !r.Undefined? && y'.m == r.m && e.done == r.Ok? && (Grows(s, e.i) ==> e.done)
  }

  // ---------- Invariant ----------

  ghost predicate PagesMatch(y: System) {
    forall s: Slot :: s in y.m.table <==> s.pid < |y.spaces| && s.pgn in y.spaces[s.pid].mapped
  }

  /** Page tables hold exactly the pages the address spaces believe to be mapped. */
  ghost predicate Inv(y: System) {
    && Paging.Inv(y.m)
    && (forall p :: 0 <= p < |y.spaces| ==> RS.Inv(y.spaces[p]))
    && PagesMatch(y)
  }

  /** An operation keeps the memory invariant and maps exactly what it installs; installing never fails. */
  lemma StepMaps(m: Machine, op: Op) returns (r: Outcome)
    requires Paging.Inv(m) && Legal(m, op)
    ensures r == Step(BySwapOffset, m, op)
    ensures !r.Undefined? ==>
              Paging.Inv(r.m) && r.m.table.Keys == m.table.Keys + (if op.InstallPage? then {op.slot} else {})
    ensures op.InstallPage? ==> r.Ok?
  {
    PI.StepKeeps(m, op);
    r := Step(BySwapOffset, m, op);
  }

  /** The frames an operation takes; an installation takes one less than none. */
  function Taken(op: Op): int { if op.TakeFrame? then 1 else if op.InstallPage? then -1 else 0 }

  lemma FetchPendsNothing(d: Decoder, m: Machine, slot: Slot)
    requires !GetPage(d, m, slot).Undefined?
    ensures GetPage(d, m, slot).m.pending == m.pending
  {
  }

  lemma StepPends(d: Decoder, m: Machine, op: Op)
    requires Legal(m, op) && !Step(d, m, op).Undefined? && (op.TakeFrame? ==> Step(d, m, op).Ok?)
    ensures |Step(d, m, op).m.pending| == |m.pending| + Taken(op)
  {
    if op.Read? || Puts(op) { FetchPendsNothing(d, m, op.slot); }
  }

  /** Operations keep the memory invariant and map exactly what they install. */
  lemma {:induction false} PerformKeeps(m: Machine, ops: seq<Op>)
    requires Paging.Inv(m)
    ensures var r := Perform(BySwapOffset, m, ops);
            && (!r.Undefined? ==> Paging.Inv(r.m))
            && (r.Ok? ==> r.m.table.Keys == m.table.Keys + Installed(ops))
            && (r.OutOfSwap? && Installed(ops) == {} ==> r.m.table.Keys == m.table.Keys)
    decreases |ops|
  {
    if ops != [] && Legal(m, ops[0]) {
      var r := StepMaps(m, ops[0]);
      assert Installed(ops) == (if ops[0].InstallPage? then {ops[0].slot} else {}) + Installed(ops[1..]);
      if r.Ok? { PerformKeeps(r.m, ops[1..]); }
    }
  }

  lemma {:induction false} PerformAllKeeps(m: Machine, ops: seq<Op>)
    requires Paging.Inv(m)
    ensures var r := PerformAll(BySwapOffset, m, ops);
            !r.Undefined? ==> Paging.Inv(r.m) && r.m.table.Keys == m.table.Keys + Installed(ops)
    decreases |ops|
  {
    if ops != [] && Legal(m, ops[0]) {
      var r := StepMaps(m, ops[0]);
      if !r.Undefined? { PerformAllKeeps(r.m, ops[1..]); }
    }
  }

  ghost predicate SameByte(m: Machine, m': Machine, slot: Slot, cell: nat)
    requires slot in m.table && Backed(m, slot) && cell < PAGE_SIZE
  {
    slot in m'.table && Backed(m', slot) && Content(m', slot)[cell] == Content(m, slot)[cell]
  }

  /** A step that does not store to a byte, or fails, keeps it. */
  lemma StepSpares(m: Machine, op: Op, slot: Slot, cell: nat)
    requires Paging.Inv(m) && Legal(m, op) && slot in m.table && cell < PAGE_SIZE
    requires var r := Step(BySwapOffset, m, op); !r.Undefined? && (r.Ok? ==> !Stores(op, slot, cell))
    ensures Backed(m, slot) && SameByte(m, Step(BySwapOffset, m, op).m, slot, cell)
  {
    PI.StepKeeps(m, op);
  }

  lemma {:induction false} PerformSpares(m: Machine, ops: seq<Op>, slot: Slot, cell: nat)
    requires Paging.Inv(m) && Spares(ops, slot, cell) && slot in m.table && cell < PAGE_SIZE
    requires !Perform(BySwapOffset, m, ops).Undefined?
    ensures Backed(m, slot) && SameByte(m, Perform(BySwapOffset, m, ops).m, slot, cell)
    decreases |ops|
  {
    if ops != [] {
      var r := Step(BySwapOffset, m, ops[0]);
      PI.StepKeeps(m, ops[0]);
      StepSpares(m, ops[0], slot, cell);
      if r.Ok? { PerformSpares(r.m, ops[1..], slot, cell); }
    }
  }

  lemma {:induction false} PerformAllSpares(m: Machine, ops: seq<Op>, slot: Slot, cell: nat)
    requires Paging.Inv(m) && Spares(ops, slot, cell) && slot in m.table && cell < PAGE_SIZE
    requires !PerformAll(BySwapOffset, m, ops).Undefined?
    ensures Backed(m, slot) && SameByte(m, PerformAll(BySwapOffset, m, ops).m, slot, cell)
    decreases |ops|
  {
    if ops != [] {
      var r := Step(BySwapOffset, m, ops[0]);
      PI.StepKeeps(m, ops[0]);
      StepSpares(m, ops[0], slot, cell);
      PerformAllSpares(r.m, ops[1..], slot, cell);
    }
  }

  /** A single operation. */
  lemma PerformOne(d: Decoder, m: Machine, op: Op)
    ensures PerformAll(d, m, [op]) == if Legal(m, op) then Step(d, m, op) else Undefined
  {
    assert [op][1..] == [];
  }

  /** Only growths install pages. */
  lemma InstallsIfGrows(s: Space, i: Instr)
    requires Covered(s, i) && !Grows(s, i)
    ensures Installed(Ops(s, i)) == {}
  {
    if i.Release? { ZeroOpsAt(i.pid, s.syms[i.rgid].area, s.syms[i.rgid].region.start, s.syms[i.rgid].region.end); }
    NoInstalls(Ops(s, i));
  }

  /** Page tables gain the pages the address space gains. */
  lemma PagesStayMatched(y: System, pid: nat, y': System, s: Space, added: set<Slot>)
    requires Inv(y) && pid < |y.spaces| && y'.spaces == y.spaces[pid := s] && RS.Inv(s)
    requires Paging.Inv(y'.m) && y'.m.table.Keys == y.m.table.Keys + added && Adds(y.spaces[pid], s, pid, added)
    ensures Inv(y')
  {
    forall x: Slot ensures x in y'.m.table <==> x.pid < |y'.spaces| && x.pgn in y'.spaces[x.pid].mapped {
      assert x in y'.m.table.Keys <==> x in y.m.table.Keys || x in added;
    }
  }

  lemma CarryKeeps(m: Machine, s: Space, i: Instr)
    requires Paging.Inv(m) && Covered(s, i)
    ensures var r := Carry(BySwapOffset, m, s, i);
            && (!r.Undefined? ==> Paging.Inv(r.m))
            && (!r.Undefined? && (Grows(s, i) ==> r.Ok?) ==> r.m.table.Keys == m.table.Keys + Installed(Ops(s, i)))
  {
    if i.Allocate? { PerformKeeps(m, Ops(s, i)); } else { PerformAllKeeps(m, Ops(s, i)); }
    if !Grows(s, i) { InstallsIfGrows(s, i); }
  }

  lemma ExecutesKeepsInv(y: System, e: Event, y': System)
    requires Inv(y) && Executes(y, e, y')
    ensures Inv(y')
  {
    var s := y.spaces[e.i.pid];
    SpaceStaysInOrder(s, e.i);
    CarryKeeps(y.m, s, e.i);
    OpsAdd(s, e.i);
    PagesStayMatched(y, e.i.pid, y', SpaceAfter(s, e.i), Installed(Ops(s, e.i)));
  }

  // ---------- Variables ----------

  /** A byte of a live region on a mapped page. */
  ghost predicate HasVar(y: System, pid: nat, rgid: nat, off: nat) {
    && pid < |y.spaces| && IsVar(y.spaces[pid], rgid, off)
    && VarSlot(y.spaces[pid], pid, rgid, off) in y.m.table
  }

  /** The current value of a variable, wherever paging keeps it. */
  ghost function VarByte(y: System, pid: nat, rgid: nat, off: nat): Byte
    requires Inv(y) && HasVar(y, pid, rgid, off)
  {
    Content(y.m, VarSlot(y.spaces[pid], pid, rgid, off))[VarCell(y.spaces[pid], rgid, off)]
  }

  /** If all pages of the heap are mapped, every byte of every live region is on a mapped page. */
  lemma VarMapped(y: System, pid: nat, rgid: nat, off: nat)
    requires Inv(y) && pid < |y.spaces| && RS.HeapMapped(y.spaces[pid]) && IsVar(y.spaces[pid], rgid, off)
    ensures HasVar(y, pid, rgid, off)
  {
    MappedIsCovered(y.spaces[pid], rgid, off);
  }

  /** Operations of another process are on its own pages. */
  lemma OtherSpares(s: Space, i: Instr, slot: Slot, cell: nat)
    requires Covered(s, i) && slot.pid != i.pid
    ensures Spares(Ops(s, i), slot, cell)
  {
    OpsOnOwnPages(s, i);
  }

  /** An instruction that does not affect a variable keeps its byte: its operations spare it, or it is a write that
      failed. */
  lemma CarrySpares(m: Machine, s: Space, e: Event, slot: Slot, cell: nat)
    requires Paging.Inv(m) && Covered(s, e.i) && slot in m.table && cell < PAGE_SIZE
    requires var r := Carry(BySwapOffset, m, s, e.i); !r.Undefined? && r.Ok? == e.done
    requires Spares(Ops(s, e.i), slot, cell) || (e.i.WriteVar? && !e.done)
    ensures Backed(m, slot) && SameByte(m, Carry(BySwapOffset, m, s, e.i).m, slot, cell)
  {
    if !Spares(Ops(s, e.i), slot, cell) {
      var op := Ops(s, e.i)[0];
      assert Ops(s, e.i) == [op];
      PerformOne(BySwapOffset, m, op);
      StepSpares(m, op, slot, cell);
    } else if e.i.Allocate? {
      PerformSpares(m, Ops(s, e.i), slot, cell);
    } else {
      PerformAllSpares(m, Ops(s, e.i), slot, cell);
    }
  }

  lemma VarKept(y: System, e: Event, y': System, pid: nat, rgid: nat, off: nat)
    requires Inv(y) && Executes(y, e, y') && pid < |y.spaces| && rgid < SYMBOLS && !Affects(e, pid, rgid, off)
    ensures |y'.spaces| == |y.spaces| && |y'.spaces[pid].syms| == SYMBOLS
    ensures y'.spaces[pid].syms[rgid] == y.spaces[pid].syms[rgid]
  {
    if e.i.pid == pid {
      if e.i.rgid == rgid && !IsAccess(e.i) { assert false; }
      SymbolsKept(y.spaces[pid], e.i, rgid);
    }
  }

  /** No instruction of any process disturbs a variable it does not affect. */
  lemma VarUndisturbed(y: System, e: Event, y': System, pid: nat, rgid: nat, off: nat)
    requires Inv(y) && Executes(y, e, y') && HasVar(y, pid, rgid, off) && !Affects(e, pid, rgid, off)
    ensures Inv(y') && HasVar(y', pid, rgid, off) && VarByte(y', pid, rgid, off) == VarByte(y, pid, rgid, off)
  {
    ExecutesKeepsInv(y, e, y');
    VarKept(y, e, y', pid, rgid, off);
    var s := y.spaces[e.i.pid];
    var slot, cell := VarSlot(y.spaces[pid], pid, rgid, off), VarCell(y.spaces[pid], rgid, off);
    if e.i.pid != pid {
      OtherSpares(s, e.i, slot, cell);
    } else if !Affects(Event(e.i, true), pid, rgid, off) {
      OpsSpare(s, e.i, rgid, off);
    }
    CarrySpares(y.m, s, e, slot, cell);
  }

  /** A write inside its region that completes stores its byte in its variable. */
  lemma WriteStores(y: System, e: Event, y': System)
    requires Inv(y) && e.i.WriteVar? && e.done && Executes(y, e, y') && IsVar(y.spaces[e.i.pid], e.i.rgid, e.i.off)
    ensures Inv(y') && HasVar(y', e.i.pid, e.i.rgid, e.i.off) && VarByte(y', e.i.pid, e.i.rgid, e.i.off) == e.i.value
  {
    ExecutesKeepsInv(y, e, y');
    var s := y.spaces[e.i.pid];
    var op := Ops(s, e.i)[0];
    assert Ops(s, e.i) == [op];
    PerformOne(BySwapOffset, y.m, op);
    WritePerformed(y.m, op, y'.m);
  }

  lemma WritePerformed(m: Machine, op: Op, m': Machine)
    requires Paging.Inv(m) && op.Write? && Legal(m, op) && Step(BySwapOffset, m, op) == Ok(m')
    ensures Paging.Inv(m') && op.slot in m'.table && Content(m', op.slot)[PhysOffset(op.area, op.off)] == op.value
  {
    PI.StepKeeps(m, op);
  }

  ghost predicate HasByte(m: Machine, slot: Slot, cell: nat, v: Byte) {
    slot in m.table && Backed(m, slot) && cell < PAGE_SIZE && Content(m, slot)[cell] == v
  }

  lemma StepSets(m: Machine, op: Op, slot: Slot, cell: nat, v: Byte) returns (r: Machine)
    requires Paging.Inv(m) && Legal(m, op) && Step(BySwapOffset, m, op).Ok? && op.SetByte? && op.value == v
    requires slot in m.table && cell < PAGE_SIZE && (Stores(op, slot, cell) || HasByte(m, slot, cell, v))
    ensures Step(BySwapOffset, m, op) == Ok(r) && Paging.Inv(r) && HasByte(r, slot, cell, v)
  {
    r := Step(BySwapOffset, m, op).m;
    PI.StepKeeps(m, op);
  }

  lemma StepMisses(m: Machine, op: Op, slot: Slot, cell: nat) returns (r: Machine)
    requires Paging.Inv(m) && Legal(m, op) && Step(BySwapOffset, m, op).Ok? && slot in m.table
    ensures Step(BySwapOffset, m, op) == Ok(r) && Paging.Inv(r) && slot in r.table
  {
    r := Step(BySwapOffset, m, op).m;
    PI.StepKeeps(m, op);
  }

  /** Stores of one value that get through leave it in every byte that one of them stores to. */
  lemma {:induction false} PerformAllSets(m: Machine, ops: seq<Op>, slot: Slot, cell: nat, v: Byte, r: Machine)
    requires Paging.Inv(m) && slot in m.table && cell < PAGE_SIZE && PerformAll(BySwapOffset, m, ops) == Ok(r)
    requires forall k :: 0 <= k < |ops| ==> ops[k].SetByte? && ops[k].value == v
    requires !Spares(ops, slot, cell) || HasByte(m, slot, cell, v)
    ensures HasByte(r, slot, cell, v)
    decreases |ops|
  {
    if ops != [] {
      var m1: Machine;
      if Stores(ops[0], slot, cell) || HasByte(m, slot, cell, v) {
        m1 := StepSets(m, ops[0], slot, cell, v);
      } else {
        m1 := StepMisses(m, ops[0], slot, cell);
        var k :| 0 <= k < |ops| && Stores(ops[k], slot, cell);
        assert Stores(ops[1..][k - 1], slot, cell);
      }
      PerformAllSets(m1, ops[1..], slot, cell, v, r);
    }
  }

  /** FREE sets all bytes of a stack variable but its last one to zero, and keeps those of a heap variable. */
  lemma ReleaseZeroes(y: System, e: Event, y': System, off: nat)
    requires Inv(y) && e.i.Release? && e.done && Executes(y, e, y') && HasVar(y, e.i.pid, e.i.rgid, off)
    ensures var s := y.spaces[e.i.pid];
            var sym, slot, cell := s.syms[e.i.rgid], VarSlot(s, e.i.pid, e.i.rgid, off), VarCell(s, e.i.rgid, off);
            && slot in y'.m.table && Backed(y'.m, slot)
            && Content(y'.m, slot)[cell]
               == if sym.area.Stack? && off + 1 < Len(Stack, sym.region) then 0 else VarByte(y, e.i.pid, e.i.rgid, off)
  {
    var s := y.spaces[e.i.pid];
    var sym := s.syms[e.i.rgid];
    assert RS.Live(s, e.i.rgid, sym.area);
    var slot, cell := VarSlot(s, e.i.pid, e.i.rgid, off), VarCell(s, e.i.rgid, off);
    ZeroOpsAt(e.i.pid, sym.area, sym.region.start, sym.region.end);
    if sym.area.Stack? && off + 1 < Len(Stack, sym.region) {
      assert Stores(Ops(s, e.i)[off], slot, cell);
      PerformAllSets(y.m, Ops(s, e.i), slot, cell, 0, y'.m);
    } else {
      ZeroSparesLast(s, e.i, off);
      PerformAllSpares(y.m, Ops(s, e.i), slot, cell);
    }
  }

  /** The last byte of a stack region and all bytes of a heap region are not among those that FREE zeroes. */
  lemma ZeroSparesLast(s: Space, i: Instr, off: nat)
    requires Covered(s, i) && i.Release? && IsVar(s, i.rgid, off) && RS.Live(s, i.rgid, s.syms[i.rgid].area)
    requires s.syms[i.rgid].area.Stack? ==> off + 1 >= Len(Stack, s.syms[i.rgid].region)
    ensures Spares(Ops(s, i), VarSlot(s, i.pid, i.rgid, off), VarCell(s, i.rgid, off))
  {
    var sym, x := s.syms[i.rgid], Address(s.syms[i.rgid], off);
    ZeroOpsAt(i.pid, sym.area, sym.region.start, sym.region.end);
    forall k | 0 <= k < |Ops(s, i)| ensures !Stores(Ops(s, i)[k], SlotOf(i.pid, x), CellOf(sym.area, x)) {
      DistinctAddresses(sym.area, x, sym.region.start + k);
    }
  }

  /** An allocation changes no byte of any mapped page. */
  lemma AllocateKeepsBytes(y: System, e: Event, y': System, slot: Slot, cell: nat)
    requires Inv(y) && e.i.Allocate? && Executes(y, e, y') && slot in y.m.table && cell < PAGE_SIZE
    ensures Backed(y.m, slot) && SameByte(y.m, y'.m, slot, cell)
  {
    var s := y.spaces[e.i.pid];
    AllocStoresNothing(e.i.pid, s, e.i.area, e.i.size);
    CarrySpares(y.m, s, e, slot, cell);
  }

  /** A read that completes returns the byte its cell holds. */
  lemma ReadPerformed(m: Machine, op: Op)
    requires Paging.Inv(m) && op.Read? && Legal(m, op) && Step(BySwapOffset, m, op).Ok?
    ensures Access(BySwapOffset, m, op.slot, PhysOffset(op.area, op.off), false, 0).Ok?
    ensures PR.ReadValue(BySwapOffset, m, op.slot, op.area, op.off) == Content(m, op.slot)[PhysOffset(op.area, op.off)]
  {
    PI.AccessKeeps(m, op.slot, PhysOffset(op.area, op.off), false, 0);
  }

  /** A read inside its region that completes returns the current value of its variable. */
  lemma ReadFetches(y: System, e: Event, y': System)
    requires Inv(y) && e.i.ReadVar? && e.done && Executes(y, e, y') && IsVar(y.spaces[e.i.pid], e.i.rgid, e.i.off)
    ensures HasVar(y, e.i.pid, e.i.rgid, e.i.off)
    ensures var op := ReadOp(e.i.pid, y.spaces[e.i.pid].syms[e.i.rgid], e.i.off);
            && Access(BySwapOffset, y.m, op.slot, PhysOffset(op.area, op.off), false, 0).Ok?
            && PR.ReadValue(BySwapOffset, y.m, op.slot, op.area, op.off) == VarByte(y, e.i.pid, e.i.rgid, e.i.off)
  {
    var op := ReadOp(e.i.pid, y.spaces[e.i.pid].syms[e.i.rgid], e.i.off);
    assert Ops(y.spaces[e.i.pid], e.i) == [op];
    PerformOne(BySwapOffset, y.m, op);
    ReadPerformed(y.m, op);
  }

  /** A covered access outside its region executes and changes nothing. */
  lemma RefusedChangesNothing(y: System, i: Instr)
    requires i.pid < |y.spaces| && Covered(y.spaces[i.pid], i) && IsAccess(i) && !IsVar(y.spaces[i.pid], i.rgid, i.off)
    ensures Executes(y, Event(i, true), y)
  {
    assert y.spaces[i.pid := y.spaces[i.pid]] == y.spaces;
  }

  lemma AccessStepIff(m: Machine, op: Op)
    requires Paging.Inv(m) && Legal(m, op) && (op.Read? || op.Write?)
    ensures Step(BySwapOffset, m, op).Ok? <==> m.table[op.slot].InRam? || (m.lru != [] && m.swapFree != [])
  {
    PL.AccessSucceedsIff(m, op.slot, PhysOffset(op.area, op.off), op.Write?, if op.Write? then op.value else 0);
  }

  /** A covered access inside its region completes exactly when its page is present, or when there is a page to evict
      and a swap frame to evict it to. */
  lemma AccessExecutesIff(y: System, i: Instr)
    requires Inv(y) && i.pid < |y.spaces| && Covered(y.spaces[i.pid], i) && IsAccess(i)
    requires IsVar(y.spaces[i.pid], i.rgid, i.off)
    ensures VarSlot(y.spaces[i.pid], i.pid, i.rgid, i.off) in y.m.table
    ensures (exists y' :: Executes(y, Event(i, true), y')) <==>
            (y.m.table[VarSlot(y.spaces[i.pid], i.pid, i.rgid, i.off)].InRam? || (y.m.lru != [] && y.m.swapFree != []))
  {
    var s := y.spaces[i.pid];
    var op := Ops(s, i)[0];
    assert Ops(s, i) == [op];
    PerformOne(BySwapOffset, y.m, op);
    AccessStepIff(y.m, op);
    if Step(BySwapOffset, y.m, op).Ok? {
      assert Executes(y, Event(i, true), System(y.spaces[i.pid := SpaceAfter(s, i)], Step(BySwapOffset, y.m, op).m));
    }
  }

  // ---------- Histories ----------

  ghost predicate Booted(y: System, vmemsz: nat) {
    PR.Booted(y.m) && forall p :: 0 <= p < |y.spaces| ==> y.spaces[p] == Fresh(if vmemsz >= 1 then vmemsz else 1)
  }

  ghost predicate Reaches(y0: System, h: seq<Event>, y: System)
    decreases |h|
  {
    if h == [] then y == y0
    else
      var n := |h| - 1;
      exists p :: Reaches(y0, h[..n], p) && Executes(p, h[n], y)
  }

  lemma BootedInv(y: System, vmemsz: nat)
    requires RS.GoodSize(vmemsz) && Booted(y, vmemsz)
    ensures Inv(y) && forall p :: 0 <= p < |y.spaces| ==> RS.HeapMapped(y.spaces[p])
  {
    PR.BootedInv(y.m);
    RS.FreshInv(vmemsz);
  }

  lemma {:induction false} ReachableInv(y0: System, vmemsz: nat, h: seq<Event>, y: System)
    requires RS.GoodSize(vmemsz) && Booted(y0, vmemsz) && Reaches(y0, h, y)
    ensures Inv(y) && |y.spaces| == |y0.spaces|
    decreases |h|
  {
    if h == [] {
      BootedInv(y, vmemsz);
    } else {
      var n := |h| - 1;
      var p :| Reaches(y0, h[..n], p) && Executes(p, h[n], y);
      ReachableInv(y0, vmemsz, h[..n], p);
      ExecutesKeepsInv(p, h[n], y);
    }
  }

  /** Memory works: over every history of covered instructions of any number of processes, with accesses that are
      refused and accesses that fail, a variable holds the byte last written to it since it was allocated. */
  lemma {:induction false} VariablesHold(
      y0: System, vmemsz: nat, h: seq<Event>, y: System, pid: nat, rgid: nat, off: nat)
    requires RS.GoodSize(vmemsz) && Booted(y0, vmemsz) && Reaches(y0, h, y) && pid < |y0.spaces|
    ensures Inv(y) && pid < |y.spaces|
    ensures LastStored(h, pid, rgid, off).Some? && IsVar(y.spaces[pid], rgid, off) ==>
              HasVar(y, pid, rgid, off) && Some(VarByte(y, pid, rgid, off)) == LastStored(h, pid, rgid, off)
    decreases |h|
  {
    ReachableInv(y0, vmemsz, h, y);
    if LastStored(h, pid, rgid, off).Some? && IsVar(y.spaces[pid], rgid, off) {
      var n := |h| - 1;
      var p :| Reaches(y0, h[..n], p) && Executes(p, h[n], y);
      ReachableInv(y0, vmemsz, h[..n], p);
      if Affects(h[n], pid, rgid, off) {
        WriteStores(p, h[n], y);
      } else {
        VariablesHold(y0, vmemsz, h[..n], p, pid, rgid, off);
        VarKept(p, h[n], y, pid, rgid, off);
        VarUndisturbed(p, h[n], y, pid, rgid, off);
      }
    }
  }

  /** Every heap growth of the history was clean. */
  ghost predicate CleanHistory(y0: System, h: seq<Event>, y: System)
    decreases |h|
  {
    if h == [] then y == y0
    else
      var n := |h| - 1;
      exists p :: CleanHistory(y0, h[..n], p) && Executes(p, h[n], y) && Clean(p.spaces[h[n].i.pid], h[n].i)
  }

  lemma CleanStep(y: System, e: Event, y': System)
    requires Inv(y) && Executes(y, e, y') && Clean(y.spaces[e.i.pid], e.i)
    requires forall p :: 0 <= p < |y.spaces| ==> RS.HeapMapped(y.spaces[p])
    ensures Inv(y') && forall p :: 0 <= p < |y'.spaces| ==> RS.HeapMapped(y'.spaces[p])
  {
    ExecutesKeepsInv(y, e, y');
    CleanKeepsMapped(y.spaces[e.i.pid], e.i);
  }

  /** In such a history every variable is on a mapped page, so every access that does not wrap is covered. */
  lemma {:induction false} CleanHistoriesStayMapped(y0: System, vmemsz: nat, h: seq<Event>, y: System)
    requires RS.GoodSize(vmemsz) && Booted(y0, vmemsz) && CleanHistory(y0, h, y)
    ensures Inv(y) && forall p :: 0 <= p < |y.spaces| ==> RS.HeapMapped(y.spaces[p])
    decreases |h|
  {
    if h == [] {
      BootedInv(y, vmemsz);
    } else {
      var n := |h| - 1;
      var p :| CleanHistory(y0, h[..n], p) && Executes(p, h[n], y) && Clean(p.spaces[h[n].i.pid], h[n].i);
      CleanHistoriesStayMapped(y0, vmemsz, h[..n], p);
      CleanStep(p, h[n], y);
    }
  }
}
