/**
The memory instructions of a process in place: `__alloc`, `__free`, `__read` and `__write` of src/mm-vm.c and their
dispatch in src/cpu.c, on the objects of `AddressSpace` and `MemoryUnit`. Each is the instruction of `System`.
*/
module Syscalls {
  import opened Options
  import opened LruSpec
  import opened Paging
  import PR = PagingRuns
  import opened MemoryUnit
  import opened RegionScan
  import opened Regions
  import RS = RegionSafety
  import opened AddressSpace
  import opened Instructions
  import opened SY = System
  import opened SystemLimits

  /** The operations on the pages of a reused region. */
  function RegionOps(pid: nat, a: Area, g: Region): seq<Op> {
    ReuseOps(pid, Lo(a, g) / PAGE_SIZE, Hi(a, g) / PAGE_SIZE, a)
  }

  /** The operations from number `k` on lead from `m` to `goal`. */
  ghost predicate LeadsTo(d: Decoder, m: Machine, ops: seq<Op>, k: nat, goal: Outcome) {
    k <= |ops| && Perform(d, m, ops[k..]) == goal && !goal.Undefined?
  }

  lemma RegionOpsAt(pid: nat, a: Area, g: Region)
    requires Oriented(a, g)
    ensures var ops, first, last := RegionOps(pid, a, g), g.start / PAGE_SIZE, g.end / PAGE_SIZE;
            && |ops| == 1 + (if a.Stack? then last - first else first - last) && (a.Heap? ==> |ops| <= first + 1)
            && forall k :: 0 <= k < |ops| ==> ops[k] == ReusePage(PageSlot(pid, first, k, a))
  {
    PageMonotone(Lo(a, g), Hi(a, g));
  }

  /** If the request makes the area grow, its pages have numbers from 0 on. */
  ghost predicate CanGrow(s: Space, a: Area, size: nat) {
    !Refuses(s, a, size) && NeedsGrowth(s, a, size) ==> CanMove(s, a, size)
  }

  /** What a request that no free region can serve does to memory. */
  ghost function Grown(m: Machine, pid: nat, s: Space, a: Area, size: nat): Outcome
    requires CanGrow(s, a, size)
  {
    if !Refuses(s, a, size) && NeedsGrowth(s, a, size)
    then Mapping(m, pid, FirstPage(s, a), PageCount(s, a, size), a) else Ok(m)
  }

  /** The address space once there is room at the break, or the attempt has failed. */
  ghost function WithRoom(s: Space, a: Area, size: nat, canMap: bool): Space {
    if Refuses(s, a, size) || !NeedsGrowth(s, a, size) then s else Limited(s, a, size, canMap)
  }

  lemma RoomMakesFresh(s: Space, a: Area, rgid: nat, size: nat, canMap: bool)
    requires size >= 2 && rgid < |s.syms|
    ensures var s1, res := WithRoom(s, a, size, canMap), AllocFresh(s, a, rgid, size, canMap);
            && (res.Refused? <==> Refuses(s, a, size) || (NeedsGrowth(s, a, size) && !canMap))
            && |s1.syms| == |s.syms|
            && (res.Refused? ==> res.s == s1)
            && (!res.Refused? ==>
                  && !OutOfAddresses(s1, a, size)
                  && res.s == SetSymbol(MoveBreak(s1, a, size), rgid, Symbol(a, AtBreak(s1, a, size))))
  {
  }

  /** What `__alloc` returns. */
  function AllocReturn(res: Regions.Result, r: Outcome): int {
    if res.Refused? then -1 else if r.Ok? then 0 else OUT_OF_SWAP
  }

  /** The unsigned test of an access is right about it. */
  ghost predicate TestRight(sym: Symbol, off: nat) {
    NoWrap(sym, off) && (sym.area.Heap? && Real(sym.region) ==> sym.region.end <= sym.region.start < WORD64 / 2)
  }

  lemma LimitsIgnoreFree(s: Space, a: Area, size: nat, free: seq<Region>)
    ensures var s1 := WithFree(s, a, free);
            && (Refuses(s1, a, size) <==> Refuses(s, a, size)) && FirstPage(s1, a) == FirstPage(s, a)
            && (NeedsGrowth(s1, a, size) <==> NeedsGrowth(s, a, size))
            && (NeedsGrowth(s, a, size) ==> PageCount(s1, a, size) == PageCount(s, a, size))
  {
    var s1 := WithFree(s, a, free);
    assert s1.vmemsz == s.vmemsz && s1.stackEnd == s.stackEnd && s1.heapEnd == s.heapEnd;
    assert Brk(s1, a) == Brk(s, a) && Target(s1, a, size) == Target(s, a, size);
  }

  /** The growth of a request does not depend on the free lists. */
  lemma GrownIgnoresFree(m: Machine, pid: nat, s: Space, a: Area, size: nat, free: seq<Region>)
    requires CanGrow(s, a, size)
    ensures var s1 := WithFree(s, a, free);
            CanGrow(s1, a, size) && Grown(m, pid, s1, a, size) == Grown(m, pid, s, a, size)
  {
    LimitsIgnoreFree(s, a, size, free);
  }

  /** It is the mapping `System` gives it. */
  lemma AllocOpsGrown(d: Decoder, m: Machine, pid: nat, s: Space, a: Area, size: nat)
    requires size >= 2 && AllOriented(a, Free(s, a)) && CanGrow(s, a, size)
    requires !Perform(d, m, AllocOps(pid, s, a, size)).Undefined?
    requires Search(a, size, Free(s, a)).found.None?
    ensures Perform(d, m, AllocOps(pid, s, a, size)) == Grown(m, pid, s, a, size)
  {
    if !Refuses(s, a, size) && NeedsGrowth(s, a, size) {
      GrowthIsMapping(d, m, pid, FirstPage(s, a), PageCount(s, a, size), a);
    }
  }

  /** What a covered allocation finds in place. */
  lemma AllocReady(m: Machine, s: Space, i: Instr)
    requires Paging.Inv(m) && Covered(s, i) && i.Allocate?
    ensures InRamBounds(m, m.ramFree) && AllOriented(i.area, Free(s, i.area))
    ensures Search(i.area, i.size, Free(s, i.area)).found.None? ==> CanGrow(s, i.area, i.size)
  {
    assert forall k :: 0 <= k < |m.ramFree| ==> m.ramFree[k] in m.ramFree;
    if Grows(s, i) {
      RS.GrowthPagesExist(s, i.area, i.size);
    }
  }

  /** A freed region has small addresses. */
  lemma FreeKeepsSmall(s: Space, rgid: nat)
    requires RS.Inv(s) && rgid < SYMBOLS && Small(s.stackFree) && Small(s.heapFree)
    ensures Small(FreeSymbol(s, rgid).stackFree) && Small(FreeSymbol(s, rgid).heapFree)
  {
    var sym := s.syms[rgid];
    if Real(sym.region) {
      assert RS.Live(s, rgid, sym.area);
      SmallCons(sym.region, Free(s, sym.area));
    }
  }

  lemma SmallCons(r: Region, free: seq<Region>)
    requires r.start < WORD64 / 2 && r.end < WORD64 / 2 && Small(free)
    ensures Small([r] + free)
  {
  }

  /** A covered access finds its range test right. */
  lemma AccessReady(m: Machine, s: Space, i: Instr)
    requires Covered(s, i) && IsAccess(i) && !Carry(BySwapOffset, m, s, i).Undefined?
    ensures TestRight(s.syms[i.rgid], i.off)
    ensures InRange(s.syms[i.rgid], i.off) ==>
              Carry(BySwapOffset, m, s, i) == AccessOf(BySwapOffset, m, Ops(s, i)[0])
  {
    var sym := s.syms[i.rgid];
    if Real(sym.region) { assert RS.Live(s, i.rgid, sym.area); }
    if InRange(sym, i.off) {
      assert Ops(s, i) == [Ops(s, i)[0]];
      PerformOne(BySwapOffset, m, Ops(s, i)[0]);
    }
  }

  /** The access a read or write operation makes. */
  function AccessOf(d: Decoder, m: Machine, op: Op): Outcome {
    if (op.Read? || op.Write?) && op.off < PAGE_SIZE
    then Access(d, m, op.slot, PhysOffset(op.area, op.off), op.Write?, if op.Write? then op.value else 0) else Undefined
  }

  /** The zeroing loop of `__free`, which goes on after a failed `pg_setval`. */
  ghost function ZeroRange(d: Decoder, m: Machine, pid: nat, a: Area, from: nat, upto: nat): PR.Reached
    decreases upto - from
  {
    if from >= upto then PR.At(m)
    else
      match Poke(d, m, SlotOf(pid, from), CellOf(a, from), 0)
      case Undefined => PR.Stuck
      case r => ZeroRange(d, r.m, pid, a, from + 1, upto)
  }

  /** On mapped pages it performs the operations `ZeroOps`. */
  lemma {:induction false} ZeroRangeIsOps(d: Decoder, m: Machine, pid: nat, a: Area, from: nat, upto: nat)
    requires !PerformAll(d, m, ZeroOps(pid, a, from, upto)).Undefined?
    ensures ZeroRange(d, m, pid, a, from, upto) == PR.At(PerformAll(d, m, ZeroOps(pid, a, from, upto)).m)
    decreases upto - from
  {
    if from < upto {
      assert ZeroOps(pid, a, from, upto)[1..] == ZeroOps(pid, a, from + 1, upto);
      ZeroRangeIsOps(d, Poke(d, m, SlotOf(pid, from), CellOf(a, from), 0).m, pid, a, from + 1, upto);
    }
  }

  /** A process: its number, its address space, and the memory it shares with the others. */
  class Pcb {
    const pid: nat
    const mm: Mm
    const mmu: Mmu

    constructor (pid: nat, mm: Mm, mmu: Mmu)
      ensures this.pid == pid && this.mm == mm && this.mmu == mmu
    {
      this.pid, this.mm, this.mmu := pid, mm, mmu;
    }

    // ---------- __alloc ----------

    /** Page number `k` of a reused region; `goal` is where all its pages lead. */
    method ReuseNext(slot: Slot, ghost ops: seq<Op>, ghost k: nat, ghost goal: Outcome) returns (ret: int)
      requires mmu.Valid() && k < |ops| && ops[k] == ReusePage(slot) && LeadsTo(mmu.decoder, mmu.m, ops, k, goal)
      modifies mmu, mmu.ram.storage, mmu.swap, mmu.swap.storage, mmu.lru, mmu.lru.Repr
      ensures mmu.Valid() && fresh(mmu.lru.Repr - old(mmu.lru.Repr))
      ensures if ret == 0 then LeadsTo(mmu.decoder, mmu.m, ops, k + 1, goal)
              else ret == OUT_OF_SWAP && !goal.Ok? && mmu.m == goal.m
    {
      assert ops[k..][0] == ops[k] && ops[k..][1..] == ops[k + 1..];
      ret := mmu.ReuseOne(slot);
    }

    /** `n` pages from `first` on, in the direction of the area. */
    method ReuseEach(a: Area, first: nat, n: nat, ghost ops: seq<Op>, ghost goal: Outcome) returns (ret: int)
      requires mmu.Valid() && |ops| == n && (a.Heap? ==> n <= first + 1)
      requires forall k :: 0 <= k < n ==> ops[k] == ReusePage(PageSlot(pid, first, k, a))
      requires LeadsTo(mmu.decoder, mmu.m, ops, 0, goal)
      modifies mmu, mmu.ram.storage, mmu.swap, mmu.swap.storage, mmu.lru, mmu.lru.Repr
      ensures mmu.Valid() && fresh(mmu.lru.Repr - old(mmu.lru.Repr))
      ensures if ret == 0 then LeadsTo(mmu.decoder, mmu.m, ops, n, goal)
              else ret == OUT_OF_SWAP && !goal.Ok? && mmu.m == goal.m
    {
      ret := 0;
      var k := 0;
      while k < n && ret == 0
        invariant 0 <= k <= n && mmu.Valid() && fresh(mmu.lru.Repr - old(mmu.lru.Repr))
        invariant if ret == 0 then LeadsTo(mmu.decoder, mmu.m, ops, k, goal)
                  else ret == OUT_OF_SWAP && !goal.Ok? && mmu.m == goal.m
      {
        ret := ReuseNext(PageSlot(pid, first, k, a), ops, k, goal);
        k := k + 1;
      }
    }

    /** The pages of a reused region come back to RAM and are touched, from its start on. */
    method ReusePages(a: Area, g: Region) returns (ret: int)
      requires mmu.Valid() && Oriented(a, g)
      requires !Perform(mmu.decoder, mmu.m, RegionOps(pid, a, g)).Undefined?
      modifies mmu, mmu.ram.storage, mmu.swap, mmu.swap.storage, mmu.lru, mmu.lru.Repr
      ensures mmu.Valid() && fresh(mmu.lru.Repr - old(mmu.lru.Repr))
      ensures var r := Perform(mmu.decoder, old(mmu.m), RegionOps(pid, a, g));
              mmu.m == r.m && ret == if r.Ok? then 0 else OUT_OF_SWAP
    {
      var first, last := g.start / PAGE_SIZE, g.end / PAGE_SIZE;
      ghost var ops := RegionOps(pid, a, g);
      RegionOpsAt(pid, a, g);
      assert ops[0..] == ops && ops[|ops|..] == [];
      ret := ReuseEach(a, first, if a.Stack? then last - first + 1 else first - last + 1, ops,
                       Perform(mmu.decoder, mmu.m, ops));
    }

    /** Room for a request that no free region can serve: there is some, the area grows, or there is none. */
    method MakeRoom(a: Area, size: nat) returns (ok: bool)
      requires size >= 2 && Ready(mmu)
      requires CanGrow(mm.State(), a, size) && !Grown(mmu.m, pid, mm.State(), a, size).Undefined?
      modifies mm, mmu, mmu.ram, mmu.swap, mmu.swap.storage, mmu.lru, mmu.lru.Repr
      ensures mmu.Valid() && fresh(mmu.lru.Repr - old(mmu.lru.Repr))
      ensures var s, r := old(mm.State()), Grown(old(mmu.m), pid, old(mm.State()), a, size);
              mmu.m == r.m && ok == (!Refuses(s, a, size) && r.Ok?) && mm.State() == WithRoom(s, a, size, r.Ok?)
    {
      if (if a.Stack? then mm.stackBrk + size > mm.vmemsz else mm.heapBrk - size < 0) {
        return false;
      }
      ok := true;
      if (if a.Stack? then mm.stackBrk + size > mm.stackEnd else mm.heapBrk - size < mm.heapEnd) {
        ok := mm.IncLimit(pid, mmu, a, size);
      }
    }

    /** A request that no free region can serve: out of addresses, refused, unmappable, or served at the break. */
    method AllocAtBreak(a: Area, rgid: nat, size: nat) returns (ret: int)
      requires size >= 2 && rgid < |mm.syms| && Ready(mmu)
      requires CanGrow(mm.State(), a, size) && !Grown(mmu.m, pid, mm.State(), a, size).Undefined?
      modifies mm, mmu, mmu.ram, mmu.swap, mmu.swap.storage, mmu.lru, mmu.lru.Repr
      ensures mmu.Valid() && fresh(mmu.lru.Repr - old(mmu.lru.Repr))
      ensures var r := Grown(old(mmu.m), pid, old(mm.State()), a, size);
              var res := AllocFresh(old(mm.State()), a, rgid, size, r.Ok?);
              mmu.m == r.m && mm.State() == res.s && ret == if res.Refused? then -1 else 0
    {
      RoomMakesFresh(mm.State(), a, rgid, size, Grown(mmu.m, pid, mm.State(), a, size).Ok?);
      var ok := MakeRoom(a, size);
      if !ok {
        return -1;
      }
      mm.TakeAtBreak(a, rgid, size);
      ret := 0;
    }

    /** `__alloc` after its search found region `g`; `s` is the address space before the search. */
    method ServeFound(a: Area, rgid: nat, size: nat, g: Region, ghost s: Space) returns (ret: int)
      requires size >= 2 && rgid < |mm.syms| && mmu.Valid() && AllOriented(a, Free(s, a)) && Oriented(a, g)
      requires var r := Search(a, size, Free(s, a)); mm.State() == WithFree(s, a, r.free) && r.found == Some(g)
      requires !Perform(mmu.decoder, mmu.m, AllocOps(pid, s, a, size)).Undefined?
      modifies mm, mmu, mmu.ram.storage, mmu.swap, mmu.swap.storage, mmu.lru, mmu.lru.Repr
      ensures mmu.Valid() && fresh(mmu.lru.Repr - old(mmu.lru.Repr))
      ensures var r := Perform(mmu.decoder, old(mmu.m), AllocOps(pid, s, a, size));
              var res := Alloc(s, a, rgid, size, r.Ok?);
              mmu.m == r.m && mm.State() == res.s && ret == AllocReturn(res, r)
    {
      mm.Assign(rgid, a, g);
      ret := ReusePages(a, g);
    }

    /** `__alloc` after its search found nothing. */
    method ServeFresh(a: Area, rgid: nat, size: nat, ghost s: Space) returns (ret: int)
      requires size >= 2 && rgid < |mm.syms| && Ready(mmu) && AllOriented(a, Free(s, a))
      requires Search(a, size, Free(s, a)).found.None? ==> CanGrow(s, a, size)
      requires var r := Search(a, size, Free(s, a)); mm.State() == WithFree(s, a, r.free) && r.found == None
      requires !Perform(mmu.decoder, mmu.m, AllocOps(pid, s, a, size)).Undefined?
      modifies mm, mmu, mmu.ram, mmu.swap, mmu.swap.storage, mmu.lru, mmu.lru.Repr
      ensures mmu.Valid() && fresh(mmu.lru.Repr - old(mmu.lru.Repr))
      ensures var r := Perform(mmu.decoder, old(mmu.m), AllocOps(pid, s, a, size));
              var res := Alloc(s, a, rgid, size, r.Ok?);
              mmu.m == r.m && mm.State() == res.s && ret == AllocReturn(res, r)
    {
      GrownIgnoresFree(mmu.m, pid, s, a, size, Free(mm.State(), a));
      AllocOpsGrown(mmu.decoder, mmu.m, pid, s, a, size);
      ret := AllocAtBreak(a, rgid, size);
    }

    /** `__alloc` after its search. */
    method Serve(a: Area, rgid: nat, size: nat, found: Option<Region>, ghost s: Space) returns (ret: int)
      requires size >= 2 && rgid < |mm.syms| && Ready(mmu) && AllOriented(a, Free(s, a))
      requires Search(a, size, Free(s, a)).found.None? ==> CanGrow(s, a, size)
      requires var r := Search(a, size, Free(s, a)); mm.State() == WithFree(s, a, r.free) && r.found == found
      requires found.Some? ==> Oriented(a, found.value)
      requires !Perform(mmu.decoder, mmu.m, AllocOps(pid, s, a, size)).Undefined?
      modifies mm, mmu, mmu.ram, mmu.ram.storage, mmu.swap, mmu.swap.storage, mmu.lru, mmu.lru.Repr
      ensures mmu.Valid() && fresh(mmu.lru.Repr - old(mmu.lru.Repr))
      ensures var r := Perform(mmu.decoder, old(mmu.m), AllocOps(pid, s, a, size));
              var res := Alloc(s, a, rgid, size, r.Ok?);
              mmu.m == r.m && mm.State() == res.s && ret == AllocReturn(res, r)
    {
      if found.Some? {
        ret := ServeFound(a, rgid, size, found.value, s);
      } else {
        ret := ServeFresh(a, rgid, size, s);
      }
    }

    /** `__alloc`: 0, -1 for a request that is refused, or -3000 for a region that cannot be brought back. */
    method AllocVariable(a: Area, rgid: nat, size: nat) returns (ret: int)
      requires 2 <= size <= WORD64 / 2 && rgid < |mm.syms| && Ready(mmu)
      requires AllOriented(a, Free(mm.State(), a)) && Small(Free(mm.State(), a))
      requires a.Heap? ==> NeverWraps(size, Scan(mm.heapFree, 0, None))
      requires Search(a, size, Free(mm.State(), a)).found.None? ==> CanGrow(mm.State(), a, size)
      requires !Perform(mmu.decoder, mmu.m, AllocOps(pid, mm.State(), a, size)).Undefined?
      modifies mm, mmu, mmu.ram, mmu.ram.storage, mmu.swap, mmu.swap.storage, mmu.lru, mmu.lru.Repr
      ensures mmu.Valid() && fresh(mmu.lru.Repr - old(mmu.lru.Repr))
      ensures var s := old(mm.State());
              var r := Perform(mmu.decoder, old(mmu.m), AllocOps(pid, s, a, size));
              var res := Alloc(s, a, rgid, size, r.Ok?);
              mmu.m == r.m && mm.State() == res.s && ret == AllocReturn(res, r)
      ensures Small(Search(a, size, Free(old(mm.State()), a)).free)
    {
      ghost var s := mm.State();
      var found := mm.GetFreeRegion(a, size);
      ret := Serve(a, rgid, size, found, s);
    }

    // ---------- __free ----------

    /** One store of the zeroing loop; a failure goes unnoticed. */
    method ZeroNext(a: Area, addr: nat, ghost upto: nat)
      requires mmu.Valid() && addr < upto && ZeroRange(mmu.decoder, mmu.m, pid, a, addr, upto).At?
      modifies mmu, mmu.ram, mmu.ram.storage, mmu.swap, mmu.swap.storage, mmu.lru, mmu.lru.Repr
      ensures mmu.Valid() && fresh(mmu.lru.Repr - old(mmu.lru.Repr))
      ensures ZeroRange(mmu.decoder, mmu.m, pid, a, addr + 1, upto)
              == ZeroRange(mmu.decoder, old(mmu.m), pid, a, addr, upto)
    {
      var _ := mmu.SetValue(SlotOf(pid, addr), a, addr % PAGE_SIZE, 0);
    }

    /** All bytes of a stack region but the last are set to zero, and none of a heap region. */
    method ZeroBytes(a: Area, r: Region)
      requires mmu.Valid() && ZeroRange(mmu.decoder, mmu.m, pid, a, r.start, r.end).At?
      modifies mmu, mmu.ram, mmu.ram.storage, mmu.swap, mmu.swap.storage, mmu.lru, mmu.lru.Repr
      ensures mmu.Valid() && fresh(mmu.lru.Repr - old(mmu.lru.Repr))
      ensures PR.At(mmu.m) == ZeroRange(mmu.decoder, old(mmu.m), pid, a, r.start, r.end)
    {
      var addr := r.start;
      while addr < r.end
        invariant mmu.Valid() && fresh(mmu.lru.Repr - old(mmu.lru.Repr)) && r.start <= addr
        invariant ZeroRange(mmu.decoder, mmu.m, pid, a, addr, r.end)
                  == ZeroRange(mmu.decoder, old(mmu.m), pid, a, r.start, r.end)
      {
        ZeroNext(a, addr, r.end);
        addr := addr + 1;
      }
    }

    /** `__free`: -1 for a symbol that names nothing. */
    method FreeVariable(rgid: nat) returns (ret: int)
      requires mmu.Valid() && rgid < |mm.syms|
      requires var sym := mm.syms[rgid];
               ZeroRange(mmu.decoder, mmu.m, pid, sym.area, sym.region.start, sym.region.end).At?
      modifies mm, mmu, mmu.ram, mmu.ram.storage, mmu.swap, mmu.swap.storage, mmu.lru, mmu.lru.Repr
      ensures mmu.Valid() && fresh(mmu.lru.Repr - old(mmu.lru.Repr))
      ensures var sym := old(mm.syms)[rgid];
              && PR.At(mmu.m) == ZeroRange(mmu.decoder, old(mmu.m), pid, sym.area, sym.region.start, sym.region.end)
              && mm.State() == FreeSymbol(old(mm.State()), rgid) && ret == if Real(sym.region) then 0 else -1
    {
      var sym := mm.syms[rgid];
      if sym.region.start == sym.region.end {
        return -1;
      }
      ZeroBytes(sym.area, sym.region);
      mm.Release(rgid);
      ret := 0;
    }

    // ---------- __read and __write ----------

    /** `__read`: -1 outside the region, otherwise 0. */
    method ReadVariable(rgid: nat, off: nat) returns (ret: int, data: Byte)
      requires mmu.Valid() && rgid < |mm.syms| && TestRight(mm.syms[rgid], off)
      requires InRange(mm.syms[rgid], off) ==> !AccessOf(mmu.decoder, mmu.m, ReadOp(pid, mm.syms[rgid], off)).Undefined?
      modifies mmu, mmu.ram, mmu.ram.storage, mmu.swap, mmu.swap.storage, mmu.lru, mmu.lru.Repr
      ensures mmu.Valid() && fresh(mmu.lru.Repr - old(mmu.lru.Repr))
      ensures if !InRange(mm.syms[rgid], off) then ret == -1 && mmu.m == old(mmu.m)
              else
                var op := ReadOp(pid, mm.syms[rgid], off);
                var r := AccessOf(mmu.decoder, old(mmu.m), op);
                && ret == 0 && mmu.m == r.m
                && (r.Ok? ==> data == PR.ReadValue(mmu.decoder, old(mmu.m), op.slot, op.area, op.off))
    {
      var x := Translate(mm.syms[rgid], off);
      if x.None? {
        return -1, 0;
      }
      ret, data := mmu.ReadByte(SlotOf(pid, x.value), mm.syms[rgid].area, x.value % PAGE_SIZE);
    }

    /** `__write`: -1 outside the region, otherwise 0. */
    method WriteVariable(rgid: nat, off: nat, value: Byte) returns (ret: int)
      requires mmu.Valid() && rgid < |mm.syms| && TestRight(mm.syms[rgid], off)
      requires InRange(mm.syms[rgid], off) ==>
                 !AccessOf(mmu.decoder, mmu.m, WriteOp(pid, mm.syms[rgid], off, value)).Undefined?
      modifies mmu, mmu.ram, mmu.ram.storage, mmu.swap, mmu.swap.storage, mmu.lru, mmu.lru.Repr
      ensures mmu.Valid() && fresh(mmu.lru.Repr - old(mmu.lru.Repr))
      ensures if !InRange(mm.syms[rgid], off) then ret == -1 && mmu.m == old(mmu.m)
              else ret == 0 && mmu.m == AccessOf(mmu.decoder, old(mmu.m), WriteOp(pid, mm.syms[rgid], off, value)).m
    {
      var x := Translate(mm.syms[rgid], off);
      if x.None? {
        return -1;
      }
      ret := mmu.WriteByte(SlotOf(pid, x.value), mm.syms[rgid].area, x.value % PAGE_SIZE, value);
    }

    /** The range test, on unsigned words in the heap, and the address. */
    static method Translate(sym: Symbol, off: nat) returns (x: Option<nat>)
      requires TestRight(sym, off)
      ensures x == if InRange(sym, off) then Some(Address(sym, off)) else None
    {
      if sym.region.start == sym.region.end {
        return None;
      }
      if sym.area.Stack? {
        x := if sym.region.start + off > sym.region.end then None else Some(sym.region.start + off);
      } else {
        HeapRangeTestIff(sym.region, off);
        x := if (sym.region.start - off) % WORD64 < sym.region.end then None else Some(sym.region.start - off);
      }
    }

    // ---------- Instructions ----------

    /** This process and the memory are those of system `y`. */
    ghost predicate Represents(y: System)
      reads mm, mmu
    {
      pid < |y.spaces| && y.spaces[pid] == mm.State() && y.m == mmu.m
    }

    /** Memory is in order and between requests, entries are read as they were written, and addresses are small. */
    ghost predicate InOrder()
      reads mm, mmu, mmu.ram, mmu.ram.storage, mmu.swap, mmu.swap.storage, mmu.lru, mmu.lru.Repr
    {
      mmu.Valid() && mmu.decoder.BySwapOffset? && mmu.m.pending == [] && Small(mm.stackFree) && Small(mm.heapFree)
    }

    /** This process can execute instruction `i` of system `y` as `System` covers it. */
    ghost predicate CanExecute(i: Instr, y: System)
      reads mm, mmu, mmu.ram, mmu.ram.storage, mmu.swap, mmu.swap.storage, mmu.lru, mmu.lru.Repr
    {
      && InOrder() && SY.Inv(y) && Represents(y) && i.pid == pid && Covered(y.spaces[pid], i)
      && var s := y.spaces[pid];
         var r := Carry(BySwapOffset, y.m, s, i);
         !r.Undefined? && (Grows(s, i) ==> r.Ok?) && (i.Allocate? ==> i.size < 0x8000_0000)
    }

    /** The instruction has been executed: memory and address space are what `System` makes of them. */
    ghost predicate Executed(i: Instr, y: System)
      requires i.pid < |y.spaces| && Covered(y.spaces[i.pid], i)
      reads mm, mmu, mmu.ram, mmu.ram.storage, mmu.swap, mmu.swap.storage, mmu.lru, mmu.lru.Repr
    {
      && InOrder()
      && Executes(y, Event(i, Carry(BySwapOffset, y.m, y.spaces[i.pid], i).Ok?),
                  System(y.spaces[i.pid := mm.State()], mmu.m))
    }

    /** ALLOC and MALLOC. */
    method ExecuteAlloc(i: Instr, ghost y: System) returns (ret: int)
      requires CanExecute(i, y) && i.Allocate?
      modifies mm, mmu, mmu.ram, mmu.ram.storage, mmu.swap, mmu.swap.storage, mmu.lru, mmu.lru.Repr
      ensures Executed(i, y) && fresh(mmu.lru.Repr - old(mmu.lru.Repr))
    {
      AllocReady(y.m, y.spaces[pid], i);
      CarryKeepsPending(y.m, y.spaces[pid], i);
      ret := AllocVariable(i.area, i.rgid, i.size);
    }

    /** FREE. */
    method ExecuteFree(i: Instr, ghost y: System) returns (ret: int)
      requires CanExecute(i, y) && i.Release?
      modifies mm, mmu, mmu.ram, mmu.ram.storage, mmu.swap, mmu.swap.storage, mmu.lru, mmu.lru.Repr
      ensures Executed(i, y) && fresh(mmu.lru.Repr - old(mmu.lru.Repr))
    {
      ghost var sym := y.spaces[pid].syms[i.rgid];
      ZeroRangeIsOps(BySwapOffset, y.m, pid, sym.area, sym.region.start, sym.region.end);
      FreeKeepsSmall(y.spaces[pid], i.rgid);
      CarryKeepsPending(y.m, y.spaces[pid], i);
      ret := FreeVariable(i.rgid);
    }

    /** READ. */
    method ExecuteRead(i: Instr, ghost y: System) returns (ret: int, data: Byte)
      requires CanExecute(i, y) && i.ReadVar?
      modifies mm, mmu, mmu.ram, mmu.ram.storage, mmu.swap, mmu.swap.storage, mmu.lru, mmu.lru.Repr
      ensures Executed(i, y) && fresh(mmu.lru.Repr - old(mmu.lru.Repr))
      ensures ret == if IsVar(y.spaces[pid], i.rgid, i.off) then 0 else -1
      ensures IsVar(y.spaces[pid], i.rgid, i.off) && Carry(BySwapOffset, y.m, y.spaces[pid], i).Ok? ==>
                HasVar(y, pid, i.rgid, i.off) && data == VarByte(y, pid, i.rgid, i.off)
    {
      AccessReady(y.m, y.spaces[pid], i);
      CarryKeepsPending(y.m, y.spaces[pid], i);
      ghost var r := Carry(BySwapOffset, y.m, y.spaces[pid], i);
      if IsVar(y.spaces[pid], i.rgid, i.off) && r.Ok? {
        ReadFetches(y, Event(i, true), System(y.spaces[pid := SpaceAfter(y.spaces[pid], i)], r.m));
      }
      ret, data := ReadVariable(i.rgid, i.off);
    }

    /** WRITE. */
    method ExecuteWrite(i: Instr, ghost y: System) returns (ret: int)
      requires CanExecute(i, y) && i.WriteVar?
      modifies mm, mmu, mmu.ram, mmu.ram.storage, mmu.swap, mmu.swap.storage, mmu.lru, mmu.lru.Repr
      ensures Executed(i, y) && fresh(mmu.lru.Repr - old(mmu.lru.Repr))
      ensures ret == if IsVar(y.spaces[pid], i.rgid, i.off) then 0 else -1
    {
      AccessReady(y.m, y.spaces[pid], i);
      CarryKeepsPending(y.m, y.spaces[pid], i);
      ret := WriteVariable(i.rgid, i.off, i.value);
    }

    /** The memory instructions of `run`: a covered instruction does in place what it does in `System`, also if it is
        refused or runs out of swap space, and a read that completes returns the current byte of its variable. */
    method Execute(i: Instr, ghost y: System) returns (ret: int, data: Byte)
      requires CanExecute(i, y)
      modifies mm, mmu, mmu.ram, mmu.ram.storage, mmu.swap, mmu.swap.storage, mmu.lru, mmu.lru.Repr
      ensures Executed(i, y) && fresh(mmu.lru.Repr - old(mmu.lru.Repr))
      ensures IsAccess(i) ==> ret == if IsVar(y.spaces[pid], i.rgid, i.off) then 0 else -1
      ensures i.ReadVar? && ret == 0 && Carry(BySwapOffset, y.m, y.spaces[pid], i).Ok? ==>
                HasVar(y, pid, i.rgid, i.off) && data == VarByte(y, pid, i.rgid, i.off)
    {
      data := 0;
      match i
      case Allocate(_, _, _, _) => ret := ExecuteAlloc(i, y);
      case Release(_, _) => ret := ExecuteFree(i, y);
      case ReadVar(_, _, _) => ret, data := ExecuteRead(i, y);
      case WriteVar(_, _, _, _) => ret := ExecuteWrite(i, y);
    }
  }
}
