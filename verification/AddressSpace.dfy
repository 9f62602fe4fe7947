/** The areas of an address space in src/mm-vm.c, with their free lists, updated in place. It implements `Regions`. */
module AddressSpace {
  import opened Options
  import opened Paging
  import opened RegionScan
  import opened Regions
  import opened PagingLimits
  import opened MemoryUnit

  /** Addresses far from the top of the 64-bit range. */
  ghost predicate Small(free: seq<Region>) {
    forall i :: 0 <= i < |free| ==> free[i].start < WORD64 / 2 && free[i].end < WORD64 / 2
  }

  /** A growth is needed, and its pages have numbers from 0 on. */
  ghost predicate CanMove(s: Space, a: Area, size: nat) {
    && !OutOfAddresses(s, a, size) && NeedsGrowth(s, a, size)
    && FirstPage(s, a) >= 0 && (a.Heap? ==> PageCount(s, a, size) <= FirstPage(s, a) + 1)
  }

  /** The address space after a growth that was let through. */
  ghost function Limited(s: Space, a: Area, size: nat, ok: bool): Space
    requires !OutOfAddresses(s, a, size)
  {
    if ok then Grow(s, a, size) else WithEnd(s, a, FailedEnd(s, a, size))
  }

  /** What follows the mapping of the pages, on the limit already moved. */
  ghost function Settled(s: Space, a: Area, size: nat, first: int, n: nat, ok: bool): Space {
    if ok then s.(mapped := s.mapped + PagesOf(first, n, a))
    else if a.Stack? then s.(stackEnd := s.stackEnd - size)
    else s.(heapEnd := s.heapEnd + size)
  }

  lemma GrowthSettles(s: Space, a: Area, size: nat)
    requires CanMove(s, a, size)
    ensures var moved := WithEnd(s, a, GrownEnd(s, a, size));
            forall ok :: Settled(moved, a, size, FirstPage(s, a), PageCount(s, a, size), ok) == Limited(s, a, size, ok)
  {
  }

  /** Memory between requests. */
  ghost predicate Ready(mmu: Mmu)
    reads mmu, mmu.ram, mmu.ram.storage, mmu.swap, mmu.swap.storage, mmu.lru, mmu.lru.Repr
  {
    mmu.Valid() && mmu.m.pending == [] && InRamBounds(mmu.m, mmu.m.ramFree)
  }

  class Mm {
    const vmemsz: nat
    var stackEnd: int
    var stackBrk: nat
    var heapEnd: int
    var heapBrk: nat
    var stackFree: seq<Region>
    var heapFree: seq<Region>
    var syms: seq<Symbol>
    ghost var mapped: set<nat>  // the pages of `pgd` that this address space has had mapped

    ghost function State(): Space
      reads this
    {
      Space(vmemsz, stackEnd, stackBrk, heapEnd, heapBrk, stackFree, heapFree, syms, mapped)
    }

    /** `init_mm`, with `pgd` and the symbol table zeroed. */
    constructor (vmemsz: nat)
      requires vmemsz >= 1
      ensures State() == Fresh(vmemsz)
    {
      this.vmemsz := vmemsz;
      stackEnd, stackBrk, heapEnd, heapBrk := 0, 0, vmemsz - 1, vmemsz - 1;
      stackFree, heapFree := [Region(0, 0)], [Region(vmemsz - 1, vmemsz - 1)];
      syms, mapped := seq(SYMBOLS, _ => Symbol(Stack, Region(0, 0))), {};
    }

    /** `get_free_vmrg_area`: the search goes on after a fit and reports the chunk it carved last. */
    method GetFreeRegion(a: Area, size: nat) returns (found: Option<Region>)
      requires 2 <= size <= WORD64 / 2 && AllOriented(a, Free(State(), a))
      requires Small(Free(State(), a))
      requires a.Heap? ==> NeverWraps(size, Scan(heapFree, 0, None))
      modifies this
      ensures var r := Search(a, size, old(Free(State(), a)));
              State() == WithFree(old(State()), a, r.free) && found == r.found && Small(r.free)
      ensures found.Some? ==> Oriented(a, found.value)
    {
      FoundOriented(a, size, Scan(Free(State(), a), 0, None));
      ghost var goal := Search(a, size, Free(State(), a));
      var free, it := if a.Stack? then stackFree else heapFree, 0;
      found := None;
      while it < |free|
        invariant State() == old(State()) && 0 <= it <= |free| && AllOriented(a, free)
        invariant Small(free)
        invariant a.Heap? ==> NeverWraps(size, Scan(free, it, found))
        invariant Finish(a, size, Scan(free, it, found)) == goal
        decreases Measure(a, free[it..])
      {
        ghost var s := Scan(free, it, found);
        NextShrinks(a, size, s);
        if a.Heap? { NextWrappingIff(size, s); }
        free, it, found := Carve(a, size, free, it, found);
      }
      if a.Stack? { stackFree := free; } else { heapFree := free; }
    }

    /** One iteration of that search. */
    static method Carve(a: Area, size: nat, free: seq<Region>, it: nat, found: Option<Region>)
      returns (free': seq<Region>, it': nat, found': Option<Region>)
      requires 2 <= size <= WORD64 / 2 && it < |free| && AllOriented(a, free)
      requires Small(free)
      requires a.Heap? ==> NextWrapping(size, Scan(free, it, found)) == Next(a, size, Scan(free, it, found))
      ensures Scan(free', it', found') == Next(a, size, Scan(free, it, found))
      ensures Small(free')
    {
      var r := free[it];
      free', it', found' := free, it, found;
      var fits := if a.Stack? then r.start + size - 1 <= r.end else (r.start - size + 1) % WORD64 >= r.end;
      if !fits {
        it' := it + 1;
      } else {
        var c := Region(r.start, if a.Stack? then r.start + size - 1 else (r.start - size + 1) % WORD64);
        found' := Some(c);
        if c.end != r.end {
          free' := free[it := Region(if a.Stack? then r.start + size else (r.start - size) % WORD64, r.end)];
        } else if it + 1 < |free| {
          free' := free[..it] + free[it + 1..];
        } else {
          free' := free[it := Region(r.end, r.end)];
        }
      }
    }

    /** `validate_overlap_vm_area`, against the only other area. */
    method Validate(a: Area, from: int, target: int) returns (ok: bool)
      ensures ok <==> !Overlaps(State(), a, from, target)
    {
      var start, end := if a.Stack? then vmemsz - 1 else 0, if a.Stack? then heapEnd else stackEnd;
      if start == end {
        return true;
      }
      var product := Wrap32((start - from) * (target - end));
      ok := product < 0 || target == end;
    }

    /** The limit after a growth by `size`, and the pages that growth asks for. */
    method MoveLimit(a: Area, size: nat) returns (first: int, n: nat)
      requires !OutOfAddresses(State(), a, size) && NeedsGrowth(State(), a, size)
      modifies this
      ensures State() == WithEnd(old(State()), a, GrownEnd(old(State()), a, size))
      ensures first == FirstPage(old(State()), a) && n == PageCount(old(State()), a, size)
    {
      var target := if a.Stack? then stackBrk + size else heapBrk - size;
      n := Align(if a.Stack? then target - stackEnd else heapEnd - target) / PAGE_SIZE;
      first := if a.Stack? then stackEnd / PAGE_SIZE
               else if heapEnd == vmemsz - 1 then heapEnd / PAGE_SIZE else (heapEnd - 1) / PAGE_SIZE;
      if a.Stack? { stackEnd := Align(target); } else { heapEnd := Align(target) - PAGE_SIZE; }
    }

    /** The end of a growth: its pages are noted as mapped, or the limit moves back by the request. */
    method Settle(a: Area, size: nat, first: int, n: nat, ok: bool)
      modifies this
      ensures State() == Settled(old(State()), a, size, first, n, ok)
    {
      if ok {
        mapped := mapped + PagesOf(first, n, a);
      } else if a.Stack? {
        stackEnd := stackEnd - size;
      } else {
        heapEnd := heapEnd + size;
      }
    }

    /** The part of `inc_vma_limit` after the overlap test. */
    method GrowLimit(pid: nat, mmu: Mmu, a: Area, size: nat) returns (ok: bool)
      requires Ready(mmu) && CanMove(State(), a, size)
      requires !Mapping(mmu.m, pid, FirstPage(State(), a), PageCount(State(), a, size), a).Undefined?
      modifies this, mmu, mmu.ram, mmu.swap, mmu.swap.storage, mmu.lru, mmu.lru.Repr
      ensures mmu.Valid() && fresh(mmu.lru.Repr - old(mmu.lru.Repr))
      ensures var s := old(State());
              var r := Mapping(old(mmu.m), pid, FirstPage(s, a), PageCount(s, a, size), a);
              ok == r.Ok? && mmu.m == r.m && State() == Limited(s, a, size, ok)
    {
      GrowthSettles(State(), a, size);
      var first, n := MoveLimit(a, size);
      var ret := mmu.MapRam(pid, first, n, a);
      ok := ret == 0;
      Settle(a, size, first, n, ok);
    }

    /** `inc_vma_limit`: the limit moves and the pages are mapped; if they cannot be, the limit moves back by `size`. */
    method IncLimit(pid: nat, mmu: Mmu, a: Area, size: nat) returns (ok: bool)
      requires Ready(mmu) && !OutOfAddresses(State(), a, size) && NeedsGrowth(State(), a, size)
      requires !Overlaps(State(), a, Brk(State(), a), Target(State(), a, size)) ==>
                 && CanMove(State(), a, size)
                 && !Mapping(mmu.m, pid, FirstPage(State(), a), PageCount(State(), a, size), a).Undefined?
      modifies this, mmu, mmu.ram, mmu.swap, mmu.swap.storage, mmu.lru, mmu.lru.Repr
      ensures mmu.Valid() && fresh(mmu.lru.Repr - old(mmu.lru.Repr))
      ensures var s, m := old(State()), old(mmu.m);
              if Overlaps(s, a, Brk(s, a), Target(s, a, size)) then !ok && State() == s && mmu.m == m
              else
                var r := Mapping(m, pid, FirstPage(s, a), PageCount(s, a, size), a);
                ok == r.Ok? && mmu.m == r.m && State() == Limited(s, a, size, ok)
    {
      ok := Validate(a, if a.Stack? then stackBrk else heapBrk, if a.Stack? then stackBrk + size else heapBrk - size);
      if ok {
        ok := GrowLimit(pid, mmu, a, size);
      }
    }

    /** A symbol-table entry. */
    method Assign(rgid: nat, a: Area, r: Region)
      requires rgid < |syms|
      modifies this
      ensures State() == SetSymbol(old(State()), rgid, Symbol(a, r))
    {
      syms := syms[rgid := Symbol(a, r)];
    }

    /** The end of `__alloc`: the symbol gets the region at the break, and the break moves past it. */
    method TakeAtBreak(a: Area, rgid: nat, size: nat)
      requires size >= 1 && rgid < |syms| && !OutOfAddresses(State(), a, size)
      modifies this
      ensures var s := old(State());
              State() == SetSymbol(MoveBreak(s, a, size), rgid, Symbol(a, AtBreak(s, a, size)))
    {
      if a.Stack? {
        syms := syms[rgid := Symbol(a, Region(stackBrk, stackBrk + size - 1))];
        stackBrk := stackBrk + size;
      } else if heapBrk == vmemsz - 1 {
        syms := syms[rgid := Symbol(a, Region(heapBrk, heapBrk + 1 - size))];
        heapBrk := heapBrk + 1 - size;
      } else {
        syms := syms[rgid := Symbol(a, Region(heapBrk - 1, heapBrk - size))];
        heapBrk := heapBrk - size;
      }
    }

    /** The end of `__free`: the symbol is cleared and its region goes to the head of the free list of its area,
        unless it is the wrong way round. */
    method Release(rgid: nat)
      requires rgid < |syms| && Real(syms[rgid].region)
      modifies this
      ensures State() == FreeSymbol(old(State()), rgid)
    {
      var sym := syms[rgid];
      syms := syms[rgid := Symbol(sym.area, Region(0, 0))];
      if sym.area.Stack? {
        if sym.region.start < sym.region.end { stackFree := [sym.region] + stackFree; }
      } else {
        if sym.region.start > sym.region.end { heapFree := [sym.region] + heapFree; }
      }
    }
  }
}
