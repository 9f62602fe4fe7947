/**
The address space of one process (src/mm-vm.c): a stack area growing up from 0, a heap area growing
down from the top, their free lists and the symbol table. Frames are the business of `Paging`;
here only the page numbers a growth maps matter.
*/
module Regions {
  import opened Options
  import opened Paging
  import opened RegionScan

  const SYMBOLS: nat := 30

  /** A symbol-table entry; one whose region is not `Real` names nothing. */
  datatype Symbol = Symbol(area: Area, region: Region)

  /** `end` and `brk` are `vm_end` and `sbrk` of each area; `mapped` the pages mapped so far. */
  datatype Space = Space(
    vmemsz: nat,
    stackEnd: int, stackBrk: nat, heapEnd: int, heapBrk: nat,
    stackFree: seq<Region>, heapFree: seq<Region>,
    syms: seq<Symbol>, mapped: set<nat>)

  /** `init_mm`, with the symbol table zeroed. */
  function Fresh(vmemsz: nat): Space
    requires vmemsz >= 1
  {
    Space(vmemsz, 0, 0, vmemsz - 1, vmemsz - 1,
          [Region(0, 0)], [Region(vmemsz - 1, vmemsz - 1)],
          seq(SYMBOLS, _ => Symbol(Stack, Region(0, 0))), {})
  }

  function Brk(s: Space, a: Area): nat { if a.Stack? then s.stackBrk else s.heapBrk }
  function Free(s: Space, a: Area): seq<Region> { if a.Stack? then s.stackFree else s.heapFree }
  function WithFree(s: Space, a: Area, free: seq<Region>): Space {
    if a.Stack? then s.(stackFree := free) else s.(heapFree := free)
  }
  function WithEnd(s: Space, a: Area, end: int): Space {
    if a.Stack? then s.(stackEnd := end) else s.(heapEnd := end)
  }

  /** `PAGING_PAGE_ALIGNSZ`. */
  function Align(x: nat): (r: nat)
    ensures r % PAGE_SIZE == 0 && x <= r < x + PAGE_SIZE
  {
    (x + PAGE_SIZE - 1) / PAGE_SIZE * PAGE_SIZE
  }

  // ---------- Growth ----------

  /** A 32-bit product as C computes it on two's-complement machines. */
  function Wrap32(x: int): int {
    (x + 0x8000_0000) % 0x1_0000_0000 - 0x8000_0000
  }

  /** `validate_overlap_vm_area` for a new range from `from` to `to`, against the other area. */
  predicate Overlaps(s: Space, a: Area, from: int, to: int) {
    var start := if a.Stack? then s.vmemsz - 1 else 0;
    var end := if a.Stack? then s.heapEnd else s.stackEnd;
    start != end && Wrap32((start - from) * (to - end)) >= 0 && to != end
  }

  /** The far end of the range a growth by `size` asks for. */
  function Target(s: Space, a: Area, size: nat): int {
    if a.Stack? then s.stackBrk + size else s.heapBrk - size
  }

  predicate OutOfAddresses(s: Space, a: Area, size: nat) {
    if a.Stack? then s.stackBrk + size > s.vmemsz else s.heapBrk - size < 0
  }

  predicate NeedsGrowth(s: Space, a: Area, size: nat) {
    if a.Stack? then Target(s, a, size) > s.stackEnd else Target(s, a, size) < s.heapEnd
  }

  /** `vm_end` after a growth. */
  function GrownEnd(s: Space, a: Area, size: nat): int
    requires !OutOfAddresses(s, a, size)
  {
    if a.Stack? then Align(Target(s, a, size)) else Align(Target(s, a, size)) - PAGE_SIZE
  }

  /** `vm_end` after a growth whose pages could not be mapped: moved back by the request, not to where it was. */
  function FailedEnd(s: Space, a: Area, size: nat): int
    requires !OutOfAddresses(s, a, size)
  {
    if a.Stack? then GrownEnd(s, a, size) - size else GrownEnd(s, a, size) + size
  }

  /** How many pages a growth maps. */
  function PageCount(s: Space, a: Area, size: nat): nat
    requires NeedsGrowth(s, a, size)
  {
    Align(if a.Stack? then Target(s, a, size) - s.stackEnd else s.heapEnd - Target(s, a, size)) / PAGE_SIZE
  }

  /** The first of them; the others follow upwards in the stack, downwards in the heap. */
  function FirstPage(s: Space, a: Area): int {
    if a.Stack? then s.stackEnd / PAGE_SIZE
    else if s.heapEnd == s.vmemsz - 1 then s.heapEnd / PAGE_SIZE
    else (s.heapEnd - 1) / PAGE_SIZE
  }

  /** The `n` pages from `first` on, in the direction of the area. */
  function PagesOf(first: int, n: nat, a: Area): (r: set<nat>)
    ensures forall p: nat :: p in r <==> if a.Stack? then first <= p < first + n else first - n < p <= first
  {
    if n == 0 then {}
    else
      var last := if a.Stack? then first + n - 1 else first - n + 1;
      PagesOf(first, n - 1, a) + if last >= 0 then {last} else {}
  }

  /** The same pages in the order in which `vmap_page_range` maps them: the last one first. */
  function PageList(first: int, n: nat, a: Area): (r: seq<nat>)
    ensures forall p: nat :: p in r <==> p in PagesOf(first, n, a)
  {
    if n == 0 then []
    else
      var last := if a.Stack? then first + n - 1 else first - n + 1;
      (if last >= 0 then [last] else []) + PageList(first, n - 1, a)
  }

  /** The pages `vmap_page_range` maps for a growth. */
  function GrowthPages(s: Space, a: Area, size: nat): set<nat>
    requires NeedsGrowth(s, a, size)
  {
    PagesOf(FirstPage(s, a), PageCount(s, a, size), a)
  }

  // ---------- Allocation ----------

  /** The region a request gets at the break. */
  function AtBreak(s: Space, a: Area, size: nat): Region
    requires size >= 1 && !OutOfAddresses(s, a, size)
  {
    if a.Stack? then Region(s.stackBrk, s.stackBrk + size - 1)
    else if s.heapBrk == s.vmemsz - 1 then Region(s.heapBrk, s.heapBrk + 1 - size)
    else Region(s.heapBrk - 1, s.heapBrk - size)
  }

  function MoveBreak(s: Space, a: Area, size: nat): Space
    requires size >= 1 && !OutOfAddresses(s, a, size)
  {
    if a.Stack? then s.(stackBrk := s.stackBrk + size)
    else if s.heapBrk == s.vmemsz - 1 then s.(heapBrk := s.heapBrk + 1 - size)
    else s.(heapBrk := s.heapBrk - size)
  }

  /** How `__alloc` ends: with a reused region, with one at the break, or not at all. */
  datatype Result = Reused(s: Space, r: Region) | AtBrk(s: Space, r: Region) | Refused(s: Space)

  function SetSymbol(s: Space, rgid: nat, sym: Symbol): Space
    requires rgid < |s.syms|
  {
    s.(syms := s.syms[rgid := sym])
  }

  /** Is the request refused before any limit moves? */
  predicate Refuses(s: Space, a: Area, size: nat) {
    OutOfAddresses(s, a, size) || (NeedsGrowth(s, a, size) && Overlaps(s, a, Brk(s, a), Target(s, a, size)))
  }

  function Grow(s: Space, a: Area, size: nat): Space
    requires !OutOfAddresses(s, a, size)
  {
    if NeedsGrowth(s, a, size)
    then WithEnd(s, a, GrownEnd(s, a, size)).(mapped := s.mapped + GrowthPages(s, a, size))
    else s
  }

  /** `__alloc` when no free region fits; `canMap` tells whether frames could be found for the pages of a growth. */
  function AllocFresh(s: Space, a: Area, rgid: nat, size: nat, canMap: bool): Result
    requires size >= 1 && rgid < |s.syms|
  {
    if Refuses(s, a, size) then Refused(s)
    else if NeedsGrowth(s, a, size) && !canMap then Refused(WithEnd(s, a, FailedEnd(s, a, size)))
    else
      var r := AtBreak(s, a, size);
      AtBrk(SetSymbol(MoveBreak(Grow(s, a, size), a, size), rgid, Symbol(a, r)), r)
  }

  /** `__alloc`. */
  ghost function Alloc(s: Space, a: Area, rgid: nat, size: nat, canMap: bool): Result
    requires size >= 2 && rgid < |s.syms| && AllOriented(a, Free(s, a))
  {
    var scan := Search(a, size, Free(s, a));
    var s1 := WithFree(s, a, scan.free);
    match scan.found
    case Some(r) => Reused(SetSymbol(s1, rgid, Symbol(a, r)), r)
    case None => AllocFresh(s1, a, rgid, size, canMap)
  }

  /** `__free` on a live symbol: its region goes to the head of the free list. On a symbol that
      names nothing it does nothing. */
  function FreeSymbol(s: Space, rgid: nat): Space
    requires rgid < |s.syms|
  {
    var sym := s.syms[rgid];
    if !Real(sym.region) then s
    else
      var s1 := SetSymbol(s, rgid, Symbol(sym.area, Region(0, 0)));
      if !Oriented(sym.area, sym.region) then s1
      else WithFree(s1, sym.area, [sym.region] + Free(s1, sym.area))
  }
}
