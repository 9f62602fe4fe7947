/**
The memory instructions of src/cpu.c for one process: which bytes they name, which operations on shared memory they
consist of, and what they make of the address space.
*/
module Instructions {
  import opened Counting
  import opened Options
  import opened LruSpec
  import opened Paging
  import opened RegionScan
  import opened Regions
  import RS = RegionSafety
  import RV = RegionService

  /** ALLOC and MALLOC, FREE, READ, WRITE of process `pid`. */
  datatype Instr =
    | Allocate(pid: nat, area: Area, rgid: nat, size: nat)
    | Release(pid: nat, rgid: nat)
    | ReadVar(pid: nat, rgid: nat, off: nat)
    | WriteVar(pid: nat, rgid: nat, off: nat, value: Byte)

  predicate IsAccess(i: Instr) { i.ReadVar? || i.WriteVar? }

  /** An instruction that was executed, and whether it got through without running out of swap space. */
  datatype Event = Event(i: Instr, done: bool)

  // ---------- Addresses ----------

  /** The range test of `__read` and `__write`. */
  predicate InRange(sym: Symbol, off: nat) {
    && Real(sym.region)
    && (if sym.area.Stack? then sym.region.start + off <= sym.region.end else sym.region.start - off >= sym.region.end)
  }

  /** The heap's test is computed on unsigned words; it is right exactly when the offset does not exceed the region's
      start, and accepts every larger offset. */
  lemma HeapRangeTestIff(r: Region, off: nat)
    requires r.end <= r.start < WORD64 / 2 && off < WORD64 / 2
    ensures ((r.start - off) % WORD64 >= r.end <==> r.start - off >= r.end) <==> off <= r.start
  {
    if off <= r.start { assert (r.start - off) % WORD64 == r.start - off; }
    else { assert (r.start - off) % WORD64 == r.start - off + WORD64; }
  }

  /** The test is right about this access. */
  predicate NoWrap(sym: Symbol, off: nat) { sym.area.Heap? && Real(sym.region) ==> off <= sym.region.start }

  /** The virtual address of byte `off` of a symbol. */
  function Address(sym: Symbol, off: nat): nat
    requires InRange(sym, off)
  {
    if sym.area.Stack? then sym.region.start + off else sym.region.start - off
  }

  function SlotOf(pid: nat, addr: nat): Slot { Slot(pid, addr / PAGE_SIZE) }

  /** Where the byte of an address is within its frame. */
  function CellOf(area: Area, addr: nat): nat { PhysOffset(area, addr % PAGE_SIZE) }

  ghost predicate IsVar(s: Space, rgid: nat, off: nat) {
    rgid < SYMBOLS && |s.syms| == SYMBOLS && InRange(s.syms[rgid], off)
  }

  ghost function VarSlot(s: Space, pid: nat, rgid: nat, off: nat): Slot
    requires IsVar(s, rgid, off)
  {
    SlotOf(pid, Address(s.syms[rgid], off))
  }

  ghost function VarCell(s: Space, rgid: nat, off: nat): nat
    requires IsVar(s, rgid, off)
  {
    CellOf(s.syms[rgid].area, Address(s.syms[rgid], off))
  }

  /** A symbol that was given `size` bytes has exactly the offsets below `size`, counted from the start of its region:
      upwards in the stack, downwards in the heap. */
  lemma AllocatedVar(s: Space, a: Area, rgid: nat, size: nat, off: nat)
    requires RS.Inv(s) && RS.Covered(s, a, rgid, size) && !Alloc(s, a, rgid, size, true).Refused?
    ensures var res := Alloc(s, a, rgid, size, true);
            && (IsVar(res.s, rgid, off) <==> off < size)
            && (off < size ==>
                  Address(res.s.syms[rgid], off) == if a.Stack? then Lo(a, res.r) + off else Hi(a, res.r) - off)
  {
    RV.ServedLength(s, a, rgid, size);
  }

  /** A freed symbol has none, and the others keep theirs. */
  lemma FreedVar(s: Space, rgid: nat, j: nat, off: nat)
    requires RS.Inv(s) && rgid < SYMBOLS && j < SYMBOLS
    ensures IsVar(FreeSymbol(s, rgid), j, off) <==> j != rgid && IsVar(s, j, off)
  {
    RV.FreeMovesNothing(s, rgid, j);
  }

  // ---------- Operations ----------

  function Takes(n: nat): seq<Op> { if n == 0 then [] else [TakeFrame] + Takes(n - 1) }

  function Installs(pid: nat, pages: seq<nat>): seq<Op> {
    if pages == [] then [] else [InstallPage(Slot(pid, pages[0]))] + Installs(pid, pages[1..])
  }

  /** `vm_map_ram`: first all frames, then all entries. */
  function GrowthOps(pid: nat, s: Space, a: Area, size: nat): seq<Op>
    requires NeedsGrowth(s, a, size)
  {
    var n := PageCount(s, a, size);
    Takes(n) + Installs(pid, PageList(FirstPage(s, a), n, a))
  }

  /** The pages of a reused region, from its start on. */
  function ReuseOps(pid: nat, lo: nat, hi: nat, a: Area): seq<Op> {
    if lo > hi then []
    else seq(hi + 1 - lo, k requires 0 <= k <= hi - lo => ReusePage(Slot(pid, if a.Stack? then lo + k else hi - k)))
  }

  /** `__free` stores zero in all but the last byte of a stack region, and in nothing of a heap region. */
  function ZeroOps(pid: nat, a: Area, from: nat, upto: nat): seq<Op>
    decreases upto - from
  {
    if from >= upto then []
    else [SetByte(SlotOf(pid, from), a, from % PAGE_SIZE, 0)] + ZeroOps(pid, a, from + 1, upto)
  }

  ghost function AllocOps(pid: nat, s: Space, a: Area, size: nat): seq<Op>
    requires size >= 2 && AllOriented(a, Free(s, a))
  {
    match Search(a, size, Free(s, a)).found
    case Some(r) => ReuseOps(pid, Lo(a, r) / PAGE_SIZE, Hi(a, r) / PAGE_SIZE, a)
    case None => if !Refuses(s, a, size) && NeedsGrowth(s, a, size) then GrowthOps(pid, s, a, size) else []
  }

  ghost predicate RegionMapped(s: Space, a: Area, r: Region) {
    forall p: nat :: Lo(a, r) / PAGE_SIZE <= p <= Hi(a, r) / PAGE_SIZE ==> p in s.mapped
  }

  ghost predicate AccessCovered(s: Space, sym: Symbol, off: nat) {
    NoWrap(sym, off) && (InRange(sym, off) ==> Address(sym, off) / PAGE_SIZE in s.mapped)
  }

  /** The instruction is covered by the guarantees: an allocation as in `RegionSafety`; an access, inside its region or
      not, that does not wrap; and only mapped pages are touched. */
  ghost predicate Covered(s: Space, i: Instr) {
    && i.rgid < SYMBOLS && RS.Inv(s)
    && match i
       case Allocate(_, a, rgid, size) =>
         && RS.Covered(s, a, rgid, size)
         && var found := Search(a, size, Free(s, a)).found; found.Some? ==> RegionMapped(s, a, found.value)
       case Release(_, _) => true
       case ReadVar(_, rgid, off) => AccessCovered(s, s.syms[rgid], off)
       case WriteVar(_, rgid, off, _) => AccessCovered(s, s.syms[rgid], off)
  }

  /** The instruction maps pages. */
  ghost predicate Grows(s: Space, i: Instr)
    requires Covered(s, i)
  {
    && i.Allocate? && Search(i.area, i.size, Free(s, i.area)).found.None?
    && !Refuses(s, i.area, i.size) && NeedsGrowth(s, i.area, i.size)
  }

  /** An access outside its region is refused and touches no memory. */
  ghost function Ops(s: Space, i: Instr): seq<Op>
    requires Covered(s, i)
  {
    var sym := s.syms[i.rgid];
    match i
    case Allocate(pid, a, _, size) => AllocOps(pid, s, a, size)
    case Release(pid, _) => ZeroOps(pid, sym.area, sym.region.start, sym.region.end)
    case ReadVar(pid, _, off) => if InRange(sym, off) then [ReadOp(pid, sym, off)] else []
    case WriteVar(pid, _, off, v) => if InRange(sym, off) then [WriteOp(pid, sym, off, v)] else []
  }

  function ReadOp(pid: nat, sym: Symbol, off: nat): Op
    requires InRange(sym, off)
  {
    Read(SlotOf(pid, Address(sym, off)), sym.area, Address(sym, off) % PAGE_SIZE)
  }

  function WriteOp(pid: nat, sym: Symbol, off: nat, value: Byte): Op
    requires InRange(sym, off)
  {
    Write(SlotOf(pid, Address(sym, off)), sym.area, Address(sym, off) % PAGE_SIZE, value)
  }

  ghost function SpaceAfter(s: Space, i: Instr): Space
    requires Covered(s, i)
  {
    match i
    case Allocate(_, a, rgid, size) => Alloc(s, a, rgid, size, true).s
    case Release(_, rgid) => FreeSymbol(s, rgid)
    case _ => s
  }

  lemma SpaceStaysInOrder(s: Space, i: Instr)
    requires Covered(s, i)
    ensures RS.Inv(SpaceAfter(s, i))
  {
    match i
    case Allocate(_, a, rgid, size) => RS.AllocKeepsInv(s, a, rgid, size);
    case Release(_, rgid) => RS.FreeKeepsInv(s, rgid);
    case _ =>
  }

  // ---------- Pages ----------

  function Installed(ops: seq<Op>): set<Slot> {
    if ops == [] then {} else (if ops[0].InstallPage? then {ops[0].slot} else {}) + Installed(ops[1..])
  }

  lemma {:induction false} InstalledConcat(a: seq<Op>, b: seq<Op>)
    ensures Installed(a + b) == Installed(a) + Installed(b)
  {
    if a == [] {
      assert a + b == b;
    } else {
      assert (a + b)[1..] == a[1..] + b;
      InstalledConcat(a[1..], b);
    }
  }

  lemma {:induction false} NoInstalls(ops: seq<Op>)
    requires forall k :: 0 <= k < |ops| ==> !ops[k].InstallPage?
    ensures Installed(ops) == {}
  {
    if ops != [] { NoInstalls(ops[1..]); }
  }

  lemma {:induction false} TakesAt(n: nat)
    ensures |Takes(n)| == n && forall k :: 0 <= k < n ==> Takes(n)[k].TakeFrame?
  {
    if n > 0 { TakesAt(n - 1); }
  }

  lemma {:induction false} InstallsAt(pid: nat, pages: seq<nat>)
    ensures |Installs(pid, pages)| == |pages|
    ensures forall k :: 0 <= k < |pages| ==> Installs(pid, pages)[k] == InstallPage(Slot(pid, pages[k]))
    ensures forall s: Slot :: s in Installed(Installs(pid, pages)) <==> s.pid == pid && s.pgn in pages
  {
    if pages != [] {
      InstallsAt(pid, pages[1..]);
      var ops, rest := Installs(pid, pages), Installs(pid, pages[1..]);
      forall k | 0 <= k < |pages| ensures ops[k] == InstallPage(Slot(pid, pages[k])) {
        if k > 0 { assert ops[k] == rest[k - 1]; }
      }
    }
  }

  lemma {:induction false} ZeroOpsAt(pid: nat, a: Area, from: nat, upto: nat)
    ensures |ZeroOps(pid, a, from, upto)| == if from >= upto then 0 else upto - from
    ensures forall k :: 0 <= k < |ZeroOps(pid, a, from, upto)| ==>
              ZeroOps(pid, a, from, upto)[k] == SetByte(SlotOf(pid, from + k), a, (from + k) % PAGE_SIZE, 0)
    decreases upto - from
  {
    if from < upto {
      ZeroOpsAt(pid, a, from + 1, upto);
      var ops, rest := ZeroOps(pid, a, from, upto), ZeroOps(pid, a, from + 1, upto);
      forall k | 0 <= k < |ops| ensures ops[k] == SetByte(SlotOf(pid, from + k), a, (from + k) % PAGE_SIZE, 0) {
        if k > 0 { assert ops[k] == rest[k - 1]; }
      }
    }
  }

  /** The pages of a growth are all different and none of them is below 0. */
  lemma {:induction false} PageListShape(first: int, n: nat, a: Area)
    requires if a.Stack? then first >= 0 else first - n + 1 >= 0
    ensures |PageList(first, n, a)| == n && Distinct(PageList(first, n, a))
    decreases n
  {
    if n > 0 {
      PageListShape(first, n - 1, a);
      var last: nat := if a.Stack? then first + n - 1 else first - n + 1;
      assert last !in PagesOf(first, n - 1, a);
      assert PageList(first, n, a) == [last] + PageList(first, n - 1, a);
    }
  }

  /** The pages of a covered growth: as many as counted, all different, none of them mapped. */
  lemma GrowthPagesNew(s: Space, a: Area, size: nat)
    requires RS.Inv(s) && size >= 2 && !Refuses(s, a, size) && NeedsGrowth(s, a, size) && !RS.Collides(s, a, size)
    ensures var first, n := FirstPage(s, a), PageCount(s, a, size);
            && first >= 0 && (a.Heap? ==> n <= first + 1)
            && |PageList(first, n, a)| == n && Distinct(PageList(first, n, a))
            && forall p :: p in PageList(first, n, a) ==> p !in s.mapped
  {
    RS.GrowthKeepsLimitsIff(s, a, size);
    RS.GrowthKeepsPages(s, a, size);
    RS.GrowthPagesExist(s, a, size);
    PageListShape(FirstPage(s, a), PageCount(s, a, size), a);
    forall p | p in PageList(FirstPage(s, a), PageCount(s, a, size), a) ensures p !in s.mapped {
      assert p in GrowthPages(s, a, size);
    }
  }

  /** The slots of process `pid` that `s'` has mapped and `s` has not are among `added`, and `added` has no others. */
  ghost predicate Adds(s: Space, s': Space, pid: nat, added: set<Slot>) {
    forall x: Slot :: x in added || (x.pid == pid && x.pgn in s.mapped) <==> x.pid == pid && x.pgn in s'.mapped
  }

  lemma GrowthAdds(pid: nat, s: Space, a: Area, size: nat)
    requires !OutOfAddresses(s, a, size) && NeedsGrowth(s, a, size)
    ensures Adds(s, Grow(s, a, size), pid, Installed(GrowthOps(pid, s, a, size)))
  {
    var n := PageCount(s, a, size);
    var pages := PageList(FirstPage(s, a), n, a);
    TakesAt(n);
    NoInstalls(Takes(n));
    InstallsAt(pid, pages);
    InstalledConcat(Takes(n), Installs(pid, pages));
  }

  /** An allocation installs exactly the pages its address space adds. */
  lemma AllocAdds(pid: nat, s: Space, a: Area, rgid: nat, size: nat)
    requires RS.Inv(s) && RS.Covered(s, a, rgid, size)
    ensures Adds(s, Alloc(s, a, rgid, size, true).s, pid, Installed(AllocOps(pid, s, a, size)))
  {
    SearchCarves(a, size, Free(s, a));
    match Search(a, size, Free(s, a)).found
    case Some(r) => NoInstalls(AllocOps(pid, s, a, size));
    case None => if !Refuses(s, a, size) && NeedsGrowth(s, a, size) { GrowthAdds(pid, s, a, size); }
  }

  /** So does every instruction. */
  lemma OpsAdd(s: Space, i: Instr)
    requires Covered(s, i)
    ensures Adds(s, SpaceAfter(s, i), i.pid, Installed(Ops(s, i)))
  {
    match i
    case Allocate(pid, a, rgid, size) => AllocAdds(pid, s, a, rgid, size);
    case Release(pid, rgid) =>
      var sym := s.syms[rgid];
      ZeroOpsAt(pid, sym.area, sym.region.start, sym.region.end);
      NoInstalls(Ops(s, i));
    case _ => NoInstalls(Ops(s, i));
  }

  /** Every byte of a region in use is on a mapped page, if the heap's pages are all mapped or it is in the stack. */
  lemma UsedPageMapped(s: Space, a: Area, r: Region, x: nat)
    requires RS.Inv(s) && (a.Heap? ==> RS.HeapMapped(s)) && Real(r) && RS.InUse(s, a, r) && Lo(a, r) <= x <= Hi(a, r)
    ensures x / PAGE_SIZE in s.mapped
  {
    if a.Stack? {
      assert x / PAGE_SIZE * PAGE_SIZE < s.stackEnd;
    } else {
      assert s.heapEnd <= x < s.vmemsz;
      PageFloor(x, s.heapEnd);
    }
  }

  lemma PageFloor(x: nat, e: nat)
    requires e <= x && e % PAGE_SIZE == 0
    ensures e <= x / PAGE_SIZE * PAGE_SIZE
  {
    assert x / PAGE_SIZE >= e / PAGE_SIZE;
  }

  /** The operation is process `pid`'s own, and accesses a page of `mapped` or installs one that is not. */
  ghost predicate OnOwnPages(op: Op, pid: nat, mapped: set<nat>) {
    match op
    case TakeFrame => true
    case InstallPage(s) => s.pid == pid && s.pgn !in mapped
    case ReusePage(s) => s.pid == pid && s.pgn in mapped
    case _ => op.slot.pid == pid && op.slot.pgn in mapped && op.off < PAGE_SIZE
  }

  /** No two operations install the same page. */
  ghost predicate InstallsOnce(ops: seq<Op>) {
    forall j, k :: 0 <= j < k < |ops| && ops[j].InstallPage? && ops[k].InstallPage? ==> ops[j].slot != ops[k].slot
  }

  ghost predicate AllOnOwnPages(ops: seq<Op>, pid: nat, mapped: set<nat>) {
    InstallsOnce(ops) && forall k :: 0 <= k < |ops| ==> OnOwnPages(ops[k], pid, mapped)
  }

  lemma MappingOnOwnPages(pid: nat, n: nat, pages: seq<nat>, mapped: set<nat>)
    requires Distinct(pages) && forall p :: p in pages ==> p !in mapped
    ensures AllOnOwnPages(Takes(n) + Installs(pid, pages), pid, mapped)
  {
    TakesAt(n);
    InstallsAt(pid, pages);
    var ops := Takes(n) + Installs(pid, pages);
    forall k | 0 <= k < |ops|
      ensures if k < n then ops[k].TakeFrame?
              else ops[k] == InstallPage(Slot(pid, pages[k - n])) && pages[k - n] in pages
    {
    }
  }

  lemma GrowthOnOwnPages(pid: nat, s: Space, a: Area, size: nat)
    requires RS.Inv(s) && size >= 2 && !Refuses(s, a, size) && NeedsGrowth(s, a, size) && !RS.Collides(s, a, size)
    ensures AllOnOwnPages(GrowthOps(pid, s, a, size), pid, s.mapped)
  {
    var n := PageCount(s, a, size);
    GrowthPagesNew(s, a, size);
    MappingOnOwnPages(pid, n, PageList(FirstPage(s, a), n, a), s.mapped);
  }

  lemma ZeroOnOwnPages(pid: nat, s: Space, rgid: nat)
    requires RS.Inv(s) && rgid < SYMBOLS
    ensures var sym := s.syms[rgid];
            AllOnOwnPages(ZeroOps(pid, sym.area, sym.region.start, sym.region.end), pid, s.mapped)
  {
    var sym := s.syms[rgid];
    var r := sym.region;
    ZeroOpsAt(pid, sym.area, r.start, r.end);
    if Real(r) {
      assert RS.Live(s, rgid, sym.area);
      var ops := ZeroOps(pid, sym.area, r.start, r.end);
      forall k | 0 <= k < |ops| ensures OnOwnPages(ops[k], pid, s.mapped) {
        UsedPageMapped(s, sym.area, r, r.start + k);
      }
    }
  }

  /** The operations of a covered instruction stay on pages of its process: they access mapped ones and install others,
      each once. */
  lemma OpsOnOwnPages(s: Space, i: Instr)
    requires Covered(s, i)
    ensures AllOnOwnPages(Ops(s, i), i.pid, s.mapped)
  {
    match i
    case Allocate(pid, a, rgid, size) =>
      if Grows(s, i) { GrowthOnOwnPages(pid, s, a, size); }
    case Release(pid, rgid) => ZeroOnOwnPages(pid, s, rgid);
    case _ =>
  }

  // ---------- Bytes ----------

  lemma DistinctAddresses(area: Area, x: nat, z: nat)
    requires x != z
    ensures x / PAGE_SIZE != z / PAGE_SIZE || CellOf(area, x) != CellOf(area, z)
  {
  }

  lemma PageMonotone(x: nat, z: nat)
    requires x <= z
    ensures x / PAGE_SIZE <= z / PAGE_SIZE
  {
  }

  lemma AreasOnDifferentPages(s: Space, i: nat, x: nat, j: nat, z: nat)
    requires RS.Inv(s) && RS.Live(s, i, Stack) && RS.Live(s, j, Heap)
    requires s.syms[i].region.start <= x <= s.syms[i].region.end && s.syms[j].region.end <= z <= s.syms[j].region.start
    ensures x / PAGE_SIZE < z / PAGE_SIZE
  {
    RS.AreasApart(s, s.syms[i].region, s.syms[j].region);
    PageMonotone(x, s.syms[i].region.end);
    PageMonotone(s.syms[j].region.end, z);
  }

  /** Different bytes of one address space are stored in different places. */
  lemma DistinctVars(s: Space, i: nat, off: nat, j: nat, off': nat)
    requires RS.Inv(s) && i < SYMBOLS && j < SYMBOLS && InRange(s.syms[i], off) && InRange(s.syms[j], off')
    requires i != j || off != off'
    ensures var x, z := Address(s.syms[i], off), Address(s.syms[j], off');
            x / PAGE_SIZE != z / PAGE_SIZE || CellOf(s.syms[i].area, x) != CellOf(s.syms[j].area, z)
  {
    var a, b := s.syms[i].area, s.syms[j].area;
    var x, z := Address(s.syms[i], off), Address(s.syms[j], off');
    assert RS.Live(s, i, a) && RS.Live(s, j, b);
    if a == b {
      DistinctAddresses(a, x, z);
    } else if a.Stack? {
      AreasOnDifferentPages(s, i, x, j, z);
    } else {
      AreasOnDifferentPages(s, j, z, i, x);
    }
  }

  /** Operations that never store to a given byte. */
  ghost predicate Spares(ops: seq<Op>, slot: Slot, cell: nat) {
    forall k :: 0 <= k < |ops| ==> !Stores(ops[k], slot, cell)
  }

  /** The instruction gives the variable a new value or a new meaning. */
  predicate Affects(e: Event, pid: nat, rgid: nat, off: nat) {
    && e.i.pid == pid && e.i.rgid == rgid
    && (e.i.Allocate? || e.i.Release? || (e.i.WriteVar? && e.i.off == off && e.done))
  }

  /** Zeroing the bytes of one symbol spares those of another. */
  lemma ZeroSpares(pid: nat, s: Space, i: nat, j: nat, off: nat)
    requires RS.Inv(s) && i < SYMBOLS && j < SYMBOLS && i != j && InRange(s.syms[j], off)
    ensures var sym, x := s.syms[i], Address(s.syms[j], off);
            Spares(ZeroOps(pid, sym.area, sym.region.start, sym.region.end), SlotOf(pid, x), CellOf(s.syms[j].area, x))
  {
    var sym, x := s.syms[i], Address(s.syms[j], off);
    var r := sym.region;
    ZeroOpsAt(pid, sym.area, r.start, r.end);
    var ops := ZeroOps(pid, sym.area, r.start, r.end);
    if ops != [] { assert RS.Live(s, i, sym.area); }
    forall k | 0 <= k < |ops| ensures !Stores(ops[k], SlotOf(pid, x), CellOf(s.syms[j].area, x)) {
      assert InRange(sym, k);
      DistinctVars(s, i, k, j, off);
    }
  }

  lemma AllocStoresNothing(pid: nat, s: Space, a: Area, size: nat)
    requires size >= 2 && AllOriented(a, Free(s, a))
    ensures forall k :: 0 <= k < |AllocOps(pid, s, a, size)| ==> !Puts(AllocOps(pid, s, a, size)[k])
  {
    if Search(a, size, Free(s, a)).found.None? && !Refuses(s, a, size) && NeedsGrowth(s, a, size) {
      var n := PageCount(s, a, size);
      TakesAt(n);
      InstallsAt(pid, PageList(FirstPage(s, a), n, a));
    }
  }

  /** The operations of an instruction spare every variable of the process that it does not write or release. */
  lemma OpsSpare(s: Space, i: Instr, rgid: nat, off: nat)
    requires Covered(s, i) && IsVar(s, rgid, off) && !Affects(Event(i, true), i.pid, rgid, off)
    ensures Spares(Ops(s, i), VarSlot(s, i.pid, rgid, off), VarCell(s, rgid, off))
  {
    match i
    case Allocate(p, a, r, size) => AllocStoresNothing(p, s, a, size);
    case Release(p, r) => ZeroSpares(p, s, r, rgid, off);
    case ReadVar(_, _, _) =>
    case WriteVar(_, r, o, _) => if InRange(s.syms[r], o) { DistinctVars(s, r, o, rgid, off); }
  }

  /** An instruction changes the symbol it names and no other. */
  lemma SymbolsKept(s: Space, i: Instr, j: nat)
    requires Covered(s, i) && j < SYMBOLS && (j != i.rgid || IsAccess(i))
    ensures |SpaceAfter(s, i).syms| == SYMBOLS && SpaceAfter(s, i).syms[j] == s.syms[j]
  {
  }

  /** The byte last written to a variable since it was allocated, by the history alone. */
  function LastStored(h: seq<Event>, pid: nat, rgid: nat, off: nat): Option<Byte> {
    if h == [] then None
    else
      var e := h[|h| - 1];
      if !Affects(e, pid, rgid, off) then LastStored(h[..|h| - 1], pid, rgid, off)
      else if e.i.WriteVar? then Some(e.i.value) else None
  }

  // ---------- Clean heap growths ----------

  /** The instruction does not make the heap claim a page it does not map. */
  ghost predicate Clean(s: Space, i: Instr) {
    i.Allocate? && i.area.Heap? && NeedsGrowth(s, i.area, i.size) ==> RS.HeapGrowthClean(s, i.size)
  }

  /** As long as growths are clean all pages of the heap are mapped. */
  lemma CleanKeepsMapped(s: Space, i: Instr)
    requires Covered(s, i) && Clean(s, i) && RS.HeapMapped(s)
    ensures RS.HeapMapped(SpaceAfter(s, i))
  {
    if i.Allocate? { RS.AllocKeepsHeapMapped(s, i.area, i.rgid, i.size); }
  }

  /** And then every access and every reuse is on mapped pages. */
  lemma MappedIsCovered(s: Space, rgid: nat, off: nat)
    requires RS.Inv(s) && RS.HeapMapped(s) && IsVar(s, rgid, off)
    ensures Address(s.syms[rgid], off) / PAGE_SIZE in s.mapped
  {
    var sym := s.syms[rgid];
    assert RS.Live(s, rgid, sym.area);
    UsedPageMapped(s, sym.area, sym.region, Address(sym, off));
  }

  lemma ReusedIsMapped(s: Space, a: Area, size: nat, r: Region)
    requires RS.Inv(s) && RS.HeapMapped(s) && size >= 2 && Search(a, size, Free(s, a)).found == Some(r)
    ensures RegionMapped(s, a, r)
  {
    SearchCarves(a, size, Free(s, a));
    var k :| 0 <= k < |Free(s, a)| && Real(Free(s, a)[k]) && Inside(a, r, Free(s, a)[k]);
    forall p: nat | Lo(a, r) / PAGE_SIZE <= p <= Hi(a, r) / PAGE_SIZE ensures p in s.mapped {
      var x := if p * PAGE_SIZE >= Lo(a, r) then p * PAGE_SIZE else Lo(a, r);
      assert x / PAGE_SIZE == p && Lo(a, r) <= x <= Hi(a, r);
      UsedPageMapped(s, a, r, x);
    }
  }

  /** So with all pages of the heap mapped, accesses need only not to wrap, and allocations are covered as such. */
  lemma MappedCovers(s: Space, i: Instr)
    requires RS.Inv(s) && RS.HeapMapped(s) && i.rgid < SYMBOLS
    requires i.Allocate? ==> RS.Covered(s, i.area, i.rgid, i.size)
    requires IsAccess(i) ==> NoWrap(s.syms[i.rgid], i.off)
    ensures Covered(s, i)
  {
    if i.Allocate? {
      var found := Search(i.area, i.size, Free(s, i.area)).found;
      if found.Some? { ReusedIsMapped(s, i.area, i.size, found.value); }
    } else if IsAccess(i) && InRange(s.syms[i.rgid], i.off) {
      MappedIsCovered(s, i.rgid, i.off);
    }
  }
}
