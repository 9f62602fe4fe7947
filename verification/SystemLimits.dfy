/**
When an allocation goes through, and that the operations `System` gives it are what the in-place code
of `MemoryUnit` does.
*/
module SystemLimits {
  import opened Counting
  import opened LruSpec
  import opened Options
  import opened Paging
  import PI = PagingInvariant
  import opened PagingLimits
  import opened MemoryUnit
  import opened RegionScan
  import opened Regions
  import RS = RegionSafety
  import opened Instructions
  import opened SY = System

  // ---------- Sequences of operations ----------

  lemma {:induction false} PerformConcat(d: Decoder, m: Machine, a: seq<Op>, b: seq<Op>)
    ensures Perform(d, m, a + b) == match Perform(d, m, a) case Ok(m1) => Perform(d, m1, b) case r => r
    decreases |a|
  {
    if a == [] {
      assert a + b == b;
    } else {
      assert (a + b)[1..] == a[1..] + b;
      if Legal(m, a[0]) && Step(d, m, a[0]).Ok? {
        PerformConcat(d, Step(d, m, a[0]).m, a[1..], b);
      }
    }
  }

  lemma {:induction false} PerformTakes(d: Decoder, m: Machine, n: nat)
    ensures Perform(d, m, Takes(n)) == TakeN(m, n)
    decreases n
  {
    if n > 0 {
      assert Takes(n)[1..] == Takes(n - 1);
      if Take(m).Ok? { PerformTakes(d, Take(m).m, n - 1); }
    }
  }

  /** Installing pages one after the other. */
  ghost function InstallPages(m: Machine, pid: nat, pages: seq<nat>): Machine
    requires |pages| <= |m.pending|
    decreases |pages|
  {
    if pages == [] then m else InstallPages(Install(m, Slot(pid, pages[0])), pid, pages[1..])
  }

  lemma {:induction false} PerformInstalls(d: Decoder, m: Machine, pid: nat, pages: seq<nat>)
    requires !Perform(d, m, Installs(pid, pages)).Undefined?
    ensures |pages| <= |m.pending| && Perform(d, m, Installs(pid, pages)) == Ok(InstallPages(m, pid, pages))
    decreases |pages|
  {
    if pages != [] {
      assert Installs(pid, pages)[1..] == Installs(pid, pages[1..]);
      PerformInstalls(d, Install(m, Slot(pid, pages[0])), pid, pages[1..]);
    }
  }

  lemma {:induction false} InstallsDefined(d: Decoder, m: Machine, pid: nat, pages: seq<nat>)
    requires |pages| <= |m.pending| && Distinct(pages) && forall p :: p in pages ==> Slot(pid, p) !in m.table
    ensures !Perform(d, m, Installs(pid, pages)).Undefined?
    decreases |pages|
  {
    if pages != [] {
      var op, rest := InstallPage(Slot(pid, pages[0])), pages[1..];
      assert Installs(pid, pages)[1..] == Installs(pid, rest);
      assert pages[0] in pages && Legal(m, op);
      forall p | p in rest ensures Slot(pid, p) !in Install(m, op.slot).table {
        assert p in pages;
      }
      InstallsDefined(d, Install(m, op.slot), pid, rest);
    }
  }

  lemma {:induction false} InstallAllIsPages(m: Machine, pid: nat, first: nat, n: nat, a: Area)
    requires n <= |m.pending| && (a.Heap? ==> n <= first + 1)
    ensures |PageList(first, n, a)| == n
    ensures InstallAll(m, pid, first, n, a) == InstallPages(m, pid, PageList(first, n, a))
    decreases n
  {
    PageListShape(first, n, a);
    if n > 0 {
      var slot := PageSlot(pid, first, n - 1, a);
      assert PageList(first, n, a) == [slot.pgn] + PageList(first, n - 1, a);
      InstallAllIsPages(Install(m, slot), pid, first, n - 1, a);
    }
  }

  lemma {:induction false} TakeNKeepsPages(m: Machine, n: nat)
    requires Paging.Inv(m) && TakeN(m, n).Ok?
    ensures TakeN(m, n).m.table.Keys == m.table.Keys
    decreases n
  {
    PI.TakeKeeps(m);
    if n > 0 { TakeNKeepsPages(Take(m).m, n - 1); }
  }

  /** `vm_map_ram` as operations: the frames it takes and the entries it writes, or its failure. */
  lemma GrowthIsMapping(d: Decoder, m: Machine, pid: nat, first: nat, n: nat, a: Area)
    requires a.Heap? ==> n <= first + 1
    requires !Perform(d, m, Takes(n) + Installs(pid, PageList(first, n, a))).Undefined?
    ensures Perform(d, m, Takes(n) + Installs(pid, PageList(first, n, a))) == Mapping(m, pid, first, n, a)
  {
    PerformConcat(d, m, Takes(n), Installs(pid, PageList(first, n, a)));
    PerformTakes(d, m, n);
    if TakeN(m, n).Ok? {
      var m1 := TakeN(m, n).m;
      PageListShape(first, n, a);
      PerformInstalls(d, m1, pid, PageList(first, n, a));
      InstallAllIsPages(m1, pid, first, n, a);
    }
  }

  /** Mapping pages that have no entry yet is defined if taking the frames is. */
  lemma GrowthDefined(d: Decoder, m: Machine, pid: nat, first: nat, n: nat, a: Area)
    requires Paging.Inv(m) && (a.Heap? ==> n <= first + 1)
    requires forall p :: p in PageList(first, n, a) ==> Slot(pid, p) !in m.table
    ensures Perform(d, m, Takes(n) + Installs(pid, PageList(first, n, a))).Undefined? <==> TakeN(m, n).Undefined?
    ensures Perform(d, m, Takes(n) + Installs(pid, PageList(first, n, a))).Ok? <==> TakeN(m, n).Ok?
  {
    PerformConcat(d, m, Takes(n), Installs(pid, PageList(first, n, a)));
    PerformTakes(d, m, n);
    if TakeN(m, n).Ok? {
      TakeNCounts(m, n);
      TakeNKeepsPages(m, n);
      PageListShape(first, n, a);
      InstallsDefined(d, TakeN(m, n).m, pid, PageList(first, n, a));
      PerformInstalls(d, TakeN(m, n).m, pid, PageList(first, n, a));
    }
  }

  // ---------- Which frames a growth gets ----------

  /** Frames taken while RAM has free ones are the first of the free list, the last one taken in front. */
  lemma {:induction false} TakeNFrames(m: Machine, n: nat)
    requires n <= |m.ramFree|
    ensures var r := TakeN(m, n);
            && r.Ok? && r.m.ramFree == m.ramFree[n..] && r.m.table == m.table
            && |r.m.pending| == n + |m.pending| && r.m.pending[n..] == m.pending
            && forall j :: 0 <= j < n ==> r.m.pending[n - 1 - j] == m.ramFree[j]
    decreases n
  {
    if n > 0 {
      var m1, r := Take(m).m, TakeN(m, n);
      TakeNFrames(m1, n - 1);
      assert r.m.pending[n - 1..] == [m.ramFree[0]] + m.pending;
      assert r.m.pending[n..] == r.m.pending[n - 1..][1..];
      forall j | 0 <= j < n ensures r.m.pending[n - 1 - j] == m.ramFree[j] {
        if j > 0 { assert m1.ramFree[j - 1] == m.ramFree[j]; }
      }
    }
  }

  ghost predicate InFrame(m: Machine, slot: Slot, f: nat) {
    slot in m.table && m.table[slot] == InRam(f)
  }

  lemma {:induction false} InstallAllKeeps(m: Machine, pid: nat, first: nat, n: nat, a: Area, j: nat, f: nat)
    requires n <= |m.pending| && (a.Heap? ==> j <= first) && n <= j && (a.Heap? ==> n <= first + 1)
    requires InFrame(m, PageSlot(pid, first, j, a), f)
    ensures InFrame(InstallAll(m, pid, first, n, a), PageSlot(pid, first, j, a), f)
    decreases n
  {
    if n > 0 {
      var m1 := Install(m, PageSlot(pid, first, n - 1, a));
      InstallAllKeeps(m1, pid, first, n - 1, a, j, f);
    }
  }

  /** The farthest page gets the frame in front. */
  lemma {:induction false} InstallAllFrames(m: Machine, pid: nat, first: nat, n: nat, a: Area, j: nat)
    requires n <= |m.pending| && (a.Heap? ==> n <= first + 1) && j < n
    ensures InFrame(InstallAll(m, pid, first, n, a), PageSlot(pid, first, j, a), m.pending[n - 1 - j])
    decreases n
  {
    var m1 := Install(m, PageSlot(pid, first, n - 1, a));
    if j == n - 1 {
      InstallAllKeeps(m1, pid, first, n - 1, a, j, m.pending[0]);
    } else {
      InstallAllFrames(m1, pid, first, n - 1, a, j);
    }
  }

  /** As long as RAM has enough free frames, a growth maps its pages, from its first one on, to the first of them. */
  lemma MappedFrames(m: Machine, pid: nat, first: nat, n: nat, a: Area)
    requires n <= |m.ramFree| && m.pending == [] && (a.Heap? ==> n <= first + 1)
    ensures var r := Mapping(m, pid, first, n, a);
            && r.Ok?
            && forall j: nat :: j < n ==> InFrame(r.m, PageSlot(pid, first, j, a), m.ramFree[j])
  {
    TakeNFrames(m, n);
    var r := Mapping(m, pid, first, n, a);
    forall j: nat | j < n ensures InFrame(r.m, PageSlot(pid, first, j, a), m.ramFree[j]) {
      InstallAllFrames(TakeN(m, n).m, pid, first, n, a, j);
    }
  }

  // ---------- Reuse ----------

  /** A reuse that succeeds changes neither how many pages are listed nor how many swap frames are free. */
  lemma ReuseCounts(m: Machine, slot: Slot)
    requires Paging.Inv(m) && slot in m.table
    ensures var r := Reuse(BySwapOffset, m, slot);
            && (r.Ok? <==> m.lru != [] && (m.table[slot].InRam? || m.swapFree != []))
            && (r.Ok? ==> |r.m.lru| == |m.lru| && |r.m.swapFree| == |m.swapFree|)
            && (r.Ok? && m.table[slot].InRam? ==> r.m.table == m.table)
  {
    PI.ReuseKeeps(m, slot);
    TouchKeeps(m.lru, FrameField(m.table[slot]));
    if m.table[slot].InSwap? && m.lru != [] && m.swapFree != [] {
      PI.ReplaceKeeps(m, slot);
      TouchKeeps(Replace(BySwapOffset, m, slot, m.table[slot].off).m.lru, FrameField(m.table[slot]));
    }
  }

  ghost predicate AllReuse(m: Machine, ops: seq<Op>) {
    forall k :: 0 <= k < |ops| ==> ops[k].ReusePage? && ops[k].slot in m.table
  }

  ghost predicate AllPresent(m: Machine, ops: seq<Op>)
    requires AllReuse(m, ops)
  {
    forall k :: 0 <= k < |ops| ==> m.table[ops[k].slot].InRam?
  }

  /** The first of several reuses: what it needs, and that it leaves as much for the others. */
  lemma ReuseFirst(m: Machine, ops: seq<Op>) returns (r: Outcome)
    requires Paging.Inv(m) && ops != [] && AllReuse(m, ops)
    ensures r.Ok? <==> m.lru != [] && (m.table[ops[0].slot].InRam? || m.swapFree != [])
    ensures r.Ok? ==>
              && Paging.Inv(r.m) && r.m.table.Keys == m.table.Keys
              && |r.m.lru| == |m.lru| && |r.m.swapFree| == |m.swapFree|
              && (m.table[ops[0].slot].InRam? ==> r.m.table == m.table)
              && Perform(BySwapOffset, m, ops) == Perform(BySwapOffset, r.m, ops[1..])
    ensures !r.Ok? ==> !Perform(BySwapOffset, m, ops).Ok?
  {
    r := Reuse(BySwapOffset, m, ops[0].slot);
    ReuseCounts(m, ops[0].slot);
    PI.ReuseKeeps(m, ops[0].slot);
  }

  /** A region can be reused exactly if there is a victim, and a swap frame for it unless all its pages are present. */
  lemma {:induction false} ReusesSucceedIff(m: Machine, ops: seq<Op>)
    requires Paging.Inv(m) && AllReuse(m, ops)
    ensures Perform(BySwapOffset, m, ops).Ok? <==>
              ops == [] || (m.lru != [] && (m.swapFree != [] || AllPresent(m, ops)))
    decreases |ops|
  {
    if ops != [] {
      PresentFirst(m, ops);
      var r := ReuseFirst(m, ops);
      if r.Ok? {
        assert AllReuse(r.m, ops[1..]);
        ReusesSucceedIff(r.m, ops[1..]);
      }
    }
  }

  lemma PresentFirst(m: Machine, ops: seq<Op>)
    requires ops != [] && AllReuse(m, ops)
    ensures AllReuse(m, ops[1..])
    ensures AllPresent(m, ops) <==> m.table[ops[0].slot].InRam? && AllPresent(m, ops[1..])
  {
    if m.table[ops[0].slot].InRam? && AllPresent(m, ops[1..]) {
      forall k | 0 <= k < |ops| ensures m.table[ops[k].slot].InRam? {
        if k > 0 { assert ops[k] == ops[1..][k - 1]; }
      }
    }
  }

  // ---------- Allocations ----------

  ghost predicate PagesPresent(m: Machine, pid: nat, lo: nat, hi: nat) {
    forall p: nat :: lo <= p <= hi ==> Slot(pid, p) in m.table && m.table[Slot(pid, p)].InRam?
  }

  /** Can the memory carry out the allocation? A reused region needs a page to evict, and a swap frame to evict it to
      unless all its pages are present; a growth needs as many free or evictable frames as it has pages, and swap
      frames for what it evicts. */
  ghost predicate CanAllocate(m: Machine, pid: nat, s: Space, a: Area, size: nat)
    requires size >= 2 && AllOriented(a, Free(s, a))
  {
    match Search(a, size, Free(s, a)).found
    case Some(r) =>
      m.lru != [] && (m.swapFree != [] || PagesPresent(m, pid, Lo(a, r) / PAGE_SIZE, Hi(a, r) / PAGE_SIZE))
    case None =>
      !Refuses(s, a, size) && NeedsGrowth(s, a, size) ==>
        var n := PageCount(s, a, size);
        n <= |m.ramFree| + |m.lru| && n <= |m.ramFree| + |m.swapFree|
  }

  /** The pages from `lo` to `hi` can be reused exactly if there is a victim, and a swap frame for it unless they are
      all present. */
  lemma ReuseRangeIff(m: Machine, pid: nat, lo: nat, hi: nat, a: Area)
    requires Paging.Inv(m) && lo <= hi && forall p: nat :: lo <= p <= hi ==> Slot(pid, p) in m.table
    ensures Perform(BySwapOffset, m, ReuseOps(pid, lo, hi, a)).Ok?
            <==> m.lru != [] && (m.swapFree != [] || PagesPresent(m, pid, lo, hi))
  {
    var ops := ReuseOps(pid, lo, hi, a);
    ReusesSucceedIff(m, ops);
    if AllPresent(m, ops) {
      forall p: nat | lo <= p <= hi ensures m.table[Slot(pid, p)].InRam? {
        assert ops[if a.Stack? then p - lo else hi - p].slot == Slot(pid, p);
      }
    }
  }

  lemma AllocPerformsIff(y: System, i: Instr)
    requires SY.Inv(y) && i.pid < |y.spaces| && Covered(y.spaces[i.pid], i) && i.Allocate?
    ensures var s := y.spaces[i.pid];
            Perform(BySwapOffset, y.m, Ops(s, i)).Ok? <==> CanAllocate(y.m, i.pid, s, i.area, i.size)
  {
    var s, a := y.spaces[i.pid], i.area;
    SearchCarves(a, i.size, Free(s, a));
    match Search(a, i.size, Free(s, a)).found
    case Some(r) =>
      PageMonotone(Lo(a, r), Hi(a, r));
      ReuseRangeIff(y.m, i.pid, Lo(a, r) / PAGE_SIZE, Hi(a, r) / PAGE_SIZE, a);
    case None =>
      if Grows(s, i) {
        var first, n := FirstPage(s, a), PageCount(s, a, i.size);
        GrowthPagesNew(s, a, i.size);
        GrowthDefined(BySwapOffset, y.m, i.pid, first, n, a);
        TakeNCounts(y.m, n);
      }
  }

  /** A covered allocation executes without running out of swap exactly if the memory can carry it out. */
  lemma AllocExecutesIff(y: System, i: Instr)
    requires SY.Inv(y) && i.pid < |y.spaces| && Covered(y.spaces[i.pid], i) && i.Allocate?
    ensures (exists y' :: Executes(y, Event(i, true), y')) <==>
              CanAllocate(y.m, i.pid, y.spaces[i.pid], i.area, i.size)
  {
    var s := y.spaces[i.pid];
    AllocPerformsIff(y, i);
    if Perform(BySwapOffset, y.m, Ops(s, i)).Ok? {
      assert Executes(y, Event(i, true),
                      System(y.spaces[i.pid := SpaceAfter(s, i)], Perform(BySwapOffset, y.m, Ops(s, i)).m));
    }
  }

  // ---------- Frames in transit ----------

  /** How many frames operations take minus how many they give to pages. */
  ghost function Balance(ops: seq<Op>): int {
    if ops == [] then 0
    else Taken(ops[0]) + Balance(ops[1..])
  }

  lemma {:induction false} PerformPends(d: Decoder, m: Machine, ops: seq<Op>)
    requires Perform(d, m, ops).Ok?
    ensures |Perform(d, m, ops).m.pending| == |m.pending| + Balance(ops)
    decreases |ops|
  {
    if ops != [] {
      StepPends(d, m, ops[0]);
      PerformPends(d, Step(d, m, ops[0]).m, ops[1..]);
    }
  }

  /** Operations that neither take nor install, whether they stop at a failure or not. */
  lemma {:induction false} OthersPendNothing(d: Decoder, m: Machine, ops: seq<Op>)
    requires forall k :: 0 <= k < |ops| ==> !ops[k].TakeFrame? && !ops[k].InstallPage?
    ensures !Perform(d, m, ops).Undefined? ==> |Perform(d, m, ops).m.pending| == |m.pending|
    ensures !PerformAll(d, m, ops).Undefined? ==> |PerformAll(d, m, ops).m.pending| == |m.pending|
    decreases |ops|
  {
    if ops != [] && Legal(m, ops[0]) && !Step(d, m, ops[0]).Undefined? {
      StepPends(d, m, ops[0]);
      OthersPendNothing(d, Step(d, m, ops[0]).m, ops[1..]);
    }
  }

  lemma {:induction false} BalanceConcat(a: seq<Op>, b: seq<Op>)
    ensures Balance(a + b) == Balance(a) + Balance(b)
  {
    if a == [] {
      assert a + b == b;
    } else {
      assert (a + b)[1..] == a[1..] + b;
      BalanceConcat(a[1..], b);
    }
  }

  lemma {:induction false} BalanceTakes(n: nat)
    ensures Balance(Takes(n)) == n
  {
    if n > 0 { BalanceTakes(n - 1); }
  }

  lemma {:induction false} BalanceInstalls(pid: nat, pages: seq<nat>)
    ensures Balance(Installs(pid, pages)) == -|pages|
  {
    if pages != [] { BalanceInstalls(pid, pages[1..]); }
  }

  lemma GrowthBalances(pid: nat, s: Space, a: Area, size: nat)
    requires RS.Inv(s) && size >= 2 && !Refuses(s, a, size) && NeedsGrowth(s, a, size) && !RS.Collides(s, a, size)
    ensures Balance(GrowthOps(pid, s, a, size)) == 0
  {
    var n := PageCount(s, a, size);
    var pages := PageList(FirstPage(s, a), n, a);
    GrowthPagesNew(s, a, size);
    BalanceTakes(n);
    BalanceInstalls(pid, pages);
    BalanceConcat(Takes(n), Installs(pid, pages));
  }

  /** Only growths take frames. */
  lemma TakesIfGrows(s: Space, i: Instr)
    requires Covered(s, i) && !Grows(s, i)
    ensures forall k :: 0 <= k < |Ops(s, i)| ==> !Ops(s, i)[k].TakeFrame? && !Ops(s, i)[k].InstallPage?
  {
    if i.Release? { ZeroOpsAt(i.pid, s.syms[i.rgid].area, s.syms[i.rgid].region.start, s.syms[i.rgid].region.end); }
  }

  /** Every frame an instruction takes it gives to a page. */
  lemma CarryKeepsPending(m: Machine, s: Space, i: Instr)
    requires Covered(s, i)
    requires var r := Carry(BySwapOffset, m, s, i); !r.Undefined? && (Grows(s, i) ==> r.Ok?)
    ensures |Carry(BySwapOffset, m, s, i).m.pending| == |m.pending|
  {
    if Grows(s, i) {
      GrowthBalances(i.pid, s, i.area, i.size);
      PerformPends(BySwapOffset, m, Ops(s, i));
    } else {
      TakesIfGrows(s, i);
      OthersPendNothing(BySwapOffset, m, Ops(s, i));
    }
  }
}
