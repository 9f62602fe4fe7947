/**
Fetches of pages that were never mapped. Nothing in src/mm-vm.c keeps a process from them once a heap growth has
claimed a page it does not map; the entry is all zeros, so the fetch takes swap frame 0 for the page.
*/
module UnmappedPages {
  import opened LruSpec
  import opened Paging
  import opened PagingInvariant

  ghost predicate SwapFrameOwned(m: Machine, o: nat) { o in m.swapFree || InSwap(o) in m.table.Values }

  /** A fetch into a free frame takes that frame and no swap frame. */
  lemma FetchIntoFree(d: Decoder, m: Machine, slot: Slot)
    requires Inv(m) && slot !in m.table && m.ramFree != [] && |m.swap| > 0
    ensures var g := GetPage(d, m, slot);
            && g.Ok? && Inv(g.m) && SameContents(m, g.m) && g.m.table[slot] == InRam(m.ramFree[0])
            && g.m.ramFree == m.ramFree[1..] && g.m.swapFree == m.swapFree
  {
    var f := m.ramFree[0];
    assert f in m.ramFree;
    PlaceKeeps(m, slot, f, GetPage(d, m, slot).m);
  }

  lemma PlaceOwnership(m: Machine, slot: Slot, f: nat, r: Machine)
    requires Inv(m) && slot !in m.table && m.ramFree != [] && f == m.ramFree[0] && f < |m.ram|
    requires r.ramFree == m.ramFree[1..] && r.table == m.table[slot := InRam(f)] && r.pending == m.pending
    requires r.swap == m.swap && r.swapFree == m.swapFree && |r.ram| == |m.ram| && r.ram == m.ram[f := r.ram[f]]
    ensures RamOwnership(r) && SwapOwnership(r) && SameContents(m, r)
    ensures Unowned(m.(ramFree := m.ramFree[1..]), f)
  {
    assert f in m.ramFree;
    assert forall h :: h in r.ramFree ==> h in m.ramFree && h != f;
  }

  lemma PlaceKeeps(m: Machine, slot: Slot, f: nat, r: Machine)
    requires Inv(m) && slot !in m.table && m.ramFree != [] && f == m.ramFree[0] && f < |m.ram|
    requires r == m.(ram := r.ram, ramFree := m.ramFree[1..], table := m.table[slot := InRam(f)],
                     lru := Insert(m.lru, Node(slot, f)))
    requires |r.ram| == |m.ram| && r.ram == m.ram[f := r.ram[f]]
    ensures Inv(r) && SameContents(m, r)
  {
    PlaceOwnership(m, slot, f, r);
    ListedAfterInsert(m.(ramFree := m.ramFree[1..]), slot, f);
  }

  /** Without a free frame it evicts a page and gives back swap frame 0, whosever that is. */
  lemma FetchReplaces(d: Decoder, m: Machine, slot: Slot)
    requires slot !in m.table && m.ramFree == [] && CanSwapOut(m)
    ensures GetPage(d, m, slot) == Ok(SwapIn(SwapOut(m), slot, m.lru[0].fpn, 0))
  {
  }

  lemma SwapInForNew(m: Machine, slot: Slot, f: nat)
    requires Inv(m) && Unowned(m, f) && slot !in m.table && m.ramFree == [] && |m.swap| > 0
    ensures var r := SwapIn(m, slot, f, 0);
            SameContents(m, r) && RamOwnership(r) && LruAgrees(r) && RamFullOnceSwapped(r)
  {
    ListedAfterInsert(m, slot, f);
    UnownedIsNobodys(m, slot, f, SwapIn(m, slot, f, 0));
  }

  lemma FetchByReplacing(d: Decoder, m: Machine, slot: Slot)
    requires Inv(m) && slot !in m.table && m.ramFree == [] && m.lru != [] && m.swapFree != []
    ensures var g := GetPage(d, m, slot);
            && CanSwapOut(m) && m.lru[0].slot in m.table && g == Ok(SwapIn(SwapOut(m), slot, m.lru[0].fpn, 0))
            && SameContents(m, g.m) && g.m.table[slot] == InRam(m.lru[0].fpn)
            && RamOwnership(g.m) && LruAgrees(g.m) && RamFullOnceSwapped(g.m)
  {
    SwapOutKeeps(m);
    FetchReplaces(d, m, slot);
    assert m.lru[0].slot in m.table by { assert m.lru[0] in m.lru; }
    SwapInForNew(SwapOut(m), slot, m.lru[0].fpn);
    SameContentsTrans(m, SwapOut(m), GetPage(d, m, slot).m);
  }

  /** Giving an unowned RAM frame to a new page changes no other page. */
  lemma UnownedIsNobodys(m: Machine, slot: Slot, f: nat, r: Machine)
    requires Inv(m) && Unowned(m, f) && slot !in m.table && m.ramFree == []
    requires |r.ram| == |m.ram| && r.ram == m.ram[f := r.ram[f]] && r.swap == m.swap
    requires r.table == m.table[slot := InRam(f)] && r.ramFree == m.ramFree && r.pending == m.pending
    ensures RamOwnership(r) && SameContents(m, r)
  {
  }

  lemma ReplacingKeepsSwapIff(m: Machine, slot: Slot)
    requires Inv(m) && slot !in m.table && m.ramFree == [] && CanSwapOut(m) && m.lru[0].slot in m.table
    ensures SwapOwnership(SwapIn(SwapOut(m), slot, m.lru[0].fpn, 0)) <==> !SwapFrameOwned(m, 0)
  {
    var v, o := m.lru[0], m.swapFree[0];
    var r := SwapIn(SwapOut(m), slot, v.fpn, 0);
    assert v in m.lru && o in m.swapFree;
    assert r.swapFree == [0] + m.swapFree[1..] && r.table[v.slot] == InSwap(o);
    if SwapFrameOwned(m, 0) {
      OwnedTwice(m, r, v, o);
    } else {
      assert forall x :: x in r.swapFree <==> x == 0 || x in m.swapFree[1..];
      assert forall x :: x in m.swapFree[1..] ==> x in m.swapFree && x != o;
    }
  }

  lemma OwnedTwice(m: Machine, r: Machine, v: Node, o: nat)
    requires m.swapFree != [] && o == m.swapFree[0] && SwapFrameOwned(m, 0)
    requires v.slot in m.table && m.table[v.slot].InRam?
    requires r.swapFree == [0] + m.swapFree[1..] && v.slot in r.table && r.table[v.slot] == InSwap(o)
    requires forall t :: t in m.table && t != v.slot && m.table[t].InSwap? ==> t in r.table && r.table[t] == m.table[t]
    ensures !SwapOwnership(r)
  {
    if 0 in m.swapFree && o != 0 {
      var k :| 0 <= k < |m.swapFree| && m.swapFree[k] == 0;
      assert r.swapFree[k] == 0 && r.swapFree[0] == 0;
    } else if o == 0 {
      assert r.swapFree[0] == 0;
    } else {
      var t :| t in m.table && m.table[t] == InSwap(0);
      assert r.table[t] == InSwap(0) && r.swapFree[0] == 0;
    }
  }

  /** What a fetch of a page that was never mapped does. It is undefined exactly for lack of a swap device or of a
      victim; it changes no byte of a mapped page; and ownership of frames survives exactly if it found a free RAM frame
      or nobody owned swap frame 0. */
  lemma UnmappedFetchIff(d: Decoder, m: Machine, slot: Slot)
    requires Inv(m) && slot !in m.table
    ensures var g := GetPage(d, m, slot);
            && (g.Undefined? <==> if m.ramFree == [] then m.lru == [] && m.swapFree != [] else |m.swap| == 0)
            && (g.OutOfSwap? ==> Inv(g.m))
            && (g.Ok? ==>
                  && slot in g.m.table && g.m.table[slot].InRam? && Backed(g.m, slot)
                  && SameContents(m, g.m)
                  && (Inv(g.m) <==> m.ramFree != [] || !SwapFrameOwned(m, 0))
                  && (m.ramFree != [] ==> g.m.ramFree == m.ramFree[1..] && g.m.swapFree == m.swapFree))
  {
    if m.ramFree != [] {
      if |m.swap| > 0 { FetchIntoFree(d, m, slot); }
    } else if m.swapFree == [] {
      DropKeeps(m);
    } else if m.lru != [] {
      FetchByReplacing(d, m, slot);
      ReplacingKeepsSwapIff(m, slot);
    }
  }

  /** With RAM full, what the process then reads there is the page of whoever is in swap frame 0. */
  lemma UnmappedPageShowsAnother(d: Decoder, m: Machine, slot: Slot, other: Slot)
    requires Inv(m) && slot !in m.table && GetPage(d, m, slot).Ok?
    requires other in m.table && m.table[other] == InSwap(0)
    ensures var g := GetPage(d, m, slot).m;
            && Backed(g, slot) && Content(g, slot) == Content(m, other)
            && !SwapOwnership(g)
  {
    UnmappedFetchIff(d, m, slot);
    FetchByReplacing(d, m, slot);
    assert m.swapFree[0] in m.swapFree;
    ReplacingKeepsSwapIff(m, slot);
  }
}
