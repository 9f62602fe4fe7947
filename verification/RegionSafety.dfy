/** Stack and heap never meet, the regions of an area never overlap, and growth maps what it claims. */
module RegionSafety {
  import opened Options
  import opened Paging
  import opened RegionScan
  import opened Regions

  // ---------- Invariant ----------

  /** Has the heap ever grown? */
  predicate Touched(s: Space) { s.heapEnd != s.vmemsz - 1 }

  /** Whole pages, and addresses that fit the 22-bit bus, so that page numbers are not cut. */
  predicate GoodSize(vmemsz: nat) { vmemsz % PAGE_SIZE == 0 && PAGE_SIZE <= vmemsz <= 0x40_0000 }

  /** The sizes for which the product of the overlap test does not overflow. */
  const SMALL_SPACE := 46340

  ghost predicate Limits(s: Space) { GoodSize(s.vmemsz) && Layout(s) }

  /** The stack's limit and break, and the heap's, are where they belong. */
  ghost predicate Layout(s: Space) {
    && s.stackBrk <= s.stackEnd <= s.vmemsz && s.stackEnd % PAGE_SIZE == 0
    && (if Touched(s) then s.heapEnd % PAGE_SIZE == 0 && s.stackEnd <= s.heapEnd <= s.heapBrk <= s.vmemsz - 2
        else s.heapBrk == s.vmemsz - 1)
  }

  /** Does the region lie in the used part of its area? */
  ghost predicate InUse(s: Space, a: Area, r: Region) {
    if a.Stack? then Hi(a, r) < s.stackBrk else s.heapBrk <= Lo(a, r) && Hi(a, r) < s.vmemsz
  }

  ghost predicate Live(s: Space, i: nat, a: Area) {
    i < |s.syms| && s.syms[i].area == a && Real(s.syms[i].region)
  }

  /** Real free regions and live symbol regions of one area are in use and pairwise disjoint. */
  ghost predicate AreaInv(s: Space, a: Area) {
    && AllOriented(a, Free(s, a)) && PairwiseDisjoint(a, Free(s, a))
    && (forall i :: 0 <= i < |Free(s, a)| && Real(Free(s, a)[i]) ==> InUse(s, a, Free(s, a)[i]))
    && (forall i: nat :: Live(s, i, a) ==>
          Oriented(a, s.syms[i].region) && InUse(s, a, s.syms[i].region) && Clear(a, s.syms[i].region, Free(s, a)))
    && (forall i: nat, j: nat :: Live(s, i, a) && Live(s, j, a) && i != j ==>
          Disjoint(a, s.syms[i].region, s.syms[j].region))
  }

  /** Mapped pages belong to one area or the other, and the stack's pages are all mapped. */
  ghost predicate PagesInv(s: Space) {
    && (forall p: nat :: p in s.mapped ==>
          p * PAGE_SIZE < s.stackEnd || (Touched(s) && s.heapEnd <= p * PAGE_SIZE < s.vmemsz))
    && (forall p: nat :: p * PAGE_SIZE < s.stackEnd ==> p in s.mapped)
  }

  /** All pages the heap claims are mapped. */
  ghost predicate HeapMapped(s: Space) {
    Touched(s) ==> forall p: nat :: s.heapEnd <= p * PAGE_SIZE < s.vmemsz ==> p in s.mapped
  }

  ghost predicate Inv(s: Space) {
    Limits(s) && |s.syms| == SYMBOLS && AreaInv(s, Stack) && AreaInv(s, Heap) && PagesInv(s)
  }

  lemma FreshInv(vmemsz: nat)
    requires GoodSize(vmemsz)
    ensures Inv(Fresh(vmemsz)) && HeapMapped(Fresh(vmemsz))
  {
  }

  /** No byte and no page is both the stack's and the heap's. */
  lemma AreasApart(s: Space, r: Region, q: Region)
    requires Inv(s) && Real(q) && Oriented(Stack, r) && Oriented(Heap, q) && InUse(s, Stack, r) && InUse(s, Heap, q)
    ensures Hi(Stack, r) < Lo(Heap, q)
    ensures Hi(Stack, r) / PAGE_SIZE < Lo(Heap, q) / PAGE_SIZE
  {
    assert Touched(s);
    assert Hi(Stack, r) < s.stackEnd <= s.heapEnd <= Lo(Heap, q);
  }

  // ---------- The overlap test ----------

  lemma Wrap32Small(p: int)
    requires -0x8000_0000 <= p < 0x8000_0000
    ensures Wrap32(p) == p
  {
  }

  lemma ProductMonotone(x: nat, y: nat, x': nat, y': nat)
    requires x <= x' && y <= y'
    ensures 0 <= x * y <= x' * y'
  {
    assert 0 <= x * y <= x' * y by { assert (x' - x) * y == x' * y - x * y; }
    assert x' * y <= x' * y' by { assert x' * (y' - y) == x' * y' - x' * y; }
  }

  /** For factors of this size the sign of the 32-bit product is the product of the signs. */
  lemma SignProduct(x: int, y: int)
    requires 0 < x <= 46340 && -46340 <= y <= 46340
    ensures Wrap32(x * y) >= 0 <==> y >= 0
    ensures Wrap32(-x * y) >= 0 <==> y <= 0
  {
    var q := if y < 0 then -y else y;
    ProductMonotone(x, q, 46340, 46340);
    if q > 0 { ProductMonotone(1, 1, x, q); } else { assert x * q == 0; }
    assert x * y == if y < 0 then -(x * q) else x * q;
    assert -x * y == -(x * y);
    Wrap32Small(x * y);
    Wrap32Small(-x * y);
  }

  /** Does the range a growth asks for reach into the other area? */
  ghost predicate RunsInto(s: Space, a: Area, size: nat) {
    if a.Stack? then Touched(s) && Target(s, a, size) > s.heapEnd else Target(s, a, size) < s.stackEnd
  }

  /** What the sign-product test decides, in terms of addresses. */
  lemma OverlapMeaning(s: Space, a: Area, size: nat)
    requires Limits(s) && s.vmemsz <= SMALL_SPACE && !OutOfAddresses(s, a, size) && NeedsGrowth(s, a, size)
    ensures Overlaps(s, a, Brk(s, a), Target(s, a, size)) <==> RunsInto(s, a, size)
  {
    if a.Stack? {
      if Touched(s) { SignProduct(s.vmemsz - 1 - s.stackBrk, Target(s, a, size) - s.heapEnd); }
    } else if s.heapBrk > 0 {
      SignProduct(s.heapBrk, Target(s, a, size) - s.stackEnd);
    }
  }

  // ---------- Where the overlap test overflows ----------

  /** The product whose sign the test looks at. */
  function OverlapProduct(s: Space, a: Area, size: nat): int {
    if a.Stack? then (s.vmemsz - 1 - s.stackBrk) * (Target(s, a, size) - s.heapEnd)
    else s.heapBrk * (s.stackEnd - Target(s, a, size))
  }

  /** The 32-bit product is negative exactly when the product lies in an odd multiple of 2^31. */
  lemma Wrap32Sign(p: int)
    ensures Wrap32(p) >= 0 <==> p / 0x8000_0000 % 2 == 0
  {
    var q, r := p / 0x8000_0000, p % 0x8000_0000;
    assert p == 0x8000_0000 * q + r;
    if q % 2 == 0 {
      assert p + 0x8000_0000 == 0x1_0000_0000 * (q / 2) + (r + 0x8000_0000);
    } else {
      assert p + 0x8000_0000 == 0x1_0000_0000 * (q / 2 + 1) + r;
    }
  }

  /** Is there something in the other area that the range does not just touch? */
  ghost predicate Comparable(s: Space, a: Area, size: nat) {
    if a.Stack? then Touched(s) && Target(s, a, size) != s.heapEnd
    else s.stackEnd != 0 && Target(s, a, size) != s.stackEnd
  }

  /** The test looks at one bit of the product. */
  lemma OverlapBit(s: Space, a: Area, size: nat)
    ensures Overlaps(s, a, Brk(s, a), Target(s, a, size)) <==>
              Comparable(s, a, size) && OverlapProduct(s, a, size) / 0x8000_0000 % 2 == 0
  {
    Wrap32Sign(OverlapProduct(s, a, size));
    if a.Heap? {
      assert (0 - s.heapBrk) * (Target(s, a, size) - s.stackEnd) == OverlapProduct(s, a, size);
    }
  }

  lemma ProductSign(x: int, y: int)
    requires x > 0
    ensures x * y >= 0 <==> y >= 0
  {
  }

  /** The sign of the whole product tells whether the range reaches into the other area. */
  lemma ProductTells(s: Space, a: Area, size: nat)
    requires Layout(s) && !OutOfAddresses(s, a, size) && NeedsGrowth(s, a, size) && Comparable(s, a, size)
    ensures OverlapProduct(s, a, size) >= 0 <==> RunsInto(s, a, size)
  {
    if a.Stack? {
      ProductSign(s.vmemsz - 1 - s.stackBrk, Target(s, a, size) - s.heapEnd);
    } else {
      ProductSign(s.heapBrk, s.stackEnd - Target(s, a, size));
    }
  }

  /** In address spaces of any size the test is right about a request exactly if the sign of the product survives
      its being cut to 32 bits. */
  lemma OverlapTestIff(s: Space, a: Area, size: nat)
    requires Layout(s) && !OutOfAddresses(s, a, size) && NeedsGrowth(s, a, size)
    ensures (Overlaps(s, a, Brk(s, a), Target(s, a, size)) <==> RunsInto(s, a, size)) <==>
            (Comparable(s, a, size) ==>
               (OverlapProduct(s, a, size) / 0x8000_0000 % 2 == 0 <==> OverlapProduct(s, a, size) >= 0))
  {
    OverlapBit(s, a, size);
    if Comparable(s, a, size) { ProductTells(s, a, size); }
  }

  /** The test is right in every state and about every request. */
  ghost predicate OverlapTestRight(vmemsz: nat) {
    forall s: Space, a: Area, size: nat ::
      s.vmemsz == vmemsz && Layout(s) && !OutOfAddresses(s, a, size) && NeedsGrowth(s, a, size) ==>
        (Overlaps(s, a, Brk(s, a), Target(s, a, size)) <==> RunsInto(s, a, size))
  }

  /** An address space whose stack has been given all of it, by one request. */
  ghost function AllStack(vmemsz: nat): Space
    requires vmemsz >= 2
  {
    Alloc(Fresh(vmemsz), Stack, 0, vmemsz, true).s
  }

  /** A list of one node with start == end serves no request. */
  lemma NothingInEmptyNode(a: Area, size: nat, x: nat)
    requires size >= 2
    ensures Search(a, size, [Region(x, x)]) == Scan([Region(x, x)], 1, None)
  {
    var scan := Scan([Region(x, x)], 0, None);
    assert Next(a, size, scan) == scan.(it := 1);
    assert Finish(a, size, scan.(it := 1)) == scan.(it := 1);
  }

  lemma AllStackLayout(vmemsz: nat)
    requires vmemsz >= PAGE_SIZE && vmemsz % PAGE_SIZE == 0
    ensures var s := AllStack(vmemsz);
            && s.vmemsz == vmemsz && Layout(s) && s.stackEnd == vmemsz && s.heapBrk == s.heapEnd == vmemsz - 1
            && !Refuses(Fresh(vmemsz), Stack, vmemsz)
  {
    NothingInEmptyNode(Stack, vmemsz, 0);
  }

  /** The smallest multiple of `h` that is not below `p`. */
  lemma MultipleAbove(h: nat, p: nat) returns (k: nat)
    requires 0 < h < p
    ensures p <= h * k < p + h && k >= 2
  {
    k := p / h;
    assert h * k <= p < h * k + h;
    if h * k < p {
      k := k + 1;
      assert h * (k - 1) + h == h * k;
    }
    assert k <= 1 ==> h * k <= h;
  }

  lemma FactorBound(h: nat, k: nat, p: nat)
    requires h * k < p + h && p <= h * h
    ensures k <= h
  {
    assert h * k == h * h + h * (k - h);
    assert k - h >= 1 ==> h * (k - h) >= h;
  }

  /** In every larger address space, up to 2^31 bytes, once the stack has grown to the top there is a heap request
      that lies entirely inside the stack and gets past the test. */
  lemma OverlapTestOverflows(vmemsz: nat) returns (size: nat)
    requires vmemsz % PAGE_SIZE == 0 && 46340 < vmemsz <= 0x8000_0000
    ensures var s := AllStack(vmemsz);
            && Layout(s) && size >= 1 && !OutOfAddresses(s, Heap, size) && NeedsGrowth(s, Heap, size)
            && RunsInto(s, Heap, size) && !Overlaps(s, Heap, Brk(s, Heap), Target(s, Heap, size))
  {
    var h := vmemsz - 1;
    AllStackLayout(vmemsz);
    assert h >= 46591;
    ProductMonotone(46591, 46591, h, h);
    var k := MultipleAbove(h, 0x8000_0000);
    FactorBound(h, k, 0x8000_0000);
    size := k - 1;
    var s := AllStack(vmemsz);
    assert OverlapProduct(s, Heap, size) == h * k;
    assert h * k / 0x8000_0000 == 1;
    OverlapBit(s, Heap, size);
  }

  /** Among address spaces of whole pages up to 2^31 bytes, the test is right exactly in those of up to 46340 bytes. */
  lemma OverlapTestRightIff(vmemsz: nat)
    requires vmemsz % PAGE_SIZE == 0 && PAGE_SIZE <= vmemsz <= 0x8000_0000
    ensures OverlapTestRight(vmemsz) <==> vmemsz <= 46340
  {
    if vmemsz <= 46340 {
      forall s: Space, a: Area, size: nat
        | s.vmemsz == vmemsz && Layout(s) && !OutOfAddresses(s, a, size) && NeedsGrowth(s, a, size)
        ensures Overlaps(s, a, Brk(s, a), Target(s, a, size)) <==> RunsInto(s, a, size)
      {
        assert Limits(s);
        OverlapMeaning(s, a, size);
      }
    } else {
      var size := OverlapTestOverflows(vmemsz);
      AllStackLayout(vmemsz);
    }
  }

  /** The smallest such address space: after a stack request for all of its 182 pages, a heap request for
      46591 bytes, all of them the stack's, gets past the test. */
  lemma OverlapTestOverflowsAt182Pages()
    ensures var s := AllStack(46592);
            RunsInto(s, Heap, 46591) && !Refuses(s, Heap, 46591)
  {
    AllStackLayout(46592);
    OverlapBit(AllStack(46592), Heap, 46591);
  }

  // ---------- Limits ----------

  /** A growth that must not be let through: it reaches into the other area, or is one of the heap
      that ends exactly at the stack's limit, whose rounding then claims the stack's last page. */
  ghost predicate Collides(s: Space, a: Area, size: nat) {
    NeedsGrowth(s, a, size) && (RunsInto(s, a, size) || MeetsStack(s, a, size))
  }

  /** A heap growth that ends exactly at the stack's limit. */
  predicate MeetsStack(s: Space, a: Area, size: nat) {
    a.Heap? && NeedsGrowth(s, a, size) && Target(s, a, size) == s.stackEnd
  }

  /** In small address spaces the test lets through no other collision. */
  lemma SmallSpacesCollideIff(s: Space, a: Area, size: nat)
    requires Limits(s) && s.vmemsz <= SMALL_SPACE && !Refuses(s, a, size)
    ensures Collides(s, a, size) <==> MeetsStack(s, a, size)
  {
    if NeedsGrowth(s, a, size) { OverlapMeaning(s, a, size); }
  }

  /** Rounding up does not cross a page boundary above. */
  lemma AlignBelow(x: nat, e: nat)
    requires x <= e && e % PAGE_SIZE == 0
    ensures Align(x) <= e
  {
    assert (Align(x) - e) % PAGE_SIZE == 0;
  }

  lemma StackGrowthKeepsLimitsIff(s: Space, size: nat)
    requires Limits(s) && size >= 2 && !OutOfAddresses(s, Stack, size)
    ensures Limits(MoveBreak(Grow(s, Stack, size), Stack, size)) <==> !Collides(s, Stack, size)
  {
    if NeedsGrowth(s, Stack, size) {
      AlignBelow(Target(s, Stack, size), s.vmemsz);
      if Touched(s) && Target(s, Stack, size) <= s.heapEnd { AlignBelow(Target(s, Stack, size), s.heapEnd); }
    }
  }

  lemma HeapGrowthKeepsLimitsIff(s: Space, size: nat)
    requires Limits(s) && size >= 2 && !OutOfAddresses(s, Heap, size)
    ensures Limits(MoveBreak(Grow(s, Heap, size), Heap, size)) <==> !Collides(s, Heap, size)
  {
    if NeedsGrowth(s, Heap, size) {
      var t, e := Target(s, Heap, size), GrownEnd(s, Heap, size);
      assert t <= s.stackEnd ==> e < s.stackEnd;
      assert t > s.stackEnd ==> e >= s.stackEnd;
    }
  }

  /** A request keeps the two areas apart exactly when it does not collide. */
  lemma GrowthKeepsLimitsIff(s: Space, a: Area, size: nat)
    requires Limits(s) && size >= 2 && !OutOfAddresses(s, a, size)
    ensures Limits(MoveBreak(Grow(s, a, size), a, size)) <==> !Collides(s, a, size)
  {
    if a.Stack? { StackGrowthKeepsLimitsIff(s, size); } else { HeapGrowthKeepsLimitsIff(s, size); }
  }

  /** The first and last byte two regions share, if they share any. */
  ghost predicate Shares(a: Area, r: Region, b: Area, q: Region, lo: nat, hi: nat) {
    && Lo(a, r) <= lo <= hi <= Hi(a, r) && Lo(b, q) <= lo <= hi <= Hi(b, q)
    && (lo == Lo(a, r) || lo == Lo(b, q)) && (hi == Hi(a, r) || hi == Hi(b, q))
  }

  /** What a heap growth that ends at the stack's limit leads to: the next heap request that fits the page the two
      areas then both claim is not even tested, and it takes bytes of the stack exactly if it is larger than what
      the stack has left of that page. */
  lemma AfterMeeting(s: Space, size: nat, n: nat)
    requires Limits(s) && size >= 2 && !OutOfAddresses(s, Heap, size) && MeetsStack(s, Heap, size)
    requires var s1 := MoveBreak(Grow(s, Heap, size), Heap, size);
             n >= 2 && s1.stackEnd > 0 && s1.heapBrk - n >= s1.stackEnd - PAGE_SIZE
    ensures var s1 := MoveBreak(Grow(s, Heap, size), Heap, size);
            && s1.heapEnd == s1.stackEnd - PAGE_SIZE
            && !Refuses(s1, Heap, n) && !NeedsGrowth(s1, Heap, n)
            && Lo(Heap, AtBreak(s1, Heap, n)) == s1.heapBrk - n
            && (Lo(Heap, AtBreak(s1, Heap, n)) < s1.stackBrk <==> n > s1.heapBrk - s1.stackBrk)
  {
    var s1 := MoveBreak(Grow(s, Heap, size), Heap, size);
    AlignPages(s.stackEnd, s.stackEnd / PAGE_SIZE, 0);
    assert s1.heapBrk != s1.vmemsz - 1;
  }

  /** A run in which it happens: in 512 bytes, 200 on the stack, 255 on the heap, then 100 on the heap. All three are
      accepted, and bytes 157 to 199 belong to two variables. */
  lemma AreasCollide() returns (s1: Space, s2: Space, s3: Space)
    ensures Alloc(Fresh(512), Stack, 0, 200, true) == AtBrk(s1, Region(0, 199))
    ensures |s1.syms| == SYMBOLS && AllOriented(Heap, s1.heapFree) && MeetsStack(s1, Heap, 255)
    ensures Alloc(s1, Heap, 1, 255, true) == AtBrk(s2, Region(511, 257))
    ensures |s2.syms| == SYMBOLS && AllOriented(Heap, s2.heapFree)
    ensures Alloc(s2, Heap, 2, 100, true) == AtBrk(s3, Region(256, 157))
    ensures |s3.syms| == SYMBOLS
    ensures s3.syms[0] == Symbol(Stack, Region(0, 199)) && s3.syms[2] == Symbol(Heap, Region(256, 157))
    ensures Shares(Stack, s3.syms[0].region, Heap, s3.syms[2].region, 157, 199)
  {
    var s0 := Fresh(512);
    NothingInEmptyNode(Stack, 200, 0);
    s1 := Alloc(s0, Stack, 0, 200, true).s;
    NothingInEmptyNode(Heap, 255, 511);
    s2 := Alloc(s1, Heap, 1, 255, true).s;
    NothingInEmptyNode(Heap, 100, 511);
    s3 := Alloc(s2, Heap, 2, 100, true).s;
  }

  // ---------- Regions ----------

  /** Taking a region clear of everything live and free keeps the area in order. */
  lemma TakeKeepsArea(s: Space, r: Space, a: Area, rgid: nat, g: Region)
    requires AreaInv(s, a) && rgid < |s.syms| && Oriented(a, g) && InUse(r, a, g)
    requires AllOriented(a, Free(r, a)) && PairwiseDisjoint(a, Free(r, a)) && Shrunk(a, Free(r, a), Free(s, a))
    requires Clear(a, g, Free(r, a)) && r.syms == s.syms[rgid := Symbol(a, g)]
    requires forall q :: InUse(s, a, q) ==> InUse(r, a, q)
    requires forall i: nat :: Live(s, i, a) ==> Disjoint(a, g, s.syms[i].region)
    ensures AreaInv(r, a)
  {
    forall i | 0 <= i < |Free(r, a)| && Real(Free(r, a)[i]) ensures InUse(r, a, Free(r, a)[i]) {
      assert InsideSome(a, Free(r, a)[i], Free(s, a));
      var k :| 0 <= k < |Free(s, a)| && Real(Free(s, a)[k]) && Inside(a, Free(r, a)[i], Free(s, a)[k]);
      assert InUse(s, a, Free(r, a)[i]);
    }
    forall i: nat | Live(r, i, a)
      ensures Oriented(a, r.syms[i].region) && InUse(r, a, r.syms[i].region) && Clear(a, r.syms[i].region, Free(r, a))
    {
      if i != rgid {
        assert Live(s, i, a);
        ClearOfShrunk(a, s.syms[i].region, Free(r, a), Free(s, a));
      }
    }
    forall i: nat, j: nat | Live(r, i, a) && Live(r, j, a) && i != j
      ensures Disjoint(a, r.syms[i].region, r.syms[j].region)
    {
      assert i != rgid ==> Live(s, i, a);
      assert j != rgid ==> Live(s, j, a);
    }
  }

  lemma ClearOfShrunk(a: Area, r: Region, after: seq<Region>, before: seq<Region>)
    requires Clear(a, r, before) && Shrunk(a, after, before) && AllOriented(a, after)
    ensures Clear(a, r, after)
  {
    forall i | 0 <= i < |after| && Real(after[i]) ensures Disjoint(a, r, after[i]) {
      assert InsideSome(a, after[i], before);
      var j :| 0 <= j < |before| && Real(before[j]) && Inside(a, after[i], before[j]);
    }
  }

  /** The other area only loses a symbol. */
  lemma OtherAreaKept(s: Space, r: Space, b: Area, rgid: nat, sym: Symbol)
    requires AreaInv(s, b) && rgid < |s.syms| && r.syms == s.syms[rgid := sym] && (sym.area != b || !Real(sym.region))
    requires Free(r, b) == Free(s, b) && Brk(r, b) == Brk(s, b) && r.vmemsz == s.vmemsz
    ensures AreaInv(r, b)
  {
    forall i: nat ensures Live(r, i, b) ==> Live(s, i, b) && r.syms[i] == s.syms[i] { }
  }

  function Other(a: Area): Area { if a.Stack? then Heap else Stack }

  /** A reused region was free, so it is clear of everything live. */
  lemma ReusedClearOfLive(s: Space, a: Area, size: nat, g: Region, i: nat)
    requires AreaInv(s, a) && CarvedFrom(a, size, g, Free(s, a)) && Live(s, i, a)
    ensures Disjoint(a, g, s.syms[i].region) && InUse(s, a, g)
  {
    var k :| 0 <= k < |Free(s, a)| && Real(Free(s, a)[k]) && Inside(a, g, Free(s, a)[k]);
  }

  lemma ReuseKeepsInv(s: Space, a: Area, rgid: nat, size: nat, canMap: bool)
    requires Inv(s) && size >= 2 && rgid < SYMBOLS && Search(a, size, Free(s, a)).found.Some?
    ensures Inv(Alloc(s, a, rgid, size, canMap).s)
  {
    SearchCarves(a, size, Free(s, a));
    var r := Alloc(s, a, rgid, size, canMap).s;
    var g := Search(a, size, Free(s, a)).found.value;
    forall i: nat | Live(s, i, a) ensures Disjoint(a, g, s.syms[i].region) {
      ReusedClearOfLive(s, a, size, g, i);
    }
    assert InUse(s, a, g) by {
      var k :| 0 <= k < |Free(s, a)| && Real(Free(s, a)[k]) && Inside(a, g, Free(s, a)[k]);
    }
    TakeKeepsArea(s, r, a, rgid, g);
    OtherAreaKept(s, r, Other(a), rgid, Symbol(a, g));
  }

  /** A region at the break lies outside everything used so far. */
  lemma AtBreakKeepsAreas(s: Space, r: Space, a: Area, rgid: nat, size: nat)
    requires Inv(s) && size >= 2 && rgid < SYMBOLS && !OutOfAddresses(s, a, size)
    requires r.syms == s.syms[rgid := Symbol(a, AtBreak(s, a, size))] && r.vmemsz == s.vmemsz
    requires r.stackFree == s.stackFree && r.heapFree == s.heapFree
    requires r.stackBrk == MoveBreak(s, a, size).stackBrk && r.heapBrk == MoveBreak(s, a, size).heapBrk
    requires a.Heap? && Touched(s) ==> s.heapBrk > 0
    ensures AreaInv(r, a) && AreaInv(r, Other(a))
  {
    var g := AtBreak(s, a, size);
    ShrunkSelf(a, Free(s, a));
    forall q | InUse(s, a, q) ensures InUse(r, a, q) { }
    forall i: nat | Live(s, i, a) ensures Disjoint(a, g, s.syms[i].region) { }
    TakeKeepsArea(s, r, a, rgid, g);
    OtherAreaKept(s, r, Other(a), rgid, Symbol(a, g));
  }

  // ---------- Pages ----------

  /** A stack growth maps exactly the pages between the old limit and the new one. */
  lemma StackGrowthExact(s: Space, size: nat, p: nat)
    requires Limits(s) && !OutOfAddresses(s, Stack, size) && NeedsGrowth(s, Stack, size)
    ensures p in GrowthPages(s, Stack, size) <==> s.stackEnd <= p * PAGE_SIZE < GrownEnd(s, Stack, size)
  {
  }

  /** When a heap growth maps all it claims. */
  predicate HeapGrowthClean(s: Space, size: nat) {
    Target(s, Heap, size) % PAGE_SIZE != 0 && (!Touched(s) ==> size % PAGE_SIZE != 0)
  }

  /** A heap growth maps pages of the claimed range only, and all of them exactly when the target is not on a page
      boundary and a first block is not a whole number of pages. Otherwise the lowest page stays unmapped. */
  lemma HeapGrowthExactIff(s: Space, size: nat)
    requires Limits(s) && size >= 1 && NeedsGrowth(s, Heap, size) && Target(s, Heap, size) > 0
    ensures forall p: nat :: p in GrowthPages(s, Heap, size) ==> GrownEnd(s, Heap, size) <= p * PAGE_SIZE < s.heapEnd
    ensures (forall p: nat :: GrownEnd(s, Heap, size) <= p * PAGE_SIZE < s.heapEnd ==> p in GrowthPages(s, Heap, size))
            <==> HeapGrowthClean(s, size)
  {
    var lowest := GrownEnd(s, Heap, size) / PAGE_SIZE;
    assert lowest * PAGE_SIZE == GrownEnd(s, Heap, size);
    assert lowest in GrowthPages(s, Heap, size) <==> HeapGrowthClean(s, size) by {
      LowestPageIff(s, size);
    }
  }

  /** Rounding up to pages, counted in pages. */
  lemma AlignPages(x: nat, q: nat, r: nat)
    requires x == PAGE_SIZE * q + r && r < PAGE_SIZE
    ensures Align(x) == PAGE_SIZE * (if r == 0 then q else q + 1)
  {
  }

  lemma LowestPageIff(s: Space, size: nat)
    requires Limits(s) && size >= 1 && NeedsGrowth(s, Heap, size) && Target(s, Heap, size) > 0
    ensures FirstPage(s, Heap) - PageCount(s, Heap, size) ==
            GrownEnd(s, Heap, size) / PAGE_SIZE - (if HeapGrowthClean(s, size) then 1 else 0)
  {
    if Touched(s) { LowestPageLater(s, size); } else { LowestPageFirst(s, size); }
  }

  lemma LowestPageLater(s: Space, size: nat)
    requires Limits(s) && Touched(s) && NeedsGrowth(s, Heap, size) && Target(s, Heap, size) > 0
    ensures FirstPage(s, Heap) - PageCount(s, Heap, size) ==
            GrownEnd(s, Heap, size) / PAGE_SIZE - (if Target(s, Heap, size) % PAGE_SIZE != 0 then 1 else 0)
  {
    var t := Target(s, Heap, size);
    var q, r, h := t / PAGE_SIZE, t % PAGE_SIZE, s.heapEnd / PAGE_SIZE;
    AlignPages(t, q, r);
    if r == 0 { AlignPages(s.heapEnd - t, h - q, 0); } else { AlignPages(s.heapEnd - t, h - q - 1, PAGE_SIZE - r); }
  }

  lemma LowestPageFirst(s: Space, size: nat)
    requires Limits(s) && !Touched(s) && size >= 1 && Target(s, Heap, size) > 0
    ensures FirstPage(s, Heap) - PageCount(s, Heap, size) ==
            GrownEnd(s, Heap, size) / PAGE_SIZE - (if HeapGrowthClean(s, size) then 1 else 0)
  {
    var t := Target(s, Heap, size);
    var q, r, w := size / PAGE_SIZE, size % PAGE_SIZE, s.vmemsz / PAGE_SIZE;
    AlignPages(size, q, r);
    assert t == PAGE_SIZE * (w - q - 1) + (PAGE_SIZE - 1 - r);
    AlignPages(t, w - q - 1, PAGE_SIZE - 1 - r);
  }

  /** A first heap block of 512 bytes claims three pages and maps two. */
  lemma TwoPagesOfThree(vmemsz: nat)
    requires GoodSize(vmemsz) && vmemsz >= 3 * PAGE_SIZE
    ensures var s := Fresh(vmemsz);
            && !Refuses(s, Heap, 512) && NeedsGrowth(s, Heap, 512) && GrownEnd(s, Heap, 512) == vmemsz - 768
            && FirstPage(s, Heap) == vmemsz / PAGE_SIZE - 1 && PageCount(s, Heap, 512) == 2
  {
    AlignPages(512, 2, 0);
    AlignPages(vmemsz - 513, vmemsz / PAGE_SIZE - 3, PAGE_SIZE - 1);
  }

  /** A run in which it happens, in any address space of three pages or more: 512 bytes on the heap, then 256. The
      second region lies on a page that is not mapped. */
  lemma RegionOnUnmappedPage(vmemsz: nat) returns (s1: Space, s2: Space)
    requires GoodSize(vmemsz) && vmemsz >= 3 * PAGE_SIZE
    ensures Alloc(Fresh(vmemsz), Heap, 1, 512, true) == AtBrk(s1, Region(vmemsz - 1, vmemsz - 512))
    ensures |s1.syms| == SYMBOLS && AllOriented(Heap, s1.heapFree)
    ensures Alloc(s1, Heap, 2, 256, true) == AtBrk(s2, Region(vmemsz - 513, vmemsz - 768))
    ensures vmemsz / PAGE_SIZE - 3 !in s2.mapped
    ensures forall x :: vmemsz - 768 <= x <= vmemsz - 513 ==> x / PAGE_SIZE == vmemsz / PAGE_SIZE - 3
  {
    NothingInEmptyNode(Heap, 512, vmemsz - 1);
    TwoPagesOfThree(vmemsz);
    s1 := Alloc(Fresh(vmemsz), Heap, 1, 512, true).s;
    NothingInEmptyNode(Heap, 256, vmemsz - 1);
    s2 := Alloc(s1, Heap, 2, 256, true).s;
  }

  lemma StackGrowthKeepsPages(s: Space, size: nat)
    requires Limits(s) && PagesInv(s) && !OutOfAddresses(s, Stack, size) && NeedsGrowth(s, Stack, size)
    requires Limits(MoveBreak(Grow(s, Stack, size), Stack, size)) && size >= 2
    ensures PagesInv(Grow(s, Stack, size)) && GrowthPages(s, Stack, size) !! s.mapped
    ensures HeapMapped(s) ==> HeapMapped(Grow(s, Stack, size))
  {
    forall p: nat ensures p in GrowthPages(s, Stack, size) <==> s.stackEnd <= p * PAGE_SIZE < GrownEnd(s, Stack, size) {
      StackGrowthExact(s, size, p);
    }
  }

  lemma HeapGrowthKeepsPages(s: Space, size: nat)
    requires Limits(s) && PagesInv(s) && !OutOfAddresses(s, Heap, size) && NeedsGrowth(s, Heap, size)
    requires Limits(MoveBreak(Grow(s, Heap, size), Heap, size)) && size >= 2
    ensures PagesInv(Grow(s, Heap, size)) && GrowthPages(s, Heap, size) !! s.mapped
    ensures HeapMapped(s) && HeapGrowthClean(s, size) ==> HeapMapped(Grow(s, Heap, size))
  {
    assert Touched(Grow(s, Heap, size));
    HeapGrowthExactIff(s, size);
  }

  /** The pages of a growth were not mapped before, and afterwards the page table is in order. */
  lemma GrowthKeepsPages(s: Space, a: Area, size: nat)
    requires Limits(s) && PagesInv(s) && size >= 2 && !OutOfAddresses(s, a, size) && NeedsGrowth(s, a, size)
    requires Limits(MoveBreak(Grow(s, a, size), a, size))
    ensures PagesInv(Grow(s, a, size))
    ensures GrowthPages(s, a, size) !! s.mapped
    ensures HeapMapped(s) && (a.Heap? ==> HeapGrowthClean(s, size)) ==> HeapMapped(Grow(s, a, size))
  {
    if a.Stack? { StackGrowthKeepsPages(s, size); } else { HeapGrowthKeepsPages(s, size); }
  }

  /** The pages of an accepted growth have numbers from 0 on. */
  lemma GrowthPagesExist(s: Space, a: Area, size: nat)
    requires Limits(s) && size >= 2 && !Refuses(s, a, size) && NeedsGrowth(s, a, size) && !Collides(s, a, size)
    ensures FirstPage(s, a) >= 0 && (a.Heap? ==> PageCount(s, a, size) <= FirstPage(s, a) + 1)
  {
    if a.Heap? {
      HeapGrowthKeepsLimitsIff(s, size);
      LowestPageIff(s, size);
    }
  }

  /** After a failed growth the stack's limit is back where it was exactly when the request was a whole
      number of pages that all had to be mapped. */
  lemma FailedGrowthRestoresIff(s: Space, size: nat)
    requires Limits(s) && !OutOfAddresses(s, Stack, size) && NeedsGrowth(s, Stack, size)
    ensures FailedEnd(s, Stack, size) == s.stackEnd <==> size == PAGE_SIZE * PageCount(s, Stack, size)
  {
    var t := Target(s, Stack, size);
    assert Align(t - s.stackEnd) == Align(t) - s.stackEnd by {
      AlignPages(t, t / PAGE_SIZE, t % PAGE_SIZE);
      AlignPages(t - s.stackEnd, t / PAGE_SIZE - s.stackEnd / PAGE_SIZE, t % PAGE_SIZE);
    }
  }

  /** A failed first growth of the heap never leaves its limit where it was; a later one does exactly when the
      request is a whole number of pages and the heap had one page or less, but not nothing, between break and limit. */
  lemma FailedHeapGrowthRestoresIff(s: Space, size: nat)
    requires Limits(s) && !OutOfAddresses(s, Heap, size) && NeedsGrowth(s, Heap, size)
    ensures FailedEnd(s, Heap, size) == s.heapEnd <==>
              Touched(s) && size % PAGE_SIZE == 0 && 0 < s.heapBrk - s.heapEnd <= PAGE_SIZE
  {
  }

  // ---------- Requests ----------

  /** Requests the guarantees cover: two bytes or more, no wrap in the heap's search, and
      if let through no growth that collides with the other area. */
  ghost predicate Covered(s: Space, a: Area, rgid: nat, size: nat)
    requires Inv(s)
  {
    && rgid < SYMBOLS && size >= 2
    && (a.Heap? ==> NeverWraps(size, Scan(s.heapFree, 0, None)))
    && (Search(a, size, Free(s, a)).found.None? && !Refuses(s, a, size) ==> !Collides(s, a, size))
  }

  lemma AtBreakKeepsInv(s: Space, a: Area, rgid: nat, size: nat)
    requires Inv(s) && size >= 2 && rgid < SYMBOLS && !Refuses(s, a, size) && !Collides(s, a, size)
    ensures Inv(SetSymbol(MoveBreak(Grow(s, a, size), a, size), rgid, Symbol(a, AtBreak(s, a, size))))
  {
    var r := SetSymbol(MoveBreak(Grow(s, a, size), a, size), rgid, Symbol(a, AtBreak(s, a, size)));
    GrowthKeepsLimitsIff(s, a, size);
    if NeedsGrowth(s, a, size) { GrowthKeepsPages(s, a, size); }
    AtBreakKeepsAreas(s, r, a, rgid, size);
  }

  lemma AllocKeepsInv(s: Space, a: Area, rgid: nat, size: nat)
    requires Inv(s) && Covered(s, a, rgid, size)
    ensures Inv(Alloc(s, a, rgid, size, true).s)
  {
    SearchCarves(a, size, Free(s, a));
    if Search(a, size, Free(s, a)).found.Some? {
      ReuseKeepsInv(s, a, rgid, size, true);
    } else if !Refuses(s, a, size) {
      AtBreakKeepsInv(s, a, rgid, size);
    }
  }

  lemma AllocKeepsHeapMapped(s: Space, a: Area, rgid: nat, size: nat)
    requires Inv(s) && Covered(s, a, rgid, size) && HeapMapped(s)
    requires a.Heap? && NeedsGrowth(s, a, size) ==> HeapGrowthClean(s, size)
    ensures HeapMapped(Alloc(s, a, rgid, size, true).s)
  {
    SearchCarves(a, size, Free(s, a));
    if Search(a, size, Free(s, a)).found.None? && !Refuses(s, a, size) && NeedsGrowth(s, a, size) {
      GrowthKeepsLimitsIff(s, a, size);
      GrowthKeepsPages(s, a, size);
    }
  }

  /** A freed region joins the free list of its area. */
  lemma FreeKeepsArea(s: Space, r: Space, a: Area, rgid: nat)
    requires AreaInv(s, a) && Live(s, rgid, a) && Brk(r, a) == Brk(s, a) && r.vmemsz == s.vmemsz
    requires r.syms == s.syms[rgid := Symbol(a, Region(0, 0))]
    requires Free(r, a) == [s.syms[rgid].region] + Free(s, a)
    ensures AreaInv(r, a)
  {
    var g, f, f' := s.syms[rgid].region, Free(s, a), Free(r, a);
    assert f'[1..] == f;
    forall i: nat | Live(r, i, a) ensures Live(s, i, a) && i != rgid && r.syms[i] == s.syms[i] { }
    forall i: nat | Live(r, i, a) ensures Clear(a, r.syms[i].region, f') {
      forall k | 0 <= k < |f'| && Real(f'[k]) ensures Disjoint(a, r.syms[i].region, f'[k]) {
        if k > 0 { assert f'[k] == f[k - 1]; }
      }
    }
    forall i, j | 0 <= i < j < |f'| && Real(f'[i]) && Real(f'[j]) ensures Disjoint(a, f'[i], f'[j]) {
      assert f'[j] == f[j - 1];
      if i > 0 { assert f'[i] == f[i - 1]; }
    }
  }

  lemma FreeKeepsInv(s: Space, rgid: nat)
    requires Inv(s) && rgid < SYMBOLS
    ensures Inv(FreeSymbol(s, rgid))
  {
    var sym, r := s.syms[rgid], FreeSymbol(s, rgid);
    if Real(sym.region) {
      assert Live(s, rgid, sym.area);
      OtherAreaKept(s, r, Other(sym.area), rgid, Symbol(sym.area, Region(0, 0)));
      FreeKeepsArea(s, r, sym.area, rgid);
    }
  }

  // ---------- Runs ----------

  datatype Request = AllocRequest(area: Area, rgid: nat, size: nat) | FreeRequest(rgid: nat)

  ghost predicate Allowed(s: Space, q: Request)
    requires Inv(s)
  {
    match q
    case AllocRequest(a, rgid, size) => Covered(s, a, rgid, size)
    case FreeRequest(rgid) => rgid < SYMBOLS
  }

  ghost function Serve(s: Space, q: Request): Space
    requires Inv(s) && Allowed(s, q)
  {
    match q
    case AllocRequest(a, rgid, size) => Alloc(s, a, rgid, size, true).s
    case FreeRequest(rgid) => FreeSymbol(s, rgid)
  }

  lemma ServeKeepsInv(s: Space, q: Request)
    requires Inv(s) && Allowed(s, q)
    ensures Inv(Serve(s, q))
  {
    match q
    case AllocRequest(a, rgid, size) => AllocKeepsInv(s, a, rgid, size);
    case FreeRequest(rgid) => FreeKeepsInv(s, rgid);
  }

  /** `s` is reached by covered requests. */
  ghost predicate Reaches(vmemsz: nat, qs: seq<Request>, s: Space)
    requires GoodSize(vmemsz)
    decreases |qs|
  {
    if qs == [] then s == Fresh(vmemsz)
    else
      var n := |qs| - 1;
      exists p :: Reaches(vmemsz, qs[..n], p) && Inv(p) && Allowed(p, qs[n]) && s == Serve(p, qs[n])
  }

  lemma {:induction false} ReachableInv(vmemsz: nat, qs: seq<Request>, s: Space)
    requires GoodSize(vmemsz) && Reaches(vmemsz, qs, s)
    ensures Inv(s)
    decreases |qs|
  {
    if qs == [] {
      FreshInv(vmemsz);
    } else {
      var n := |qs| - 1;
      var p :| Reaches(vmemsz, qs[..n], p) && Inv(p) && Allowed(p, qs[n]) && s == Serve(p, qs[n]);
      ServeKeepsInv(p, qs[n]);
    }
  }

  /** Over every run of covered requests: live regions of one area share no byte, with each other or with free
      ones; live regions of different areas share not even a page; and all lie in the used part of their area. */
  lemma RegionsDisjointOverRuns(vmemsz: nat, qs: seq<Request>, s: Space, i: nat, j: nat)
    requires GoodSize(vmemsz) && Reaches(vmemsz, qs, s)
    requires |s.syms| == SYMBOLS && i < SYMBOLS && j < SYMBOLS && i != j
    requires Real(s.syms[i].region) && Real(s.syms[j].region)
    ensures var a, b := s.syms[i].area, s.syms[j].area;
            && (a == b ==> Disjoint(a, s.syms[i].region, s.syms[j].region))
            && (a == Stack && b == Heap ==> Hi(a, s.syms[i].region) / PAGE_SIZE < Lo(b, s.syms[j].region) / PAGE_SIZE)
            && Clear(a, s.syms[i].region, Free(s, a))
            && InUse(s, a, s.syms[i].region)
            && (forall k :: 0 <= k < |Free(s, a)| && Real(Free(s, a)[k]) ==> InUse(s, a, Free(s, a)[k]))
  {
    ReachableInv(vmemsz, qs, s);
    assert Live(s, i, s.syms[i].area) && Live(s, j, s.syms[j].area);
    if s.syms[i].area == Stack && s.syms[j].area == Heap {
      AreasApart(s, s.syms[i].region, s.syms[j].region);
    }
  }
}
