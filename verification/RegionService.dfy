/** What requests get: when they are served, from where, and what freed regions and breaks are good for afterwards. */
module RegionService {
  import opened Options
  import opened Paging
  import opened RegionScan
  import opened Regions
  import opened RS = RegionSafety

  // ---------- What is handed out ----------

  /** A request that is served gives its symbol a region of exactly the requested size. */
  lemma ServedLength(s: Space, a: Area, rgid: nat, size: nat)
    requires RS.Inv(s) && Covered(s, a, rgid, size) && !Alloc(s, a, rgid, size, true).Refused?
    ensures var res := Alloc(s, a, rgid, size, true);
            && |res.s.syms| == SYMBOLS && res.s.syms[rgid] == Symbol(a, res.r)
            && Real(res.r) && Oriented(a, res.r) && Len(a, res.r) == size
  {
    SearchCarves(a, size, Free(s, a));
    AllocKeepsInv(s, a, rgid, size);
  }

  /** Is the address in the part of the area below its break, seen from where the area starts? */
  ghost predicate UsedAddress(s: Space, a: Area, x: nat) {
    if a.Stack? then x < s.stackBrk else s.heapBrk <= x < s.vmemsz
  }

  /** A request served at the break leaves no gap and gives nothing away twice: the used part of the area grows by
      exactly the region. */
  lemma NoGap(s: Space, a: Area, rgid: nat, size: nat, x: nat)
    requires RS.Inv(s) && Covered(s, a, rgid, size) && Alloc(s, a, rgid, size, true).AtBrk?
    ensures var res := Alloc(s, a, rgid, size, true);
            UsedAddress(res.s, a, x) <==> UsedAddress(s, a, x) || Lo(a, res.r) <= x <= Hi(a, res.r)
  {
    SearchCarves(a, size, Free(s, a));
  }

  /** Beyond the first block of the heap, the region is new altogether. */
  lemma NothingTwice(s: Space, a: Area, rgid: nat, size: nat, x: nat)
    requires RS.Inv(s) && Covered(s, a, rgid, size) && Alloc(s, a, rgid, size, true).AtBrk? && (a.Heap? ==> Touched(s))
    ensures var res := Alloc(s, a, rgid, size, true);
            Lo(a, res.r) <= x <= Hi(a, res.r) ==> !UsedAddress(s, a, x)
  {
    SearchCarves(a, size, Free(s, a));
  }

  /** A request served from the free list moves neither break nor limit. */
  lemma ReuseMovesNothing(s: Space, a: Area, rgid: nat, size: nat)
    requires RS.Inv(s) && Covered(s, a, rgid, size) && Alloc(s, a, rgid, size, true).Reused?
    ensures var r := Alloc(s, a, rgid, size, true).s;
            && r == s.(stackFree := r.stackFree, heapFree := r.heapFree, syms := r.syms)
            && Free(r, Other(a)) == Free(s, Other(a))
            && Free(r, a) == Remainders(a, size, Free(s, a))
  {
    SearchIs(a, size, Free(s, a));
  }

  // ---------- No page too many ----------

  /** The limits are no more than a page beyond the breaks, or one byte more in the heap, whose first block lies
      differently. */
  ghost predicate Tight(s: Space) {
    s.stackEnd < s.stackBrk + PAGE_SIZE && s.heapBrk <= s.heapEnd + PAGE_SIZE + 1
  }

  lemma AllocKeepsTight(s: Space, a: Area, rgid: nat, size: nat)
    requires RS.Inv(s) && Covered(s, a, rgid, size) && Tight(s)
    ensures Tight(Alloc(s, a, rgid, size, true).s)
  {
    if Alloc(s, a, rgid, size, true).Reused? {
      ReuseMovesNothing(s, a, rgid, size);
    } else if Alloc(s, a, rgid, size, true).Refused? {
      RefusedChangesNothing(s, a, rgid, size);
    }
  }

  /** Over every run of covered requests no area claims a page that its break has not reached. */
  lemma {:induction false} LimitsAreTight(vmemsz: nat, qs: seq<Request>, s: Space)
    requires GoodSize(vmemsz) && Reaches(vmemsz, qs, s)
    ensures Tight(s)
    decreases |qs|
  {
    if qs != [] {
      var n := |qs| - 1;
      var p :| Reaches(vmemsz, qs[..n], p) && RS.Inv(p) && Allowed(p, qs[n]) && s == Serve(p, qs[n]);
      LimitsAreTight(vmemsz, qs[..n], p);
      match qs[n]
      case AllocRequest(a, rgid, size) => AllocKeepsTight(p, a, rgid, size);
      case FreeRequest(rgid) => FreeMovesNothing(p, rgid, rgid);
    }
  }

  // ---------- When requests are refused ----------

  /** How far the area may grow: to the other one, or to the end of the address space. */
  function Bound(s: Space, a: Area): int {
    if a.Stack? then (if Touched(s) then s.heapEnd else s.vmemsz) else s.stackEnd
  }

  /** The overlap test is right about the request; `OverlapTestIff` says when that is so. */
  ghost predicate TestedRight(s: Space, a: Area, size: nat) {
    !OutOfAddresses(s, a, size) && NeedsGrowth(s, a, size) ==>
      (Overlaps(s, a, Brk(s, a), Target(s, a, size)) <==> RunsInto(s, a, size))
  }

  /** The break cannot move that far. */
  ghost predicate Beyond(s: Space, a: Area, size: nat) {
    if a.Stack? then s.stackBrk + size > Bound(s, a) else s.heapBrk - size < Bound(s, a)
  }

  lemma RefusesIff(s: Space, a: Area, size: nat)
    requires Limits(s) && size >= 1 && TestedRight(s, a, size)
    ensures Refuses(s, a, size) <==> Beyond(s, a, size)
  {
    if !OutOfAddresses(s, a, size) && NeedsGrowth(s, a, size) {
      assert Overlaps(s, a, Brk(s, a), Target(s, a, size)) <==> RunsInto(s, a, size);
      assert RunsInto(s, a, size) <==> Beyond(s, a, size);
    }
  }

  /** Where the test is right, a request is refused exactly if no free region holds that many bytes and the break cannot
      move that far without passing the other area or the end. */
  lemma RefusedIff(s: Space, a: Area, rgid: nat, size: nat)
    requires RS.Inv(s) && size >= 2 && rgid < SYMBOLS && TestedRight(s, a, size)
    ensures Alloc(s, a, rgid, size, true).Refused? <==> Fitting(a, size, Free(s, a)) == 0 && Beyond(s, a, size)
  {
    SearchLoses(a, size, Free(s, a));
    SearchCarves(a, size, Free(s, a));
    RefusesIff(s, a, size);
    if Search(a, size, Free(s, a)).found.None? {
      assert WithFree(s, a, Search(a, size, Free(s, a)).free) == s;
    }
  }

  lemma SmallSpacesTestRight(s: Space, a: Area, size: nat)
    requires Limits(s) && s.vmemsz <= SMALL_SPACE
    ensures TestedRight(s, a, size)
  {
    if !OutOfAddresses(s, a, size) && NeedsGrowth(s, a, size) { OverlapMeaning(s, a, size); }
  }

  /** A refused request changes nothing. */
  lemma RefusedChangesNothing(s: Space, a: Area, rgid: nat, size: nat)
    requires RS.Inv(s) && size >= 2 && rgid < SYMBOLS && Alloc(s, a, rgid, size, true).Refused?
    ensures Alloc(s, a, rgid, size, true).s == s
  {
    SearchCarves(a, size, Free(s, a));
  }

  // ---------- What becomes of freed regions ----------

  /** A freed region is free: requests it can hold are served from the free list. */
  lemma FreedIsServed(s: Space, rgid: nat, r2: nat, size: nat)
    requires RS.Inv(s) && rgid < SYMBOLS && r2 < SYMBOLS && Real(s.syms[rgid].region)
    requires Oriented(s.syms[rgid].area, s.syms[rgid].region)
    requires 2 <= size <= Len(s.syms[rgid].area, s.syms[rgid].region)
    ensures var a := s.syms[rgid].area;
            AllOriented(a, Free(FreeSymbol(s, rgid), a)) && Alloc(FreeSymbol(s, rgid), a, r2, size, true).Reused?
  {
    var a := s.syms[rgid].area;
    FreeKeepsInv(s, rgid);
    FreedFound(s, rgid, size);
  }

  /** A region at the head of the list is cut up last. */
  lemma HeadFoundLast(a: Area, size: nat, r: Region, free: seq<Region>)
    requires AllOriented(a, [r] + free) && AllOriented(a, free) && size >= 2
    ensures Search(a, size, [r] + free).found
            == if Search(a, size, free).found.Some? then Search(a, size, free).found else LastChunk(a, size, [r])
    ensures LastChunk(a, size, [r]).Some? <==> Real(r) && size <= Len(a, r)
  {
    assert ([r] + free)[1..] == free && [r][1..] == [];
    SearchIs(a, size, free);
    SearchIs(a, size, [r] + free);
  }

  /** It comes after those freed earlier: a request gets what it would have got before, and only if there was nothing
      the last chunk of the freed region. */
  lemma FreedFound(s: Space, rgid: nat, size: nat)
    requires RS.Inv(s) && rgid < SYMBOLS && Real(s.syms[rgid].region) && size >= 2
    ensures var sym, s1 := s.syms[rgid], FreeSymbol(s, rgid);
            && Oriented(sym.area, sym.region) && AllOriented(sym.area, Free(s1, sym.area))
            && var before := Search(sym.area, size, Free(s, sym.area)).found;
               Search(sym.area, size, Free(s1, sym.area)).found
               == if before.Some? then before else LastChunk(sym.area, size, [sym.region])
    ensures var sym := s.syms[rgid];
            LastChunk(sym.area, size, [sym.region]).Some? <==> size <= Len(sym.area, sym.region)
  {
    var sym, s1 := s.syms[rgid], FreeSymbol(s, rgid);
    assert Live(s, rgid, sym.area);
    FreeKeepsInv(s, rgid);
    assert Free(s1, sym.area) == [sym.region] + Free(s, sym.area);
    HeadFoundLast(sym.area, size, sym.region, Free(s, sym.area));
  }

  /** Freeing moves neither break nor limit, and clears the symbol and no other. */
  lemma FreeMovesNothing(s: Space, rgid: nat, j: nat)
    requires RS.Inv(s) && rgid < SYMBOLS && j < SYMBOLS
    ensures var r := FreeSymbol(s, rgid);
            && r == s.(stackFree := r.stackFree, heapFree := r.heapFree, syms := r.syms) && |r.syms| == SYMBOLS
            && !Real(r.syms[rgid].region) && (j != rgid ==> r.syms[j] == s.syms[j])
            && (!Real(s.syms[rgid].region) ==> r == s)
  {
  }
}
