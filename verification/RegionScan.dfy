/**
`get_free_vmrg_area` of src/mm-vm.c: the search of an area's free list. Regions are inclusive
ranges, ascending in the stack and descending in the heap.
*/
module RegionScan {
  import opened Options
  import opened Paging

  /** From `start` to `end` inclusive: upwards in the stack, downwards in the heap. */
  datatype Region = Region(start: nat, end: nat)

  function Lo(a: Area, r: Region): nat { if a.Stack? then r.start else r.end }
  function Hi(a: Area, r: Region): nat { if a.Stack? then r.end else r.start }

  predicate Oriented(a: Area, r: Region) { Lo(a, r) <= Hi(a, r) }

  function Len(a: Area, r: Region): nat
    requires Oriented(a, r)
  {
    Hi(a, r) - Lo(a, r) + 1
  }

  /** A node with start == end is what the code leaves for "nothing here". */
  predicate Real(r: Region) { r.start != r.end }

  ghost predicate Disjoint(a: Area, r: Region, q: Region) {
    Hi(a, r) < Lo(a, q) || Hi(a, q) < Lo(a, r)
  }

  ghost predicate Inside(a: Area, r: Region, q: Region) {
    Lo(a, q) <= Lo(a, r) && Hi(a, r) <= Hi(a, q)
  }

  // ---------- One iteration ----------

  /** Does the region hold `size` bytes? */
  predicate Fits(a: Area, r: Region, size: nat) {
    match a
    case Stack => r.start + size - 1 <= r.end
    case Heap => r.start - size + 1 >= r.end
  }

  const WORD64: int := 0x1_0000_0000_0000_0000

  /** The heap's test as it is computed, on unsigned 64-bit words. */
  predicate FitsWrapping(r: Region, size: nat) {
    (r.start - size + 1) % WORD64 >= r.end
  }

  /** The unsigned test is right exactly when the request is not larger than the addresses up to the region's start;
      any larger request is accepted although it does not fit. */
  lemma HeapFitIff(r: Region, size: nat)
    requires 1 <= size <= WORD64 / 2 && r.end <= r.start < WORD64 / 2
    ensures (FitsWrapping(r, size) <==> Fits(Heap, r, size)) <==> size <= r.start + 1
    ensures size > r.start + 1 ==> FitsWrapping(r, size)
  {
    var x := r.start - size + 1;
    if x < 0 { assert x % WORD64 == x + WORD64; } else { assert x % WORD64 == x; }
  }

  /** The first `size` bytes of a region, counted from its start. */
  function Chunk(a: Area, r: Region, size: nat): Region
    requires Fits(a, r, size) && size >= 1
  {
    match a
    case Stack => Region(r.start, r.start + size - 1)
    case Heap => Region(r.start, r.start - size + 1)
  }

  function Rest(a: Area, r: Region, size: nat): Region
    requires size >= 1 && Fits(a, r, size) && Chunk(a, r, size).end != r.end
  {
    match a
    case Stack => Region(r.start + size, r.end)
    case Heap => Region(r.start - size, r.end)
  }

  /** The list, the node looked at, and the chunk reported so far. */
  datatype Scan = Scan(free: seq<Region>, it: nat, found: Option<Region>)

  function Next(a: Area, size: nat, s: Scan): Scan
    requires size >= 1 && s.it < |s.free|
  {
    var r := s.free[s.it];
    if !Fits(a, r, size) then s.(it := s.it + 1)
    else
      var c := Chunk(a, r, size);
      s.(found := Some(c),
         free := if c.end != r.end then s.free[s.it := Rest(a, r, size)]
                 else if s.it + 1 < |s.free| then s.free[..s.it] + s.free[s.it + 1..]
                 else s.free[s.it := Region(r.end, r.end)])
  }

  // ---------- Termination ----------

  ghost predicate AllOriented(a: Area, free: seq<Region>) {
    forall i :: 0 <= i < |free| ==> Oriented(a, free[i])
  }

  /** Nodes left plus bytes left in them. */
  ghost function Measure(a: Area, free: seq<Region>): nat
    requires AllOriented(a, free)
  {
    if free == [] then 0 else Len(a, free[0]) + 1 + Measure(a, free[1..])
  }

  /** An iteration that fits anything of two bytes or more shrinks what is left, even if it stays at the node. */
  lemma NextShrinks(a: Area, size: nat, s: Scan)
    requires size >= 2 && s.it < |s.free| && AllOriented(a, s.free)
    ensures var n := Next(a, size, s);
            && n.it <= |n.free| && AllOriented(a, n.free)
            && Measure(a, n.free[n.it..]) < Measure(a, s.free[s.it..])
  {
    var n := Next(a, size, s);
    var rem := s.free[s.it..];
    assert rem[1..] == s.free[s.it + 1..];
    if n.it == s.it && |n.free| == |s.free| {
      assert n.free[n.it..] == [n.free[n.it]] + rem[1..];
      assert n.free[n.it..][1..] == rem[1..];
    } else {
      assert n.free[n.it..] == rem[1..];
    }
  }

  /** The whole search from a node on. */
  ghost function Finish(a: Area, size: nat, s: Scan): (r: Scan)
    requires size >= 2 && s.it <= |s.free| && AllOriented(a, s.free)
    ensures r.it == |r.free| && AllOriented(a, r.free)
    decreases Measure(a, s.free[s.it..])
  {
    if s.it == |s.free| then s
    else
      NextShrinks(a, size, s);
      Finish(a, size, Next(a, size, s))
  }

  ghost function Search(a: Area, size: nat, free: seq<Region>): Scan
    requires size >= 2 && AllOriented(a, free)
  {
    Finish(a, size, Scan(free, 0, None))
  }

  /** The state after `k` iterations, staying put at the end of the list. */
  function Iterate(a: Area, size: nat, s: Scan, k: nat): Scan
    requires size >= 1
    decreases k
  {
    if k == 0 || s.it >= |s.free| then s else Iterate(a, size, Next(a, size, s), k - 1)
  }

  lemma {:induction false} LoopsForever(a: Area, s: Scan, k: nat)
    requires s.it < |s.free| && AllOriented(a, s.free)
    ensures var r := Iterate(a, 1, s, k); r.it < |r.free|
    decreases k
  {
    if k > 0 { LoopsForever(a, Next(a, 1, s), k - 1); }
  }

  lemma {:induction false} StopsEventually(a: Area, size: nat, s: Scan) returns (k: nat)
    requires size >= 2 && s.it <= |s.free| && AllOriented(a, s.free)
    ensures Iterate(a, size, s, k) == Finish(a, size, s)
    decreases Measure(a, s.free[s.it..])
  {
    if s.it == |s.free| {
      k := 0;
    } else {
      NextShrinks(a, size, s);
      k := StopsEventually(a, size, Next(a, size, s));
      k := k + 1;
    }
  }

  ghost predicate StopsAfter(a: Area, size: nat, free: seq<Region>, k: nat)
    requires size >= 1
  {
    var r := Iterate(a, size, Scan(free, 0, None), k); r.it == |r.free|
  }

  /** The search of a non-empty list stops exactly for requests of at least two bytes: a request for one byte
      carves the list down to a last node of one byte and then finds that byte for ever. */
  lemma SearchStopsIff(a: Area, size: nat, free: seq<Region>)
    requires size >= 1 && free != [] && AllOriented(a, free)
    ensures (exists k :: StopsAfter(a, size, free, k)) <==> size >= 2
  {
    if size >= 2 {
      var k := StopsEventually(a, size, Scan(free, 0, None));
      assert StopsAfter(a, size, free, k);
    } else {
      forall k ensures !StopsAfter(a, size, free, k) {
        LoopsForever(a, Scan(free, 0, None), k);
      }
    }
  }

  // ---------- The unsigned test ----------

  /** An iteration with the heap's unsigned test. */
  function NextWrapping(size: nat, s: Scan): Scan
    requires size >= 1 && s.it < |s.free|
  {
    var r := s.free[s.it];
    if !FitsWrapping(r, size) then s.(it := s.it + 1)
    else
      var c := Region(r.start, (r.start - size + 1) % WORD64);
      s.(found := Some(c),
         free := if c.end != r.end then s.free[s.it := Region((r.start - size) % WORD64, r.end)]
                 else if s.it + 1 < |s.free| then s.free[..s.it] + s.free[s.it + 1..]
                 else s.free[s.it := Region(r.end, r.end)])
  }

  /** The code's iteration is the intended one exactly when the subtraction does not wrap. */
  lemma NextWrappingIff(size: nat, s: Scan)
    requires 1 <= size <= WORD64 / 2 && s.it < |s.free|
    requires s.free[s.it].end <= s.free[s.it].start < WORD64 / 2
    ensures NextWrapping(size, s) == Next(Heap, size, s) <==> size <= s.free[s.it].start + 1
  {
    var r := s.free[s.it];
    HeapFitIff(r, size);
    if size <= r.start + 1 {
      assert (r.start - size + 1) % WORD64 == r.start - size + 1;
      if r.start >= size { assert (r.start - size) % WORD64 == r.start - size; }
    } else {
      assert NextWrapping(size, s).it == s.it;
      assert Next(Heap, size, s).it == s.it + 1;
    }
  }

  /** No iteration of the search wraps. */
  ghost predicate NeverWraps(size: nat, s: Scan)
    requires size >= 2 && s.it <= |s.free| && AllOriented(Heap, s.free)
    decreases Measure(Heap, s.free[s.it..])
  {
    s.it == |s.free| ||
    (NextShrinks(Heap, size, s); size <= s.free[s.it].start + 1 && NeverWraps(size, Next(Heap, size, s)))
  }

  /** Requests no larger than the addresses up to the lowest free region never wrap. */
  lemma {:induction false} SmallRequestsNeverWrap(size: nat, s: Scan)
    requires size >= 2 && s.it <= |s.free| && AllOriented(Heap, s.free)
    requires forall i :: 0 <= i < |s.free| ==> size <= s.free[i].end + 1
    ensures NeverWraps(size, s)
    decreases Measure(Heap, s.free[s.it..])
  {
    if s.it < |s.free| {
      NextShrinks(Heap, size, s);
      SmallRequestsNeverWrap(size, Next(Heap, size, s));
    }
  }

  // ---------- What is found ----------

  ghost predicate PairwiseDisjoint(a: Area, free: seq<Region>) {
    forall i, j :: 0 <= i < j < |free| && Real(free[i]) && Real(free[j]) ==> Disjoint(a, free[i], free[j])
  }

  /** `r` shares no byte with a real region of the list. */
  ghost predicate Clear(a: Area, r: Region, free: seq<Region>) {
    forall i :: 0 <= i < |free| && Real(free[i]) ==> Disjoint(a, r, free[i])
  }

  ghost predicate InsideSome(a: Area, r: Region, free: seq<Region>) {
    exists i :: 0 <= i < |free| && Real(free[i]) && Inside(a, r, free[i])
  }

  /** A region of `size` bytes inside one real region of the list. */
  ghost predicate CarvedFrom(a: Area, size: nat, r: Region, free: seq<Region>) {
    Oriented(a, r) && Len(a, r) == size && InsideSome(a, r, free)
  }

  /** Every real region of `after` lies inside one of `before`. */
  ghost predicate Shrunk(a: Area, after: seq<Region>, before: seq<Region>) {
    forall i :: 0 <= i < |after| && Real(after[i]) ==> InsideSome(a, after[i], before)
  }

  lemma ShrunkSelf(a: Area, free: seq<Region>)
    ensures Shrunk(a, free, free)
  {
    forall i | 0 <= i < |free| && Real(free[i]) ensures InsideSome(a, free[i], free) {
      assert Inside(a, free[i], free[i]);
    }
  }

  lemma ShrunkTrans(a: Area, x: seq<Region>, y: seq<Region>, z: seq<Region>)
    requires Shrunk(a, x, y) && Shrunk(a, y, z)
    ensures Shrunk(a, x, z)
  {
    forall i | 0 <= i < |x| && Real(x[i]) ensures InsideSome(a, x[i], z) {
      InsideTrans(a, x[i], y, z);
    }
  }

  lemma InsideTrans(a: Area, r: Region, y: seq<Region>, z: seq<Region>)
    requires InsideSome(a, r, y) && Shrunk(a, y, z)
    ensures InsideSome(a, r, z)
  {
    var j :| 0 <= j < |y| && Real(y[j]) && Inside(a, r, y[j]);
    assert InsideSome(a, y[j], z);
    var k :| 0 <= k < |z| && Real(z[k]) && Inside(a, y[j], z[k]);
    assert Inside(a, r, z[k]);
  }

  /** What carving `c` out of node `it` of the list leaves. */
  ghost predicate Carved(a: Area, c: Region, after: seq<Region>, before: seq<Region>) {
    AllOriented(a, after) && PairwiseDisjoint(a, after) && Shrunk(a, after, before) && Clear(a, c, after)
  }

  lemma CarveByUpdate(a: Area, free: seq<Region>, it: nat, c: Region, r: Region)
    requires it < |free| && AllOriented(a, free) && PairwiseDisjoint(a, free)
    requires Real(free[it]) && Inside(a, c, free[it]) && Oriented(a, r) && Oriented(a, c)
    requires Real(r) ==> Inside(a, r, free[it]) && Disjoint(a, c, r)
    ensures Carved(a, c, free[it := r], free)
  {
    var after := free[it := r];
    forall i | 0 <= i < |after| && Real(after[i]) ensures InsideSome(a, after[i], free) {
      assert Real(free[i]) && Inside(a, after[i], free[i]);
    }
  }

  lemma CarveByRemoval(a: Area, free: seq<Region>, it: nat, c: Region)
    requires it < |free| && AllOriented(a, free) && PairwiseDisjoint(a, free)
    requires Real(free[it]) && Inside(a, c, free[it]) && Oriented(a, c)
    ensures Carved(a, c, free[..it] + free[it + 1..], free)
  {
    var after := free[..it] + free[it + 1..];
    forall i | 0 <= i < |after| ensures after[i] == free[if i < it then i else i + 1] { }
    forall i | 0 <= i < |after| && Real(after[i]) ensures InsideSome(a, after[i], free) {
      assert Inside(a, after[i], free[if i < it then i else i + 1]);
    }
  }

  /** From `s` on the search has only shrunk the list, and either nothing happened or
      the chunk now reported was carved from it and is clear of what remains. */
  ghost predicate Progressed(a: Area, size: nat, s: Scan, n: Scan) {
    && AllOriented(a, n.free) && PairwiseDisjoint(a, n.free) && Shrunk(a, n.free, s.free)
    && (|| (n.found == s.found && n.free == s.free)
        || (n.found.Some? && CarvedFrom(a, size, n.found.value, s.free) && Clear(a, n.found.value, n.free)))
  }

  lemma ProgressedTrans(a: Area, size: nat, s: Scan, n: Scan, r: Scan)
    requires Progressed(a, size, s, n) && Progressed(a, size, n, r)
    ensures Progressed(a, size, s, r)
  {
    ShrunkTrans(a, r.free, n.free, s.free);
    if r.found.Some? && CarvedFrom(a, size, r.found.value, n.free) {
      InsideTrans(a, r.found.value, n.free, s.free);
    }
  }

  /** A chunk and the rest of its region. */
  lemma ChunkAndRest(a: Area, r: Region, size: nat)
    requires size >= 2 && Oriented(a, r) && Fits(a, r, size)
    ensures var c := Chunk(a, r, size);
            && Real(r) && Oriented(a, c) && Len(a, c) == size && Inside(a, c, r)
            && (c.end != r.end ==>
                  Oriented(a, Rest(a, r, size)) && Inside(a, Rest(a, r, size), r) && Disjoint(a, c, Rest(a, r, size)))
  {
  }

  lemma CarveCarves(a: Area, size: nat, s: Scan)
    requires size >= 2 && s.it < |s.free| && AllOriented(a, s.free) && PairwiseDisjoint(a, s.free)
    requires Fits(a, s.free[s.it], size)
    ensures Carved(a, Chunk(a, s.free[s.it], size), Next(a, size, s).free, s.free)
  {
    var r := s.free[s.it];
    ChunkAndRest(a, r, size);
    var c := Chunk(a, r, size);
    if c.end != r.end {
      CarveByUpdate(a, s.free, s.it, c, Rest(a, r, size));
    } else if s.it + 1 < |s.free| {
      CarveByRemoval(a, s.free, s.it, c);
    } else {
      CarveByUpdate(a, s.free, s.it, c, Region(r.end, r.end));
    }
  }

  lemma NextCarves(a: Area, size: nat, s: Scan)
    requires size >= 2 && s.it < |s.free| && AllOriented(a, s.free) && PairwiseDisjoint(a, s.free)
    ensures Progressed(a, size, s, Next(a, size, s))
  {
    var r := s.free[s.it];
    if Fits(a, r, size) {
      CarveCarves(a, size, s);
      ChunkAndRest(a, r, size);
      assert CarvedFrom(a, size, Chunk(a, r, size), s.free);
    } else {
      ShrunkSelf(a, s.free);
    }
  }

  lemma {:induction false} FinishCarves(a: Area, size: nat, s: Scan)
    requires size >= 2 && s.it <= |s.free| && AllOriented(a, s.free) && PairwiseDisjoint(a, s.free)
    ensures Progressed(a, size, s, Finish(a, size, s))
    decreases Measure(a, s.free[s.it..])
  {
    if s.it == |s.free| {
      ShrunkSelf(a, s.free);
    } else {
      NextShrinks(a, size, s);
      NextCarves(a, size, s);
      FinishCarves(a, size, Next(a, size, s));
      ProgressedTrans(a, size, s, Next(a, size, s), Finish(a, size, s));
    }
  }

  /** The search reports a region of exactly the requested size that lies inside one free region and
      shares no byte with what stays free, or leaves the list as it was. */
  lemma SearchCarves(a: Area, size: nat, free: seq<Region>)
    requires size >= 2 && AllOriented(a, free) && PairwiseDisjoint(a, free)
    ensures var r := Search(a, size, free);
            && AllOriented(a, r.free) && PairwiseDisjoint(a, r.free) && Shrunk(a, r.free, free)
            && match r.found
               case None => r.free == free
               case Some(c) => CarvedFrom(a, size, c, free) && Clear(a, c, r.free)
  {
    FinishCarves(a, size, Scan(free, 0, None));
  }

  /** A reported region runs in the direction of its area. */
  lemma {:induction false} FoundOriented(a: Area, size: nat, s: Scan)
    requires size >= 2 && s.it <= |s.free| && AllOriented(a, s.free) && (s.found.Some? ==> Oriented(a, s.found.value))
    ensures Finish(a, size, s).found.Some? ==> Oriented(a, Finish(a, size, s).found.value)
    decreases Measure(a, s.free[s.it..])
  {
    if s.it < |s.free| {
      NextShrinks(a, size, s);
      FoundOriented(a, size, Next(a, size, s));
    }
  }

  // ---------- What is lost ----------

  /** The bytes of a list of regions; a node with start == end counts one. */
  ghost function Bytes(a: Area, free: seq<Region>): nat
    requires AllOriented(a, free)
  {
    if free == [] then 0 else Len(a, free[0]) + Bytes(a, free[1..])
  }

  /** Cutting chunks of `size` bytes off `n` bytes: how many there are, and what remains. */
  function Chunks(n: nat, size: nat): nat
    requires size >= 1
  {
    if n < size then 0 else 1 + Chunks(n - size, size)
  }

  function Remainder(n: nat, size: nat): nat
    requires size >= 1
  {
    if n < size then n else Remainder(n - size, size)
  }

  /** They are quotient and remainder. */
  lemma {:induction false} ChunksAndRemainder(n: nat, size: nat)
    requires size >= 1
    ensures n == Chunks(n, size) * size + Remainder(n, size) && Remainder(n, size) < size
  {
    if n >= size { ChunksAndRemainder(n - size, size); }
  }

  /** How many chunks of `size` bytes the regions of a list hold. */
  ghost function Fitting(a: Area, size: nat, free: seq<Region>): nat
    requires size >= 1 && AllOriented(a, free)
  {
    if free == [] then 0 else Chunks(Len(a, free[0]), size) + Fitting(a, size, free[1..])
  }

  /** The last node of the list holds a whole number of chunks, so the search uses it up. */
  ghost predicate UsesUpLast(a: Area, size: nat, free: seq<Region>)
    requires size >= 1 && AllOriented(a, free)
  {
    free != [] && Remainder(Len(a, free[|free| - 1]), size) == 0
  }

  lemma {:induction false} BytesConcat(a: Area, x: seq<Region>, y: seq<Region>)
    requires AllOriented(a, x) && AllOriented(a, y)
    ensures AllOriented(a, x + y) && Bytes(a, x + y) == Bytes(a, x) + Bytes(a, y)
  {
    if x == [] {
      assert x + y == y;
    } else {
      BytesConcat(a, x[1..], y);
      assert (x + y)[1..] == x[1..] + y;
    }
  }

  /** An iteration on the remaining nodes `rem`, of which it looks at the first. */
  function NextRemaining(a: Area, size: nat, rem: seq<Region>): seq<Region>
    requires size >= 1 && rem != []
  {
    if !Fits(a, rem[0], size) then rem
    else if Chunk(a, rem[0], size).end != rem[0].end then rem[0 := Rest(a, rem[0], size)]
    else if |rem| > 1 then rem[1..]
    else [Region(rem[0].end, rem[0].end)]
  }

  lemma NextIsRemaining(a: Area, size: nat, s: Scan)
    requires size >= 1 && s.it < |s.free|
    ensures Next(a, size, s).free == s.free[..s.it] + NextRemaining(a, size, s.free[s.it..])
  {
  }

  /** `k` times `size`. */
  ghost function Times(k: nat, size: nat): nat { if k == 0 then 0 else Times(k - 1, size) + size }

  lemma {:induction false} TimesIsProduct(k: nat, size: nat)
    ensures Times(k, size) == k * size
  {
    if k > 0 {
      TimesIsProduct(k - 1, size);
      assert k * size == (k - 1) * size + size;
    }
  }

  /** What the search will have left of the remaining nodes, in bytes. */
  ghost function BytesLeft(a: Area, size: nat, rem: seq<Region>): int
    requires size >= 2 && AllOriented(a, rem)
  {
    Bytes(a, rem) - Times(Fitting(a, size, rem), size) + if UsesUpLast(a, size, rem) then 1 else 0
  }

  /** Carving a chunk takes as much from the bytes as from what was expected to be taken. */
  lemma CarvePartKeepsBytesLeft(a: Area, size: nat, rem: seq<Region>)
    requires size >= 2 && rem != [] && AllOriented(a, rem) && Fits(a, rem[0], size)
    requires Chunk(a, rem[0], size).end != rem[0].end
    ensures var next := rem[0 := Rest(a, rem[0], size)];
            && AllOriented(a, next) && Fitting(a, size, rem) == Fitting(a, size, next) + 1
            && BytesLeft(a, size, next) == BytesLeft(a, size, rem)
  {
    var next := rem[0 := Rest(a, rem[0], size)];
    assert next[1..] == rem[1..];
    assert Len(a, next[0]) == Len(a, rem[0]) - size;
  }

  lemma CarveAllKeepsBytesLeft(a: Area, size: nat, rem: seq<Region>)
    requires size >= 2 && rem != [] && AllOriented(a, rem) && Fits(a, rem[0], size)
    requires Chunk(a, rem[0], size).end == rem[0].end
    ensures var next := if |rem| > 1 then rem[1..] else [Region(rem[0].end, rem[0].end)];
            && AllOriented(a, next) && Fitting(a, size, rem) == Fitting(a, size, next) + 1
            && BytesLeft(a, size, next) == BytesLeft(a, size, rem)
  {
    assert Len(a, rem[0]) == size && Chunks(0, size) == 0 && Remainder(0, size) == 0;
    if |rem| == 1 { assert rem[1..] == [] && [Region(rem[0].end, rem[0].end)][1..] == []; }
  }

  /** A node that does not fit holds no chunk, and is not used up. */
  lemma PassCounts(a: Area, size: nat, rem: seq<Region>)
    requires size >= 2 && rem != [] && AllOriented(a, rem) && !Fits(a, rem[0], size)
    ensures Fitting(a, size, rem) == Fitting(a, size, rem[1..])
    ensures UsesUpLast(a, size, rem) <==> UsesUpLast(a, size, rem[1..])
  {
  }

  /** What the search will have left of the whole list, and whether it will have found something. */
  ghost function BytesAtEnd(a: Area, size: nat, s: Scan): int
    requires size >= 2 && s.it <= |s.free| && AllOriented(a, s.free)
  {
    Bytes(a, s.free[..s.it]) + BytesLeft(a, size, s.free[s.it..])
  }

  ghost predicate WillFind(a: Area, size: nat, s: Scan)
    requires size >= 2 && s.it <= |s.free| && AllOriented(a, s.free)
  {
    s.found.Some? || Fitting(a, size, s.free[s.it..]) >= 1
  }

  lemma CarveKeepsBytesAtEnd(a: Area, size: nat, s: Scan)
    requires size >= 2 && s.it < |s.free| && AllOriented(a, s.free) && Fits(a, s.free[s.it], size)
    requires AllOriented(a, Next(a, size, s).free)
    ensures BytesAtEnd(a, size, Next(a, size, s)) == BytesAtEnd(a, size, s) && WillFind(a, size, s)
  {
    var n, rem := Next(a, size, s), s.free[s.it..];
    NextIsRemaining(a, size, s);
    assert n.free[..n.it] == s.free[..s.it] && n.free[n.it..] == NextRemaining(a, size, rem);
    if Chunk(a, rem[0], size).end != rem[0].end {
      CarvePartKeepsBytesLeft(a, size, rem);
    } else {
      CarveAllKeepsBytesLeft(a, size, rem);
    }
  }

  lemma PassKeepsBytesAtEnd(a: Area, size: nat, s: Scan)
    requires size >= 2 && s.it < |s.free| && AllOriented(a, s.free) && !Fits(a, s.free[s.it], size)
    ensures BytesAtEnd(a, size, Next(a, size, s)) == BytesAtEnd(a, size, s)
    ensures WillFind(a, size, Next(a, size, s)) <==> WillFind(a, size, s)
  {
    var rem := s.free[s.it..];
    PassCounts(a, size, rem);
    assert rem[1..] == s.free[s.it + 1..];
    assert s.free[..s.it + 1] == s.free[..s.it] + [rem[0]];
    BytesConcat(a, s.free[..s.it], [rem[0]]);
  }

  lemma {:induction false} FinishCounts(a: Area, size: nat, s: Scan)
    requires size >= 2 && s.it <= |s.free| && AllOriented(a, s.free)
    ensures Bytes(a, Finish(a, size, s).free) == BytesAtEnd(a, size, s)
    ensures Finish(a, size, s).found.Some? <==> WillFind(a, size, s)
    decreases Measure(a, s.free[s.it..])
  {
    if s.it == |s.free| {
      assert s.free[..s.it] == s.free;
    } else {
      NextShrinks(a, size, s);
      FinishCounts(a, size, Next(a, size, s));
      if Fits(a, s.free[s.it], size) { CarveKeepsBytesAtEnd(a, size, s); } else { PassKeepsBytesAtEnd(a, size, s); }
    }
  }

  /** The search carves every chunk the list holds and hands out only the last, so all the others are in no list
      afterwards. A last node that is used up stays behind as one byte. */
  lemma SearchLoses(a: Area, size: nat, free: seq<Region>)
    requires size >= 2 && AllOriented(a, free)
    ensures var r, k := Search(a, size, free), Fitting(a, size, free);
            && (r.found.Some? <==> k >= 1)
            && Bytes(a, r.free) == Bytes(a, free) - k * size + (if UsesUpLast(a, size, free) then 1 else 0)
  {
    FinishCounts(a, size, Scan(free, 0, None));
    TimesIsProduct(Fitting(a, size, free), size);
    assert free[0..] == free;
  }

  lemma TwoOrMore(k: nat, size: nat)
    ensures k >= 2 ==> k * size >= 2 * size
    ensures k == 0 ==> k * size == 0
    ensures k == 1 ==> k * size == size
  {
    if k >= 2 { assert k * size == (k - 2) * size + 2 * size; }
  }

  /** No free byte is lost exactly when the list holds at most one chunk of the requested size. */
  lemma NothingLostIff(a: Area, size: nat, free: seq<Region>)
    requires size >= 2 && AllOriented(a, free)
    ensures var r := Search(a, size, free);
            Bytes(a, r.free) + (if r.found.Some? then size else 0) >= Bytes(a, free) <==> Fitting(a, size, free) <= 1
  {
    SearchLoses(a, size, free);
    TwoOrMore(Fitting(a, size, free), size);
  }

  // ---------- What the search does, in one go ----------

  /** The last `left` bytes of a region, seen from its start. */
  function Tail(a: Area, r: Region, left: nat): Region
    requires Oriented(a, r) && 1 <= left <= Len(a, r)
  {
    if a.Stack? then Region(r.end - left + 1, r.end) else Region(r.end + left - 1, r.end)
  }

  /** What remains of the list: of each region what chunks of `size` bytes leave of it, and a node for the last one even
      if they leave nothing. */
  ghost function Remainders(a: Area, size: nat, free: seq<Region>): seq<Region>
    requires size >= 2 && AllOriented(a, free)
  {
    if free == [] then []
    else
      var left := Remainder(Len(a, free[0]), size);
      ChunksAndRemainder(Len(a, free[0]), size);
      (if left > 0 then [Tail(a, free[0], left)]
       else if |free| == 1 then [Region(free[0].end, free[0].end)] else [])
      + Remainders(a, size, free[1..])
  }

  /** The last chunk of the last region that holds one. */
  ghost function LastChunk(a: Area, size: nat, free: seq<Region>): Option<Region>
    requires size >= 2 && AllOriented(a, free)
  {
    if free == [] then None
    else
      var later, len := LastChunk(a, size, free[1..]), Len(a, free[0]);
      ChunksAndRemainder(len, size);
      if later.Some? || len < size then later
      else Some(Chunk(a, Tail(a, free[0], Remainder(len, size) + size), size))
  }

  /** Carving a chunk off the first region leaves the same tail and the same last chunk, unless it was that itself. */
  lemma CarveTail(a: Area, size: nat, r: Region)
    requires size >= 2 && Oriented(a, r) && Fits(a, r, size) && Chunk(a, r, size).end != r.end
    ensures var q := Rest(a, r, size);
            && Oriented(a, q) && Len(a, q) == Len(a, r) - size && q.end == r.end
            && Remainder(Len(a, q), size) == Remainder(Len(a, r), size)
            && (Len(a, q) < size ==> Len(a, q) == Remainder(Len(a, r), size)
                                     && Tail(a, r, Len(a, q) + size) == r)
  {
  }

  lemma CarvePartKeepsRest(a: Area, size: nat, rem: seq<Region>)
    requires size >= 2 && rem != [] && AllOriented(a, rem) && Fits(a, rem[0], size)
    requires Chunk(a, rem[0], size).end != rem[0].end
    ensures var next := rem[0 := Rest(a, rem[0], size)];
            && AllOriented(a, next) && Remainders(a, size, next) == Remainders(a, size, rem)
            && LastChunk(a, size, rem) == (if LastChunk(a, size, next).Some? then LastChunk(a, size, next)
                                           else Some(Chunk(a, rem[0], size)))
  {
    var next := rem[0 := Rest(a, rem[0], size)];
    assert next[1..] == rem[1..];
    CarveTail(a, size, rem[0]);
    ChunksAndRemainder(Len(a, rem[0]), size);
    ChunksAndRemainder(Len(a, next[0]), size);
  }

  lemma CarveAllKeepsRest(a: Area, size: nat, rem: seq<Region>)
    requires size >= 2 && rem != [] && AllOriented(a, rem) && Fits(a, rem[0], size)
    requires Chunk(a, rem[0], size).end == rem[0].end
    ensures var next := if |rem| > 1 then rem[1..] else [Region(rem[0].end, rem[0].end)];
            && AllOriented(a, next) && Remainders(a, size, next) == Remainders(a, size, rem)
            && LastChunk(a, size, rem) == (if LastChunk(a, size, next).Some? then LastChunk(a, size, next)
                                           else Some(Chunk(a, rem[0], size)))
  {
    assert Len(a, rem[0]) == size && Remainder(size, size) == Remainder(0, size) == 0;
    assert Tail(a, rem[0], size) == rem[0];
    if |rem| == 1 {
      var dummy := Region(rem[0].end, rem[0].end);
      assert rem[1..] == [] && [dummy][1..] == [] && Remainder(1, size) == 1 && Tail(a, dummy, 1) == dummy;
    }
  }

  lemma PassKeepsRest(a: Area, size: nat, rem: seq<Region>)
    requires size >= 2 && rem != [] && AllOriented(a, rem) && !Fits(a, rem[0], size)
    ensures Remainders(a, size, rem) == [rem[0]] + Remainders(a, size, rem[1..])
    ensures LastChunk(a, size, rem) == LastChunk(a, size, rem[1..])
  {
    assert Remainder(Len(a, rem[0]), size) == Len(a, rem[0]) && Tail(a, rem[0], Len(a, rem[0])) == rem[0];
  }

  /** The list and the report the search will end with. */
  ghost function ListAtEnd(a: Area, size: nat, s: Scan): seq<Region>
    requires size >= 2 && s.it <= |s.free| && AllOriented(a, s.free)
  {
    s.free[..s.it] + Remainders(a, size, s.free[s.it..])
  }

  ghost function FoundAtEnd(a: Area, size: nat, s: Scan): Option<Region>
    requires size >= 2 && s.it <= |s.free| && AllOriented(a, s.free)
  {
    var last := LastChunk(a, size, s.free[s.it..]);
    if last.Some? then last else s.found
  }

  lemma CarveKeepsEnd(a: Area, size: nat, s: Scan)
    requires size >= 2 && s.it < |s.free| && AllOriented(a, s.free) && Fits(a, s.free[s.it], size)
    requires AllOriented(a, Next(a, size, s).free)
    ensures ListAtEnd(a, size, Next(a, size, s)) == ListAtEnd(a, size, s)
    ensures FoundAtEnd(a, size, Next(a, size, s)) == FoundAtEnd(a, size, s)
  {
    var n, rem := Next(a, size, s), s.free[s.it..];
    NextIsRemaining(a, size, s);
    assert n.free[..n.it] == s.free[..s.it] && n.free[n.it..] == NextRemaining(a, size, rem);
    if Chunk(a, rem[0], size).end != rem[0].end {
      CarvePartKeepsRest(a, size, rem);
    } else {
      CarveAllKeepsRest(a, size, rem);
    }
  }

  lemma PassKeepsEnd(a: Area, size: nat, s: Scan)
    requires size >= 2 && s.it < |s.free| && AllOriented(a, s.free) && !Fits(a, s.free[s.it], size)
    ensures ListAtEnd(a, size, Next(a, size, s)) == ListAtEnd(a, size, s)
    ensures FoundAtEnd(a, size, Next(a, size, s)) == FoundAtEnd(a, size, s)
  {
    var n, rem := Next(a, size, s), s.free[s.it..];
    PassKeepsRest(a, size, rem);
    assert n.free[n.it..] == rem[1..] && n.free[..n.it] == s.free[..s.it] + [rem[0]];
  }

  lemma {:induction false} FinishIs(a: Area, size: nat, s: Scan)
    requires size >= 2 && s.it <= |s.free| && AllOriented(a, s.free)
    ensures Finish(a, size, s).free == ListAtEnd(a, size, s) && Finish(a, size, s).found == FoundAtEnd(a, size, s)
    decreases Measure(a, s.free[s.it..])
  {
    if s.it == |s.free| {
      assert s.free[..s.it] == s.free;
    } else {
      NextShrinks(a, size, s);
      FinishIs(a, size, Next(a, size, s));
      if Fits(a, s.free[s.it], size) { CarveKeepsEnd(a, size, s); } else { PassKeepsEnd(a, size, s); }
    }
  }

  /** The whole search in one go: it leaves the remainders and reports the last chunk of the last region with one. */
  lemma SearchIs(a: Area, size: nat, free: seq<Region>)
    requires size >= 2 && AllOriented(a, free)
    ensures Search(a, size, free).free == Remainders(a, size, free)
    ensures Search(a, size, free).found == LastChunk(a, size, free)
  {
    FinishIs(a, size, Scan(free, 0, None));
    assert free[0..] == free;
  }

  /** The search does not stop at the first fit, so bytes get lost: of ten free bytes a request
      for five takes the second half, and the first half is in no list afterwards. */
  lemma FirstChunkLost()
    ensures var r := Search(Stack, 5, [Region(0, 9)]);
            r.found == Some(Region(5, 9)) && r.free == [Region(9, 9)]
  {
    var s0 := Scan([Region(0, 9)], 0, None);
    var s1 := Scan([Region(5, 9)], 0, Some(Region(0, 4)));
    var s2 := Scan([Region(9, 9)], 0, Some(Region(5, 9)));
    var s3 := Scan([Region(9, 9)], 1, Some(Region(5, 9)));
    assert Next(Stack, 5, s0) == s1;
    assert Next(Stack, 5, s1) == s2;
    assert Next(Stack, 5, s2) == s3;
    assert Finish(Stack, 5, s2) == Finish(Stack, 5, s3) == s3;
    assert Finish(Stack, 5, s1) == s3;
  }
}
