/** The replacement list is ordered by last reference, so the victim is the least recently used page. */
module PagingOrder {
  import opened LruSpec
  import opened Paging
  import opened PagingInvariant
  import opened PagingRuns

  predicate Refers(op: Op, slot: Slot) {
    !op.TakeFrame? && op.slot == slot
  }

  /** When page `slot` was last mapped, read, written or reused: a position in the history, 0 for never. */
  function LastRef(ops: seq<Op>, slot: Slot): (t: nat)
    ensures t <= |ops|
  {
    if ops == [] then 0
    else if Refers(ops[|ops| - 1], slot) then |ops|
    else LastRef(ops[..|ops| - 1], slot)
  }

  /** Does the step touch the list through an entry that names no frame of RAM? `__alloc` does so
      after bringing back a swapped page (it kept the old entry), and `__read`/`__write` after a failed fetch. */
  ghost predicate StaleTouch(d: Decoder, m: Machine, op: Op)
    requires Legal(m, op)
  {
    match op
    case ReusePage(s) => m.table[s].InSwap?
    case Read(_, _, _) => Step(d, m, op).OutOfSwap?
    case Write(_, _, _, _) => Step(d, m, op).OutOfSwap?
    case _ => false
  }

  ghost predicate NoStaleTouch(d: Decoder, m0: Machine, ops: seq<Op>)
    requires Run(d, m0, ops).At?
  {
    ops == [] ||
    var n := |ops| - 1;
    !StaleTouch(d, Run(d, m0, ops[..n]).m, ops[n]) && NoStaleTouch(d, m0, ops[..n])
  }

  ghost predicate SortedBy(l: seq<Node>, ops: seq<Op>) {
    forall i, j :: 0 <= i < j < |l| ==> LastRef(ops, l[i].slot) < LastRef(ops, l[j].slot)
  }

  /** `r` is `l` without the nodes of `slot`, in the old order, possibly followed by one node of `slot`. */
  ghost predicate MovedLast(l: seq<Node>, r: seq<Node>, slot: Slot) {
    exists k, g: nat -> nat :: MovedLastBy(l, r, slot, k, g)
  }

  /** `r[..k]` picks nodes of other slots out of `l` at the increasing positions `g`. */
  ghost predicate MovedLastBy(l: seq<Node>, r: seq<Node>, slot: Slot, k: nat, g: nat -> nat) {
    && k <= |r| <= k + 1
    && (forall i :: 0 <= i < k ==> g(i) < |l| && r[i] == l[g(i)] && r[i].slot != slot)
    && (forall i, j :: 0 <= i < j < k ==> g(i) < g(j))
    && (k < |r| ==> r[k].slot == slot)
  }

  /** Moving one page to the back keeps the list sorted once that page is the latest reference. */
  lemma MovedLastSorted(l: seq<Node>, r: seq<Node>, ops: seq<Op>)
    requires ops != [] && SortedBy(l, ops[..|ops| - 1])
    requires !ops[|ops| - 1].TakeFrame? && MovedLast(l, r, ops[|ops| - 1].slot)
    ensures SortedBy(r, ops)
  {
    var slot := ops[|ops| - 1].slot;
    var k, g: nat -> nat :| MovedLastBy(l, r, slot, k, g);
    forall i, j | 0 <= i < j < |r| ensures LastRef(ops, r[i].slot) < LastRef(ops, r[j].slot) {
      assert LastRef(ops, r[i].slot) == LastRef(ops[..|ops| - 1], r[i].slot);
      if j < k { assert g(i) < g(j); }
    }
  }

  /** Inserting the node of a page that owns its frame moves that page last. */
  lemma InsertMoves(l: seq<Node>, n: Node)
    requires DistinctFrames(l)
    requires forall k :: k in l ==> (k.fpn == n.fpn <==> k.slot == n.slot)
    requires forall k :: k in l && k.fpn == n.fpn ==> k == n
    ensures MovedLast(l, Insert(l, n), n.slot)
  {
    var i := IndexOf(l, n.fpn);
    var r := Insert(l, n);
    forall j | 0 <= j < |l| && j != i ensures l[j].slot != n.slot {
      assert l[j] in l;
    }
    if i < |l| {
      assert l[i] in l;
      MoveToBackAt(l, i);
      assert MovedLastBy(l, r, n.slot, |l| - 1, x => if x < i then x else x + 1);
    } else {
      assert MovedLastBy(l, r, n.slot, |l|, x => x);
    }
  }

  /** Touching the frame a present page owns moves that page last, or does nothing if it is not listed. */
  lemma TouchMoves(l: seq<Node>, slot: Slot, f: nat)
    requires DistinctFrames(l) && forall k :: k in l ==> (k.fpn == f <==> k.slot == slot)
    ensures MovedLast(l, Touch(l, f), slot)
  {
    if IndexOf(l, f) < |l| {
      assert l[IndexOf(l, f)] in l;
      InsertMoves(l, l[IndexOf(l, f)]);
    } else {
      forall j | 0 <= j < |l| ensures l[j].slot != slot { assert l[j] in l; }
      assert MovedLastBy(l, l, slot, |l|, x => x);
    }
  }

  /** An eviction only removes the head, which is not the faulting page. */
  lemma TailMoves(l: seq<Node>, r: seq<Node>, slot: Slot)
    requires l != [] && MovedLast(l[1..], r, slot)
    ensures MovedLast(l, r, slot)
  {
    var k, g: nat -> nat :| MovedLastBy(l[1..], r, slot, k, g);
    assert MovedLastBy(l, r, slot, k, x => g(x) + 1);
  }

  lemma ReplaceMoves(m: Machine, slot: Slot)
    requires Inv(m) && m.ramFree == [] && slot in m.table && m.table[slot].InSwap? && m.lru != [] && m.swapFree != []
    ensures var f := m.lru[0].fpn;
            var l := Insert(m.lru[1..], Node(slot, f));
            && Replace(BySwapOffset, m, slot, m.table[slot].off).Ok?
            && Replace(BySwapOffset, m, slot, m.table[slot].off).m.lru == l
            && DistinctFrames(l) && l[|l| - 1] == Node(slot, f)
            && MovedLast(m.lru, l, slot)
  {
    var f, tail := m.lru[0].fpn, m.lru[1..];
    SwapOutKeeps(m);
    forall k | k in tail ensures k.fpn != f && k.slot != slot {
      assert k in SwapOut(m).lru;
    }
    InsertKeeps(tail, Node(slot, f));
    InsertMoves(tail, Node(slot, f));
    TailMoves(m.lru, Insert(tail, Node(slot, f)), slot);
  }

  lemma GetPageMoves(m: Machine, slot: Slot)
    requires Inv(m) && slot in m.table && GetPage(BySwapOffset, m, slot).Ok?
    ensures var r := GetPage(BySwapOffset, m, slot).m;
            && MovedLast(m.lru, r.lru, slot)
            && DistinctFrames(r.lru)
            && r.table[slot].InRam? && r.lru != [] && r.lru[|r.lru| - 1] == Node(slot, r.table[slot].fpn)
  {
    match m.table[slot]
    case InRam(f) =>
      InsertKeeps(m.lru, Node(slot, f));
      InsertMoves(m.lru, Node(slot, f));
    case InSwap(off) =>
      ReplaceMoves(m, slot);
  }

  lemma AccessMoves(m: Machine, slot: Slot, phys: nat, write: bool, value: Byte)
    requires Inv(m) && slot in m.table && phys < PAGE_SIZE && Access(BySwapOffset, m, slot, phys, write, value).Ok?
    ensures MovedLast(m.lru, Access(BySwapOffset, m, slot, phys, write, value).m.lru, slot)
  {
    GetPageMoves(m, slot);
    TouchLast(GetPage(BySwapOffset, m, slot).m.lru);
  }

  /** A store without touch moves its page last if it arrives, and otherwise only drops the head. */
  lemma PokeMoves(m: Machine, slot: Slot, phys: nat, value: Byte)
    requires Inv(m) && slot in m.table && phys < PAGE_SIZE && !Poke(BySwapOffset, m, slot, phys, value).Undefined?
    ensures MovedLast(m.lru, Poke(BySwapOffset, m, slot, phys, value).m.lru, slot)
  {
    var g := GetPage(BySwapOffset, m, slot);
    if g.Ok? {
      GetPageMoves(m, slot);
    } else {
      forall k | k in m.lru ensures k.slot != slot { }
      var r := WithoutVictim(m.lru);
      forall i | 0 <= i < |r| ensures r[i].slot != slot { assert r[i] in m.lru; }
      assert MovedLastBy(m.lru, r, slot, |r|, x => x + 1);
    }
  }

  /** Every step that touches no stale entry moves the page it refers to last and otherwise only drops the head. */
  lemma StepMoves(m: Machine, op: Op)
    requires Inv(m) && Legal(m, op) && !Step(BySwapOffset, m, op).Undefined? && !StaleTouch(BySwapOffset, m, op)
    ensures var r := Step(BySwapOffset, m, op).m;
            if op.TakeFrame? then r.lru == m.lru || (m.lru != [] && r.lru == m.lru[1..])
            else MovedLast(m.lru, r.lru, op.slot)
  {
    match op
    case TakeFrame =>
    case InstallPage(s) =>
      assert m.pending[0] in m.pending;
      InsertMoves(m.lru, Node(s, m.pending[0]));
    case ReusePage(s) => TouchMoves(m.lru, s, m.table[s].fpn);
    case Read(s, a, off) => AccessMoves(m, s, PhysOffset(a, off), false, 0);
    case Write(s, a, off, v) => AccessMoves(m, s, PhysOffset(a, off), true, v);
    case SetByte(s, a, off, v) => PokeMoves(m, s, PhysOffset(a, off), v);
  }

  /** In every run without stale touches the list is sorted by last reference. */
  lemma {:induction false} ListSorted(m0: Machine, ops: seq<Op>)
    requires Booted(m0) && Run(BySwapOffset, m0, ops).At? && NoStaleTouch(BySwapOffset, m0, ops)
    ensures SortedBy(Run(BySwapOffset, m0, ops).m.lru, ops)
  {
    if ops != [] {
      var n := |ops| - 1;
      ListSorted(m0, ops[..n]);
      ReachableInv(m0, ops[..n]);
      var m := Run(BySwapOffset, m0, ops[..n]).m;
      StepMoves(m, ops[n]);
      var r := Run(BySwapOffset, m0, ops).m;
      if ops[n].TakeFrame? {
        forall s ensures LastRef(ops, s) == LastRef(ops[..n], s) { }
      } else {
        MovedLastSorted(m.lru, r.lru, ops);
      }
    }
  }

  /** The page evicted next is the least recently used one among the present pages of all processes. */
  lemma VictimIsLeastRecent(m0: Machine, ops: seq<Op>, s: Slot)
    requires Booted(m0) && Run(BySwapOffset, m0, ops).At?
    requires NoStaleTouch(BySwapOffset, m0, ops) && NoFailure(BySwapOffset, m0, ops)
    requires var m := Run(BySwapOffset, m0, ops).m; s in m.table && m.table[s].InRam?
    ensures var l := Run(BySwapOffset, m0, ops).m.lru;
            l != [] && LastRef(ops, l[0].slot) <= LastRef(ops, s)
  {
    ListSorted(m0, ops);
    ReachableInv(m0, ops);
    var m := Run(BySwapOffset, m0, ops).m;
    assert Node(s, m.table[s].fpn) in m.lru;
    var i :| 0 <= i < |m.lru| && m.lru[i] == Node(s, m.table[s].fpn);
  }

  /** Who is last after a page of frame `l[0].fpn` was listed and frame `misread` touched. */
  lemma StaleTouchLast(l: seq<Node>, slot: Slot, misread: nat)
    requires l != [] && DistinctFrames(l) && forall k :: k in l ==> k.slot != slot
    ensures var r := Touch(l[1..] + [Node(slot, l[0].fpn)], misread);
            && |r| == |l|
            && (r[|r| - 1].slot == slot <==> misread == l[0].fpn || forall k :: k in l ==> k.fpn != misread)
  {
    var g := l[1..] + [Node(slot, l[0].fpn)];
    var i := IndexOf(g, misread);
    if i < |g| {
      MoveToBackAt(g, i);
      if i < |g| - 1 { assert l[i + 1] in l; }
    } else {
      forall k | k in l ensures k.fpn != misread {
        var j :| 0 <= j < |l| && l[j] == k;
        assert j > 0 ==> g[j - 1] == k;
        assert g[|g| - 1].fpn == l[0].fpn;
      }
    }
  }

  /** The stale touch of a reused page: the page ends up most recent exactly when the
      frame number misread from its old swap entry is not another page's listed frame. */
  lemma ReusedPageMostRecentIff(m: Machine, slot: Slot)
    requires Inv(m) && slot in m.table && m.table[slot].InSwap? && Reuse(BySwapOffset, m, slot).Ok?
    ensures var r, misread := Reuse(BySwapOffset, m, slot).m, FpnReading(m.table[slot].off);
            && r.lru != []
            && (r.lru[|r.lru| - 1].slot == slot <==>
                  misread == m.lru[0].fpn || forall k :: k in m.lru ==> k.fpn != misread)
  {
    var n := Node(slot, m.lru[0].fpn);
    ReplaceMoves(m, slot);
    forall k | k in m.lru ensures k.slot != slot { }
    StaleTouchLast(m.lru, slot, FpnReading(m.table[slot].off));
    assert Insert(m.lru[1..], n) == m.lru[1..] + [n];
  }
}
