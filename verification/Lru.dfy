/**
The replacement list as a sequence, least recently used page first.
`LruList` proves that the linked list of src/mm-vm.c implements these functions.
*/
module LruSpec {

  /** Names one page-table entry: `pgd[pgn]` of process `pid`. */
  datatype Slot = Slot(pid: nat, pgn: nat)

  /** A list node: the entry it points at (with its page number) and the cached frame number. */
  datatype Node = Node(slot: Slot, fpn: nat)

  /** Position of the first node caching frame `fpn`, or `|l|` when there is none. */
  function IndexOf(l: seq<Node>, fpn: nat): (i: nat)
    ensures i <= |l|
    ensures i < |l| ==> l[i].fpn == fpn
    ensures forall j :: 0 <= j < i ==> l[j].fpn != fpn
  {
    if l == [] then 0 else if l[0].fpn == fpn then 0 else 1 + IndexOf(l[1..], fpn)
  }

  function MoveToBack(l: seq<Node>, i: nat): seq<Node>
    requires i < |l|
  {
    l[..i] + l[i + 1..] + [l[i]]
  }

  /** `update_LRU_lst`: a listed frame moves to the back, anything else changes nothing. */
  function Touch(l: seq<Node>, fpn: nat): seq<Node> {
    var i := IndexOf(l, fpn);
    if i < |l| then MoveToBack(l, i) else l
  }

  /** `add_LRU_page`: a listed frame moves to the back with its old node, a new one is appended. */
  function Insert(l: seq<Node>, n: Node): seq<Node> {
    var i := IndexOf(l, n.fpn);
    if i < |l| then MoveToBack(l, i) else l + [n]
  }

  /** No frame is cached by two nodes. */
  ghost predicate DistinctFrames(l: seq<Node>) {
    forall i, j :: 0 <= i < j < |l| ==> l[i].fpn != l[j].fpn
  }

  lemma IndexOfUnique(l: seq<Node>, i: nat)
    requires DistinctFrames(l) && i < |l|
    ensures IndexOf(l, l[i].fpn) == i
  {
  }

  /** Where every node ends up when node `i` moves to the back. */
  lemma MoveToBackAt(l: seq<Node>, i: nat)
    requires i < |l|
    ensures var r := MoveToBack(l, i);
            && |r| == |l|
            && r[|r| - 1] == l[i]
            && (forall j :: 0 <= j < i ==> r[j] == l[j])
            && (forall j :: i <= j < |l| - 1 ==> r[j] == l[j + 1])
            && (forall n :: n in r <==> n in l)
            && (DistinctFrames(l) ==> DistinctFrames(r))
  {
    var r := MoveToBack(l, i);
    forall n | n in l ensures n in r {
      var k :| 0 <= k < |l| && l[k] == n;
      if k < i { assert r[k] == n; } else if k > i { assert r[k - 1] == n; } else { assert r[|r| - 1] == n; }
    }
  }

  /** A touch permutes the list: same nodes, same length, distinct frames stay distinct. */
  lemma TouchKeeps(l: seq<Node>, fpn: nat)
    ensures |Touch(l, fpn)| == |l|
    ensures forall n :: n in Touch(l, fpn) <==> n in l
    ensures DistinctFrames(l) ==> DistinctFrames(Touch(l, fpn))
  {
    var i := IndexOf(l, fpn);
    if i < |l| { MoveToBackAt(l, i); }
  }

  /** Inserting a frame nobody lists appends the node; inserting a listed node keeps the set of nodes. */
  lemma InsertKeeps(l: seq<Node>, n: Node)
    requires DistinctFrames(l)
    requires forall k :: k in l && k.fpn == n.fpn ==> k == n
    ensures DistinctFrames(Insert(l, n))
    ensures forall k :: k in Insert(l, n) <==> k in l || k == n
    ensures |Insert(l, n)| == if n in l then |l| else |l| + 1
    ensures Insert(l, n)[|Insert(l, n)| - 1] == n
  {
    var i := IndexOf(l, n.fpn);
    if i < |l| {
      assert l[i] in l && l[i] == n;
      MoveToBackAt(l, i);
    } else {
      forall k | k in l ensures k.fpn != n.fpn {
        var j :| 0 <= j < |l| && l[j] == k;
      }
    }
  }

  /** Touching the frame that is already last changes nothing. */
  lemma TouchLast(l: seq<Node>)
    requires DistinctFrames(l) && l != []
    ensures Touch(l, l[|l| - 1].fpn) == l
  {
    IndexOfUnique(l, |l| - 1);
  }
}
