/** The doubly linked replacement list of src/mm-vm.c. It implements the functions of `LruSpec`. */
module LruList {
  import opened Options
  import opened LruSpec

  class Item {
    var next: Item?
    var prev: Item?
    const slot: Slot
    const fpn: nat

    constructor (slot: Slot, fpn: nat)
      ensures this.slot == slot && this.fpn == fpn && next == null && prev == null
    {
      this.slot, this.fpn := slot, fpn;
      next, prev := null, null;
    }
  }

  class List {
    var head: Item?
    var tail: Item?
    ghost var items: seq<Item>
    ghost var Repr: set<Item>  // all nodes the list may touch

    /** Links forward and backward are mirror images, and head and tail are the ends. */
    ghost predicate Valid()
      reads this, Repr
    {
      && (forall i :: 0 <= i < |items| ==> items[i] in Repr)
      && (forall i, j :: 0 <= i < j < |items| ==> items[i] != items[j])
      && (items == [] ==> head == null && tail == null)
      && (items != [] ==> head == items[0] && tail == items[|items| - 1] && head.prev == null && tail.next == null)
      && (forall i {:trigger items[i].next} :: 0 <= i < |items| - 1 ==> items[i].next == items[i + 1])
      && (forall i {:trigger items[i].prev} :: 1 <= i < |items| ==> items[i].prev == items[i - 1])
    }

    /** The list as a value. */
    ghost function Nodes(): (r: seq<Node>)
      reads this
      ensures |r| == |items| && forall i :: 0 <= i < |items| ==> r[i] == Node(items[i].slot, items[i].fpn)
    {
      seq(|items|, i requires 0 <= i < |items| reads this => Node(items[i].slot, items[i].fpn))
    }

    constructor ()
      ensures Valid() && items == [] && Nodes() == [] && Repr == {}
    {
      head, tail, items, Repr := null, null, [], {};
    }

    /** Unlink node `i`, which is not the last. */
    method Unlink(p: Item, ghost i: nat)
      requires Valid() && i < |items| - 1 && items[i] == p
      modifies this, Repr
      ensures Valid() && items == old(items)[..i] + old(items)[i + 1..] && Repr == old(Repr)
    {
      if p == head {
        head := head.next;
        head.prev := null;
      } else {
        p.prev.next := p.next;
        p.next.prev := p.prev;
      }
      items := items[..i] + items[i + 1..];
    }

    /** Link an unlisted node behind the last. */
    method Append(p: Item)
      requires Valid() && items != [] && p !in items
      modifies this, Repr, p
      ensures Valid() && items == old(items) + [p] && Repr == old(Repr) + {p}
    {
      tail.next := p;
      p.prev := tail;
      p.next := null;
      tail := p;
      items, Repr := items + [p], Repr + {p};
    }

    /** Move node `i` to the back: the branches shared by both list updates. */
    method Requeue(p: Item, ghost i: nat)
      requires Valid() && i < |items| && items[i] == p
      modifies this, Repr
      ensures Valid() && Nodes() == MoveToBack(old(Nodes()), i) && Repr == old(Repr)
    {
      ghost var was := items;
      if p != tail {
        Unlink(p, i);
        Append(p);
        assert items == was[..i] + was[i + 1..] + [was[i]];
      }
    }

    /** `update_LRU_lst`. */
    method Update(fpn: nat)
      requires Valid() && items != []
      modifies this, Repr
      ensures Valid() && Nodes() == Touch(old(Nodes()), fpn) && Repr == old(Repr)
    {
      var p := head;
      ghost var i := 0;
      while p.next != null
        invariant i < |items| && items[i] == p
        invariant forall j :: 0 <= j < i ==> items[j].fpn != fpn
        decreases |items| - i
      {
        if p.fpn == fpn {
          break;
        }
        p := p.next;
        i := i + 1;
      }
      assert p.next == null ==> i == |items| - 1;
      Requeue(p, i);
      LastOrFirst(old(Nodes()), i, fpn);
    }

    /** The node where the search of `update_LRU_lst` ends, moved to the back, is what `Touch` does. */
    static lemma LastOrFirst(l: seq<Node>, i: nat, fpn: nat)
      requires i < |l| && forall j :: 0 <= j < i ==> l[j].fpn != fpn
      requires l[i].fpn != fpn ==> i == |l| - 1
      ensures MoveToBack(l, i) == Touch(l, fpn)
    {
      if l[i].fpn == fpn {
        assert IndexOf(l, fpn) == i;
      } else {
        assert IndexOf(l, fpn) == |l|;
        assert l[..i] + l[i + 1..] + [l[i]] == l;
      }
    }

    /** `add_LRU_page`. */
    method Add(slot: Slot, fpn: nat)
      requires Valid()
      modifies this, Repr
      ensures Valid() && Nodes() == Insert(old(Nodes()), Node(slot, fpn))
      ensures fresh(Repr - old(Repr))
    {
      var tmp := new Item(slot, fpn);
      if head == null {
        head, tail, items, Repr := tmp, tmp, [tmp], Repr + {tmp};
        assert Nodes() == old(Nodes()) + [Node(slot, fpn)];
        return;
      }
      var p := head;
      ghost var i := 0;
      while p != null
        invariant i <= |items| && p == (if i < |items| then items[i] else null)
        invariant forall j :: 0 <= j < i ==> items[j].fpn != fpn
        decreases |items| - i
      {
        if p.fpn == fpn {
          break;
        }
        p := p.next;
        i := i + 1;
      }
      if p != null {
        assert IndexOf(Nodes(), fpn) == i;
        Requeue(p, i);
      } else {
        assert IndexOf(Nodes(), fpn) == |Nodes()|;
        Append(tmp);
        assert Nodes() == old(Nodes()) + [Node(slot, fpn)];
      }
    }

    /** `find_LRU_victim_page`: the head, if there is one, leaves the list. */
    method Victim() returns (v: Option<Node>)
      requires Valid()
      modifies this, Repr
      ensures Valid() && Repr == old(Repr)
      ensures v == if old(Nodes()) == [] then None else Some(old(Nodes())[0])
      ensures Nodes() == if old(Nodes()) == [] then [] else old(Nodes())[1..]
    {
      if head == null {
        return None;
      }
      var temp := head;
      v := Some(Node(temp.slot, temp.fpn));
      if head == tail {
        head, tail := null, null;
      } else {
        head := head.next;
        head.prev := null;
        temp.next := null;
      }
      items := items[1..];
      assert Nodes() == old(Nodes())[1..];
    }
  }
}
