/**
Every step of the paging machine keeps frame ownership, the agreement between
list and page tables, and the bytes of every page it does not write.
*/
module PagingInvariant {
  import opened LruSpec
  import opened Paging

  /** No owner at all holds RAM frame `f`. */
  ghost predicate Unowned(m: Machine, f: nat) {
    && f < |m.ram| && f !in m.ramFree && f !in m.pending
    && (forall s :: s in m.table ==> m.table[s] != InRam(f))
  }

  lemma SameContentsTrans(a: Machine, b: Machine, c: Machine)
    requires SameContents(a, b) && SameContents(b, c)
    ensures SameContents(a, c)
  {
  }

  lemma SwapOutContents(m: Machine)
    requires SwapOwnership(m) && LruAgrees(m) && CanSwapOut(m)
    ensures SameContents(m, SwapOut(m))
  {
    assert m.lru[0] in m.lru && m.swapFree[0] in m.swapFree;
  }

  /** A swapped-out victim keeps its bytes, and its RAM frame is left without an owner. */
  lemma SwapOutKeeps(m: Machine)
    requires Inv(m) && m.ramFree == [] && m.lru != [] && m.swapFree != []
    ensures CanSwapOut(m)
    ensures Inv(SwapOut(m)) && SameContents(m, SwapOut(m))
    ensures Unowned(SwapOut(m), m.lru[0].fpn)
  {
    var v, s := m.lru[0], m.swapFree[0];
    assert v in m.lru && s in m.swapFree;
    var r := SwapOut(m);
    assert forall o :: o in r.swapFree ==> o in m.swapFree;
    assert s !in r.swapFree;
    forall n | n in r.lru ensures n.slot in r.table && r.table[n.slot] == InRam(n.fpn) {
      assert n in m.lru && n.fpn != v.fpn;
    }
    SwapOutContents(m);
  }

  /** Nothing is lost by swapping out, except that the victim's frame awaits its new owner. */
  lemma SwapOutComplete(m: Machine)
    requires Inv(m) && Complete(m) && CanSwapOut(m)
    ensures var r := SwapOut(m);
            && (forall s :: s in r.table && r.table[s].InRam? ==> Node(s, r.table[s].fpn) in r.lru)
            && |r.ramFree| + |r.pending| + |r.lru| + 1 == |r.ram|
            && (forall o :: 0 <= o < |r.swap| ==> o in r.swapFree || InSwap(o) in r.table.Values)
  {
    var v, f := m.lru[0], m.swapFree[0];
    assert v in m.lru && f in m.swapFree;
    var r := SwapOut(m);
    forall s | s in r.table && r.table[s].InRam? ensures Node(s, r.table[s].fpn) in r.lru {
      assert s != v.slot;
      assert Node(s, m.table[s].fpn) in m.lru;
    }
    forall o | 0 <= o < |r.swap| ensures o in r.swapFree || InSwap(o) in r.table.Values {
      if o == f {
        assert r.table[v.slot] == InSwap(o);
      } else if o in m.swapFree {
        assert o in r.swapFree;
      } else {
        var s :| s in m.table && m.table[s] == InSwap(o);
        assert r.table[s] == InSwap(o);
      }
    }
  }

  /** The new owner of a listed frame: `Insert` lists exactly the present pages. */
  lemma ListedAfterInsert(m: Machine, slot: Slot, f: nat)
    requires LruAgrees(m) && Unowned(m, f)
    requires slot in m.table ==> m.table[slot].InSwap?
    ensures var t, l := m.table[slot := InRam(f)], Insert(m.lru, Node(slot, f));
            && |l| == |m.lru| + 1
            && DistinctFrames(l)
            && (forall n :: n in l <==> n in m.lru || n == Node(slot, f))
            && (forall n :: n in l ==> n.slot in t && t[n.slot] == InRam(n.fpn))
  {
    assert forall k :: k in m.lru ==> k.fpn != f;
    InsertKeeps(m.lru, Node(slot, f));
  }

  /** The frame a page comes back to, and the swap frame it leaves, have one owner each. */
  lemma SwapInOwnership(m: Machine, slot: Slot, fpn: nat)
    requires Inv(m) && Unowned(m, fpn) && slot in m.table && m.table[slot].InSwap?
    ensures var r := SwapIn(m, slot, fpn, m.table[slot].off); RamOwnership(r) && SwapOwnership(r)
  {
    var tgt := m.table[slot].off;
    var r := SwapIn(m, slot, fpn, tgt);
    assert forall o :: o in r.swapFree <==> o in m.swapFree || o == tgt;
  }

  lemma SwapInContents(m: Machine, slot: Slot, fpn: nat)
    requires Inv(m) && Unowned(m, fpn) && slot in m.table && m.table[slot].InSwap?
    ensures SameContents(m, SwapIn(m, slot, fpn, m.table[slot].off))
  {
  }

  /** A page that comes back from swap shows the bytes it had there. */
  lemma SwapInKeeps(m: Machine, slot: Slot, fpn: nat)
    requires Inv(m) && Unowned(m, fpn) && m.ramFree == []
    requires slot in m.table && m.table[slot].InSwap?
    ensures var r := SwapIn(m, slot, fpn, m.table[slot].off);
            Inv(r) && SameContents(m, r) && |r.lru| == |m.lru| + 1 && r.table[slot] == InRam(fpn)
  {
    SwapInOwnership(m, slot, fpn);
    SwapInContents(m, slot, fpn);
    ListedAfterInsert(m, slot, fpn);
  }

  lemma SwapInComplete(m: Machine, slot: Slot, fpn: nat)
    requires Inv(m) && Unowned(m, fpn) && m.ramFree == []
    requires slot in m.table && m.table[slot].InSwap?
    requires forall s :: s in m.table && m.table[s].InRam? ==> Node(s, m.table[s].fpn) in m.lru
    requires |m.ramFree| + |m.pending| + |m.lru| + 1 == |m.ram|
    requires forall o :: 0 <= o < |m.swap| ==> o in m.swapFree || InSwap(o) in m.table.Values
    ensures Complete(SwapIn(m, slot, fpn, m.table[slot].off))
  {
    var tgt := m.table[slot].off;
    var r := SwapIn(m, slot, fpn, tgt);
    ListedAfterInsert(m, slot, fpn);
    forall o | 0 <= o < |r.swap| ensures o in r.swapFree || InSwap(o) in r.table.Values {
      if o == tgt {
        assert r.swapFree[0] == o;
      } else if o in m.swapFree {
      } else {
        var s :| s in m.table && m.table[s] == InSwap(o);
        assert r.table[s] == InSwap(o);
      }
    }
  }

  // ---------- The steps ----------

  lemma TakeFreeKeeps(m: Machine)
    requires Inv(m) && m.ramFree != []
    ensures Inv(Take(m).m) && SameContents(m, Take(m).m)
    ensures Complete(m) ==> Complete(Take(m).m)
  {
    var f, r := m.ramFree[0], Take(m).m;
    assert f in m.ramFree;
    assert forall g :: g in r.pending <==> g in m.pending || g == f;
    assert forall g :: g in r.ramFree ==> g in m.ramFree;
    assert f !in r.ramFree;
  }

  /** Handing an unowned frame to the pending list. */
  lemma PendKeeps(m: Machine, f: nat)
    requires Inv(m) && Unowned(m, f)
    ensures var r := m.(pending := [f] + m.pending); Inv(r) && SameContents(m, r)
  {
    var r := m.(pending := [f] + m.pending);
    assert forall g :: g in r.pending <==> g in m.pending || g == f;
  }

  /** Losing the head of the list, or the pending frames, breaks no ownership. */
  lemma DropKeeps(m: Machine)
    requires Inv(m)
    ensures Inv(m.(lru := WithoutVictim(m.lru))) && Inv(m.(lru := WithoutVictim(m.lru), pending := []))
  {
    assert forall n :: n in WithoutVictim(m.lru) ==> n in m.lru;
  }

  lemma TakeKeeps(m: Machine)
    requires Inv(m)
    ensures Take(m).Undefined? <==> m.ramFree == [] && m.lru == [] && m.swapFree != []
    ensures !Take(m).Undefined? ==> Inv(Take(m).m) && SameContents(m, Take(m).m) && Take(m).m.table.Keys == m.table.Keys
    ensures Take(m).Ok? && Complete(m) ==> Complete(Take(m).m)
  {
    if m.ramFree != [] {
      TakeFreeKeeps(m);
    } else if m.swapFree == [] {
      DropKeeps(m);
    } else if m.lru != [] {
      SwapOutKeeps(m);
      PendKeeps(SwapOut(m), m.lru[0].fpn);
      if Complete(m) { SwapOutComplete(m); }
      assert m.lru[0] in m.lru;
    }
  }

  /** The first pending frame passes to the page that is mapped. */
  lemma InstallOwnership(m: Machine, slot: Slot)
    requires Inv(m) && m.pending != [] && slot !in m.table
    ensures RamOwnership(Install(m, slot)) && SwapOwnership(Install(m, slot))
    ensures Unowned(m.(pending := m.pending[1..]), m.pending[0])
  {
    var f, r := m.pending[0], Install(m, slot);
    assert f in m.pending;
    assert forall g :: g in r.pending ==> g in m.pending && g != f;
  }

  lemma InstallKeeps(m: Machine, slot: Slot)
    requires Inv(m) && m.pending != [] && slot !in m.table
    ensures Inv(Install(m, slot)) && SameContents(m, Install(m, slot))
  {
    InstallOwnership(m, slot);
    ListedAfterInsert(m.(pending := m.pending[1..]), slot, m.pending[0]);
  }

  lemma InstallComplete(m: Machine, slot: Slot)
    requires Inv(m) && m.pending != [] && slot !in m.table && Complete(m)
    ensures Complete(Install(m, slot))
  {
    var f, r := m.pending[0], Install(m, slot);
    InstallOwnership(m, slot);
    ListedAfterInsert(m.(pending := m.pending[1..]), slot, f);
    forall o | 0 <= o < |r.swap| ensures o in r.swapFree || InSwap(o) in r.table.Values {
      if o !in m.swapFree {
        var s :| s in m.table && m.table[s] == InSwap(o);
        assert r.table[s] == InSwap(o);
      }
    }
  }

  lemma ReplaceKeeps(m: Machine, slot: Slot)
    requires Inv(m) && m.ramFree == [] && slot in m.table && m.table[slot].InSwap?
    ensures var r := Replace(BySwapOffset, m, slot, m.table[slot].off);
            && (r.Undefined? <==> m.lru == [] && m.swapFree != [])
            && (!r.Undefined? ==> Inv(r.m) && SameContents(m, r.m) && r.m.table.Keys == m.table.Keys)
            && (r.Ok? ==> m.lru != [] && r.m.table[slot] == InRam(m.lru[0].fpn) && |r.m.lru| == |m.lru|)
  {
    if m.swapFree == [] {
      DropKeeps(m);
    } else if m.lru != [] {
      SwapOutKeeps(m);
      var m1, f := SwapOut(m), m.lru[0].fpn;
      assert m1.table[slot] == m.table[slot] && m.lru[0].slot in m.table by { assert m.lru[0] in m.lru; }
      SwapInKeeps(m1, slot, f);
      SameContentsTrans(m, m1, SwapIn(m1, slot, f, m.table[slot].off));
    }
  }

  lemma ReplaceComplete(m: Machine, slot: Slot)
    requires Inv(m) && m.ramFree == [] && slot in m.table && m.table[slot].InSwap? && Complete(m)
    requires m.lru != [] && m.swapFree != []
    ensures Replace(BySwapOffset, m, slot, m.table[slot].off).Ok?
    ensures Complete(Replace(BySwapOffset, m, slot, m.table[slot].off).m)
  {
    assert m.lru[0] in m.lru;
    SwapOutKeeps(m);
    SwapOutComplete(m);
    SwapInComplete(SwapOut(m), slot, m.lru[0].fpn);
  }

  lemma TouchStepKeeps(m: Machine, f: nat)
    requires Inv(m)
    ensures var r := m.(lru := Touch(m.lru, f)); Inv(r) && SameContents(m, r) && (Complete(m) ==> Complete(r))
  {
    TouchKeeps(m.lru, f);
  }

  /** A present page only moves to the back of the list. */
  lemma RelistKeeps(m: Machine, slot: Slot)
    requires Inv(m) && slot in m.table && m.table[slot].InRam?
    ensures var n := Node(slot, m.table[slot].fpn);
            var r := m.(lru := Insert(m.lru, n));
            Inv(r) && SameContents(m, r) && n in r.lru && (Complete(m) ==> Complete(r))
  {
    var n := Node(slot, m.table[slot].fpn);
    forall k | k in m.lru && k.fpn == n.fpn ensures k == n { }
    InsertKeeps(m.lru, n);
  }

  /** A page that was brought back is listed. */
  lemma ReplaceLists(m: Machine, slot: Slot)
    requires Inv(m) && m.ramFree == [] && slot in m.table && m.table[slot].InSwap? && m.lru != [] && m.swapFree != []
    ensures var r := Replace(BySwapOffset, m, slot, m.table[slot].off);
            r.Ok? && Node(slot, m.lru[0].fpn) in r.m.lru
  {
    SwapOutKeeps(m);
    ListedAfterInsert(SwapOut(m), slot, m.lru[0].fpn);
  }

  lemma GetPageKeeps(m: Machine, slot: Slot)
    requires Inv(m) && slot in m.table
    ensures var r := GetPage(BySwapOffset, m, slot);
            && (r.Undefined? <==> m.table[slot].InSwap? && m.lru == [] && m.swapFree != [])
            && (!r.Undefined? ==> Inv(r.m) && SameContents(m, r.m) && r.m.table.Keys == m.table.Keys)
            && (r.Ok? ==> r.m.table[slot].InRam? && Node(slot, r.m.table[slot].fpn) in r.m.lru)
            && (r.Ok? && Complete(m) ==> Complete(r.m))
  {
    match m.table[slot]
    case InRam(f) =>
      RelistKeeps(m, slot);
    case InSwap(off) =>
      assert m.ramFree == [];
      ReplaceKeeps(m, slot);
      if m.lru != [] && m.swapFree != [] {
        if Complete(m) { ReplaceComplete(m, slot); }
        ReplaceLists(m, slot);
      }
  }

  /** A byte written through a present entry changes that page at that byte and nothing else. */
  lemma PokeKeeps(m: Machine, slot: Slot, phys: nat, value: Byte)
    requires Inv(m) && slot in m.table && m.table[slot].InRam? && phys < PAGE_SIZE
    ensures var f := m.table[slot].fpn;
            var r := m.(ram := m.ram[f := m.ram[f][phys := value]]);
            && Inv(r) && (Complete(m) ==> Complete(r))
            && (forall s :: s in m.table ==>
                  Backed(r, s) && Content(r, s) == if s == slot then Content(m, s)[phys := value] else Content(m, s))
  {
  }

  /** What an access does to the bytes of page `s`: only a completed write to `s` changes them. */
  ghost predicate AccessEffect(m: Machine, m': Machine, slot: Slot, phys: nat, written: bool, value: Byte)
    requires Inv(m) && slot in m.table && phys < PAGE_SIZE
  {
    && m'.table.Keys == m.table.Keys
    && (forall s :: s in m.table ==>
          && Backed(m', s)
          && Content(m', s) == if written && s == slot then Content(m, s)[phys := value] else Content(m, s))
  }

  /** The byte access once the page has arrived. */
  lemma ByteAccessKeeps(m: Machine, slot: Slot, phys: nat, write: bool, value: Byte)
    requires Inv(m) && slot in m.table && m.table[slot].InRam? && phys < PAGE_SIZE
    ensures var f := m.table[slot].fpn;
            var r := m.(ram := if write then m.ram[f := m.ram[f][phys := value]] else m.ram, lru := Touch(m.lru, f));
            Inv(r) && AccessEffect(m, r, slot, phys, write, value) && (Complete(m) ==> Complete(r))
  {
    var m1 := m.(lru := Touch(m.lru, m.table[slot].fpn));
    TouchStepKeeps(m, m.table[slot].fpn);
    if write { PokeKeeps(m1, slot, phys, value); }
  }

  lemma AccessEffectTrans(m: Machine, m1: Machine, m2: Machine, slot: Slot, phys: nat, written: bool, value: Byte)
    requires Inv(m) && Inv(m1) && slot in m.table && phys < PAGE_SIZE
    requires SameContents(m, m1) && m1.table.Keys == m.table.Keys && AccessEffect(m1, m2, slot, phys, written, value)
    ensures AccessEffect(m, m2, slot, phys, written, value)
  {
    forall s | s in m.table ensures Backed(m, s) { }
  }

  /** What an access adds to the effect of its fetch `g`. */
  lemma AccessFetchedKeeps(m: Machine, g: Outcome, slot: Slot, phys: nat, write: bool, value: Byte)
    requires Inv(m) && slot in m.table && phys < PAGE_SIZE
    requires !g.Undefined? ==> Inv(g.m) && SameContents(m, g.m) && g.m.table.Keys == m.table.Keys
    requires g.Ok? ==> g.m.table[slot].InRam? && (Complete(m) ==> Complete(g.m))
    ensures var r := AccessFetched(g, slot, FrameField(m.table[slot]), phys, write, value);
            && (r.Undefined? <==> g.Undefined? || (g.OutOfSwap? && g.m.lru == []))
            && (!r.Undefined? ==> Inv(r.m) && AccessEffect(m, r.m, slot, phys, r.Ok? && write, value))
            && (r.Ok? ==> r.m.table[slot].InRam? && (Complete(m) ==> Complete(r.m)))
  {
    var r := AccessFetched(g, slot, FrameField(m.table[slot]), phys, write, value);
    if g.Ok? {
      ByteAccessKeeps(g.m, slot, phys, write, value);
      AccessEffectTrans(m, g.m, r.m, slot, phys, write, value);
    } else if g.OutOfSwap? && g.m.lru != [] {
      TouchStepKeeps(g.m, FrameField(m.table[slot]));
      AccessEffectTrans(m, g.m, r.m, slot, phys, false, value);
    }
  }

  lemma AccessKeeps(m: Machine, slot: Slot, phys: nat, write: bool, value: Byte)
    requires Inv(m) && slot in m.table && phys < PAGE_SIZE
    ensures var r := Access(BySwapOffset, m, slot, phys, write, value);
            && (r.Undefined? <==> m.table[slot].InSwap? && (m.lru == [] || (m.swapFree == [] && |m.lru| == 1)))
            && (!r.Undefined? ==> Inv(r.m) && AccessEffect(m, r.m, slot, phys, r.Ok? && write, value))
            && (r.Ok? ==> r.m.table[slot].InRam?)
            && (r.Ok? && Complete(m) ==> Complete(r.m))
  {
    GetPageKeeps(m, slot);
    AccessFetchedKeeps(m, GetPage(BySwapOffset, m, slot), slot, phys, write, value);
  }

  /** What a store without touch adds to the effect of its fetch `g`. */
  lemma PokeFetchedKeeps(m: Machine, g: Outcome, slot: Slot, phys: nat, value: Byte)
    requires Inv(m) && slot in m.table && phys < PAGE_SIZE
    requires !g.Undefined? ==> Inv(g.m) && SameContents(m, g.m) && g.m.table.Keys == m.table.Keys
    requires g.Ok? ==> g.m.table[slot].InRam? && (Complete(m) ==> Complete(g.m))
    ensures var r := PokeFetched(g, slot, phys, value);
            && (r.Undefined? <==> g.Undefined?)
            && (!r.Undefined? ==> Inv(r.m) && AccessEffect(m, r.m, slot, phys, r.Ok?, value))
            && (r.Ok? && Complete(m) ==> Complete(r.m))
  {
    if g.Ok? {
      PokeKeeps(g.m, slot, phys, value);
      AccessEffectTrans(m, g.m, PokeFetched(g, slot, phys, value).m, slot, phys, true, value);
    } else if g.OutOfSwap? {
      AccessEffectTrans(m, g.m, g.m, slot, phys, false, value);
    }
  }

  /** A store changes exactly its byte, through any fault, and only if the page arrived. */
  lemma PokeStepKeeps(m: Machine, slot: Slot, phys: nat, value: Byte)
    requires Inv(m) && slot in m.table && phys < PAGE_SIZE
    ensures var r := Poke(BySwapOffset, m, slot, phys, value);
            && (r.Undefined? <==> m.table[slot].InSwap? && m.lru == [] && m.swapFree != [])
            && (!r.Undefined? ==> Inv(r.m) && AccessEffect(m, r.m, slot, phys, r.Ok?, value))
            && (r.Ok? && Complete(m) ==> Complete(r.m))
  {
    GetPageKeeps(m, slot);
    PokeFetchedKeeps(m, GetPage(BySwapOffset, m, slot), slot, phys, value);
  }

  lemma ReuseKeeps(m: Machine, slot: Slot)
    requires Inv(m) && slot in m.table
    ensures var r := Reuse(BySwapOffset, m, slot);
            && (r.Undefined? <==> m.lru == [] && (m.table[slot].InRam? || m.swapFree != []))
            && (!r.Undefined? ==> Inv(r.m) && SameContents(m, r.m) && r.m.table.Keys == m.table.Keys)
            && (r.Ok? && Complete(m) ==> Complete(r.m))
  {
    var e := m.table[slot];
    if e.InSwap? {
      ReplaceKeeps(m, slot);
      if m.lru != [] && m.swapFree != [] && Complete(m) { ReplaceComplete(m, slot); }
      var g := Replace(BySwapOffset, m, slot, e.off);
      if g.Ok? { TouchStepKeeps(g.m, FrameField(e)); }
    } else if m.lru != [] {
      TouchStepKeeps(m, FrameField(e));
    }
  }

  /** What a step does to the bytes of the pages that were mapped before it. */
  ghost predicate Effect(m: Machine, op: Op, r: Outcome)
    requires Inv(m) && Legal(m, op) && !r.Undefined?
  {
    && r.m.table.Keys == m.table.Keys + (if op.InstallPage? then {op.slot} else {})
    && (forall s :: s in m.table ==>
          && Backed(r.m, s)
          && Content(r.m, s) == if r.Ok? && Puts(op) && s == op.slot
                                then Content(m, s)[PhysOffset(op.area, op.off) := op.value] else Content(m, s))
  }

  /** A step that writes nothing and keeps every page's bytes has the stated effect. */
  lemma EffectOfSame(m: Machine, op: Op, r: Outcome)
    requires Inv(m) && Legal(m, op) && !r.Undefined? && !Puts(op) && SameContents(m, r.m)
    requires r.m.table.Keys == m.table.Keys + (if op.InstallPage? then {op.slot} else {})
    ensures Effect(m, op, r)
  {
    forall s | s in m.table ensures Backed(m, s) { }
  }

  lemma EffectOfAccess(m: Machine, op: Op, r: Outcome)
    requires Inv(m) && Legal(m, op) && (op.Read? || Puts(op)) && !r.Undefined?
    requires var value := if Puts(op) then op.value else 0;
             AccessEffect(m, r.m, op.slot, PhysOffset(op.area, op.off), r.Ok? && Puts(op), value)
    ensures Effect(m, op, r)
  {
  }

  lemma AccessStepKeeps(m: Machine, op: Op)
    requires Inv(m) && Legal(m, op) && (op.Read? || Puts(op))
    ensures var r := Step(BySwapOffset, m, op);
            && (!r.Undefined? ==> Inv(r.m) && Effect(m, op, r))
            && (r.Ok? && Complete(m) ==> Complete(r.m))
  {
    match op {
      case Read(s, a, off) => AccessKeeps(m, s, PhysOffset(a, off), false, 0);
      case Write(s, a, off, v) => AccessKeeps(m, s, PhysOffset(a, off), true, v);
      case SetByte(s, a, off, v) => PokeStepKeeps(m, s, PhysOffset(a, off), v);
    }
    if !Step(BySwapOffset, m, op).Undefined? { EffectOfAccess(m, op, Step(BySwapOffset, m, op)); }
  }

  /** Every legal step keeps the invariant, changes the bytes of no page except
      the one it writes, and unless it runs out of swap loses nothing. */
  lemma StepKeeps(m: Machine, op: Op)
    requires Inv(m) && Legal(m, op)
    ensures var r := Step(BySwapOffset, m, op);
            && (!r.Undefined? ==> Inv(r.m) && Effect(m, op, r))
            && (r.Ok? && Complete(m) ==> Complete(r.m))
  {
    var r := Step(BySwapOffset, m, op);
    if op.Read? || Puts(op) {
      AccessStepKeeps(m, op);
    } else {
      match op {
        case TakeFrame => TakeKeeps(m);
        case InstallPage(s) => InstallKeeps(m, s); if Complete(m) { InstallComplete(m, s); }
        case ReusePage(s) => ReuseKeeps(m, s);
      }
      if !r.Undefined? { EffectOfSame(m, op, r); }
    }
  }
}
