/**
Paging as src/mm.c and src/mm-vm.c run it: page-table words, byte arrays, free lists and the linked list,
updated in place. Every operation is proved to be the step of `Paging` it implements.
*/
module MemoryUnit {
  import opened Options
  import opened LruSpec
  import opened Paging
  import opened PagingLimits
  import opened PagingRuns
  import opened PageTable
  import opened PageTableEntry
  import opened PhysicalMemory
  import LruList

  /** The return value for lack of swap space. */
  const OUT_OF_SWAP: int := -3000

  /** Successive iterations of `vmap_page_range`. */
  ghost function InstallAll(m: Machine, pid: nat, first: nat, n: nat, area: Area): Machine
    requires n <= |m.pending| && (area.Heap? ==> n <= first + 1)
    decreases n
  {
    if n == 0 then m
    else InstallAll(Install(m, PageSlot(pid, first, n - 1, area)), pid, first, n - 1, area)
  }

  function PageSlot(pid: nat, first: nat, i: nat, area: Area): Slot
    requires area.Heap? ==> i <= first
  {
    Slot(pid, if area.Stack? then first + i else first - i)
  }

  /** `vm_map_ram`: the frames are taken and all pages installed, or nothing is installed. */
  ghost function Mapping(m: Machine, pid: nat, first: nat, n: nat, area: Area): Outcome
    requires area.Heap? ==> n <= first + 1
  {
    TakeNPends(m, n);
    match TakeN(m, n)
    case Ok(m1) => Ok(InstallAll(m1, pid, first, n, area))
    case r => r
  }

  ghost predicate InRamBounds(m: Machine, frames: seq<nat>) {
    forall k :: 0 <= k < |frames| ==> frames[k] < |m.ram|
  }

  /** `n` more pages are to get the first of `frames`, which will lead to `mapped`. */
  ghost predicate Installing(
      m: Machine, pid: nat, first: nat, n: nat, area: Area, frames: seq<nat>, mapped: Machine) {
    && m.pending == frames && InRamBounds(m, frames) && n <= |frames| && (area.Heap? ==> n <= first + 1)
    && InstallAll(m, pid, first, n, area) == mapped
  }

  /** A request that succeeds collects as many frames as it asked for, and they are frames of RAM. */
  lemma {:induction false} TakeNPends(m: Machine, n: nat)
    ensures TakeN(m, n).Ok? ==> |TakeN(m, n).m.pending| == |m.pending| + n
    ensures TakeN(m, n).Ok? && InRamBounds(m, m.ramFree) && InRamBounds(m, m.pending) ==>
              InRamBounds(TakeN(m, n).m, TakeN(m, n).m.pending)
    decreases n
  {
    if n > 0 && Take(m).Ok? { TakeNPends(Take(m).m, n - 1); }
  }

  /** An access in terms of the page fetch `g` it starts with. */
  lemma AccessAfterFetch(g: Outcome, slot: Slot, stale: nat, phys: nat, write: bool, value: Byte)
    requires phys < PAGE_SIZE && (g.Ok? ==> slot in g.m.table)
    requires !AccessFetched(g, slot, stale, phys, write, value).Undefined?
    ensures var r, p := AccessFetched(g, slot, stale, phys, write, value), PokeFetched(g, slot, phys, value);
            && !g.Undefined? && (g.Ok? <==> r.Ok?) && p.Ok? == g.Ok? && !p.Undefined?
            && (g.OutOfSwap? ==> g.m.lru != [] && p == g && r.m == g.m.(lru := Touch(g.m.lru, stale)))
            && (g.Ok? ==>
                  var f := FrameField(g.m.table[slot]);
                  && f < |g.m.ram| && p.m.lru == g.m.lru && p.m.table == g.m.table
                  && r.m == (if write then p.m else g.m).(lru := Touch(g.m.lru, f)))
  {
  }

  /** A fetch that succeeds leaves a present entry and a non-empty list, one that fails leaves the entries alone. */
  lemma FetchLists(d: Decoder, m: Machine, slot: Slot)
    ensures var g := Paging.GetPage(d, m, slot);
            && (g.Ok? ==> g.m.lru != [] && slot in g.m.table && g.m.table[slot].InRam?)
            && (g.OutOfSwap? ==> g.m.table == m.table)
  {
    assert forall l, n: Node :: |Insert(l, n)| > 0;
  }

  lemma ReadValueAfterFetch(d: Decoder, m: Machine, slot: Slot, area: Area, off: nat)
    requires off < PAGE_SIZE && Access(d, m, slot, PhysOffset(area, off), false, 0).Ok?
    ensures var g := Paging.GetPage(d, m, slot);
            && g.Ok? && slot in g.m.table && FrameField(g.m.table[slot]) < |g.m.ram|
            && ReadValue(d, m, slot, area, off) == g.m.ram[FrameField(g.m.table[slot])][PhysOffset(area, off)]
  {
    FetchLists(d, m, slot);
    AccessAfterFetch(Paging.GetPage(d, m, slot), slot, FrameField(EntryOf(m, slot)), PhysOffset(area, off), false, 0);
  }

  class Mmu {
    const ram: Device
    const swap: Device
    const lru: LruList.List
    const decoder: Decoder
    var pgd: map<Slot, Word>
    ghost var m: Machine  // the paging machine these make up; its pending frames are those of the request in progress

    ghost predicate Valid()
      reads this, ram, ram.storage, swap, swap.storage, lru, lru.Repr
    {
      && ram != swap && ram.storage != swap.storage
      && ram.FrameCount() <= 8192 && swap.FrameCount() <= 0x20_0000
      && lru.Valid() && GoodTable(pgd)
      && m.ram == ram.Frames() && m.swap == swap.Frames()
      && m.ramFree == ram.free && m.swapFree == swap.free
      && m.table == TableOf(pgd) && m.lru == lru.Nodes()
    }

    /** All of memory free and nothing mapped. */
    constructor (ramSize: nat, swapSize: nat, decoder: Decoder)
      requires ramSize / PAGE_SIZE <= 8192 && swapSize / PAGE_SIZE <= 0x20_0000
      ensures Valid() && Booted(m) && this.decoder == decoder
      ensures |m.ram| == ramSize / PAGE_SIZE && |m.swap| == swapSize / PAGE_SIZE
      ensures fresh(ram) && fresh(swap) && fresh(lru) && fresh(ram.storage) && fresh(swap.storage) && fresh(lru.Repr)
    {
      ram := new Device(ramSize);
      swap := new Device(swapSize);
      lru := new LruList.List();
      pgd := map[];
      this.decoder := decoder;
      new;
      m := Machine(ram.Frames(), swap.Frames(), ram.free, swap.free, map[], [], []);
    }

    /** The word of an entry; an entry never written is zero and names no page. */
    function EntryAt(s: Slot): (e: Word)
      reads this
      ensures s !in pgd ==> View(e) == None && FrameNumber(e) == 0 && SwapOffset(e) == 0
    {
      if s in pgd then pgd[s] else ZeroWord()
    }

    // ---------- Single changes of state ----------

    method SetEntry(s: Slot, e: Word)
      requires Valid() && GoodEntry(e)
      modifies this
      ensures Valid() && m == old(m).(table := old(m.table)[s := View(e).value])
    {
      TableUpdate(pgd, s, e);
      pgd := pgd[s := e];
      m := m.(table := TableOf(pgd));
    }

    /** `pte_set_fpn` on the entry of a page. */
    method SetPresent(s: Slot, f: nat)
      requires Valid() && f < 8192
      modifies this
      ensures Valid() && m == old(m).(table := old(m.table)[s := InRam(f)])
    {
      var e := SetFpn(EntryAt(s), f);
      EntryOfFpn(EntryAt(s), f);
      SetEntry(s, e);
    }

    /** `pte_set_swap` on the entry of a page, for the swap device with index 0. */
    method SetSwapped(s: Slot, o: nat)
      requires Valid() && o < 0x20_0000
      modifies this
      ensures Valid() && m == old(m).(table := old(m.table)[s := InSwap(o)])
    {
      var typ: nat := 0;
      var e := SetSwap(EntryAt(s), typ, o);
      EntryOfSwap(EntryAt(s), typ, o);
      SetEntry(s, e);
    }

    method PopVictim() returns (v: Option<Node>)
      requires Valid()
      modifies this`m, lru, lru.Repr
      ensures Valid() && lru.Repr == old(lru.Repr)
      ensures v == if old(m.lru) == [] then None else Some(old(m.lru)[0])
      ensures m == old(m).(lru := WithoutVictim(old(m.lru)))
    {
      v := lru.Victim();
      m := m.(lru := lru.Nodes());
    }

    method AddPage(slot: Slot, f: nat)
      requires Valid()
      modifies this`m, lru, lru.Repr
      ensures Valid() && fresh(lru.Repr - old(lru.Repr))
      ensures m == old(m).(lru := Insert(old(m.lru), Node(slot, f)))
    {
      lru.Add(slot, f);
      m := m.(lru := lru.Nodes());
    }

    method TouchFrame(f: nat)
      requires Valid() && m.lru != []
      modifies this`m, lru, lru.Repr
      ensures Valid() && lru.Repr == old(lru.Repr)
      ensures m == old(m).(lru := Touch(old(m.lru), f))
    {
      lru.Update(f);
      m := m.(lru := lru.Nodes());
    }

    method SaveFrame(f: nat, o: nat)
      requires Valid() && f < |m.ram| && o < |m.swap|
      modifies this`m, swap.storage
      ensures Valid() && m == old(m).(swap := old(m.swap)[o := old(m.ram)[f]])
    {
      CopyPage(ram, f, swap, o);
      m := m.(swap := swap.Frames());
    }

    method LoadFrame(o: nat, f: nat)
      requires Valid() && f < |m.ram| && o < |m.swap|
      modifies this`m, ram.storage
      ensures Valid() && m == old(m).(ram := old(m.ram)[f := old(m.swap)[o]])
    {
      CopyPage(swap, o, ram, f);
      m := m.(ram := ram.Frames());
    }

    method TakeSwapFrame() returns (o: Option<nat>)
      requires Valid()
      modifies this`m, swap
      ensures Valid() && o == if old(m.swapFree) == [] then None else Some(old(m.swapFree)[0])
      ensures m == if old(m.swapFree) == [] then old(m) else old(m).(swapFree := old(m.swapFree)[1..])
    {
      o := swap.GetFreeFrame();
      m := m.(swapFree := swap.free);
    }

    method TakeRamFrame() returns (f: Option<nat>)
      requires Valid()
      modifies this`m, ram
      ensures Valid() && f == if old(m.ramFree) == [] then None else Some(old(m.ramFree)[0])
      ensures m == if old(m.ramFree) == [] then old(m) else old(m).(ramFree := old(m.ramFree)[1..])
    {
      f := ram.GetFreeFrame();
      m := m.(ramFree := ram.free);
    }

    method ReturnSwapFrame(o: nat)
      requires Valid()
      modifies this`m, swap
      ensures Valid() && m == old(m).(swapFree := [o] + old(m.swapFree))
    {
      swap.PutFreeFrame(o);
      m := m.(swapFree := swap.free);
    }

    /** The frame list of the request in progress is a local variable of the code. */
    ghost method SetPending(frames: seq<nat>)
      requires Valid()
      modifies this`m
      ensures Valid() && m == old(m).(pending := frames)
    {
      m := m.(pending := frames);
    }

    /** The location the fault handler reads from a swapped entry. */
    method Location(s: Slot) returns (tgt: nat)
      requires Valid() && EntryOf(m, s).InSwap?
      ensures tgt == Locate(decoder, EntryOf(m, s).off)
    {
      EntryFields(pgd, m.table, s, EntryAt(s));
      tgt := if decoder.BySwapOffset? then SwapOffset(EntryAt(s)) else FrameNumber(EntryAt(s));
    }

    /** Whether an entry is present, and its frame number field. */
    method FrameOf(slot: Slot) returns (present: bool, fpn: nat)
      requires Valid()
      ensures present == EntryOf(m, slot).InRam? && fpn == FrameField(EntryOf(m, slot))
    {
      var e := EntryAt(slot);
      EntryFields(pgd, m.table, slot, e);
      present, fpn := IsPresent(e), FrameNumber(e);
    }

    // ---------- Replacement ----------

    /** Victim out, frame saved, entry rewritten: the part of a replacement all callers share. */
    method Evict() returns (frame: Option<nat>)
      requires Valid() && (m.swapFree != [] ==> CanSwapOut(m))
      modifies this, swap, swap.storage, lru, lru.Repr
      ensures Valid() && lru.Repr == old(lru.Repr)
      ensures old(m.swapFree) == [] ==> frame == None && m == old(m).(lru := WithoutVictim(old(m.lru)))
      ensures old(m.swapFree) != [] ==> frame == Some(old(m.lru)[0].fpn) && m == SwapOut(old(m))
    {
      var v := PopVictim();
      var s := TakeSwapFrame();
      if s.None? {
        return None;
      }
      SaveFrame(v.value.fpn, s.value);
      SetSwapped(v.value.slot, s.value);
      frame := Some(v.value.fpn);
    }

    /** Frame `f` receives swap frame `tgt`, and the page's entry and list node follow. */
    method PlaceFrame(slot: Slot, f: nat, tgt: nat)
      requires Valid() && f < |m.ram| && tgt < |m.swap|
      modifies this, ram.storage, lru, lru.Repr
      ensures Valid() && fresh(lru.Repr - old(lru.Repr))
      ensures m == old(m).(ram := old(m.ram)[f := old(m.swap)[tgt]],
                           table := old(m.table)[slot := InRam(f)],
                           lru := Insert(old(m.lru), Node(slot, f)))
    {
      LoadFrame(tgt, f);
      SetPresent(slot, f);
      AddPage(slot, f);
    }

    /** The same for a page whose swap frame becomes free. */
    method BringIn(slot: Slot, f: nat, tgt: nat)
      requires Valid() && f < |m.ram| && tgt < |m.swap|
      modifies this, ram.storage, swap, lru, lru.Repr
      ensures Valid() && fresh(lru.Repr - old(lru.Repr)) && m == SwapIn(old(m), slot, f, tgt)
    {
      PlaceFrame(slot, f, tgt);
      ReturnSwapFrame(tgt);
    }

    /** A page at swap location `tgt` takes the place of the least recently used one, whose frame it gets. */
    method ReplaceFrom(slot: Slot, tgt: nat, ghost off: nat) returns (ret: int, fpn: nat)
      requires Valid() && tgt == Locate(decoder, off) && !Replace(decoder, m, slot, off).Undefined?
      modifies this, ram.storage, swap, swap.storage, lru, lru.Repr
      ensures Valid() && fresh(lru.Repr - old(lru.Repr))
      ensures var r := Replace(decoder, old(m), slot, off);
              && m == r.m && ret == (if r.Ok? then 0 else OUT_OF_SWAP)
              && (r.Ok? ==> slot in r.m.table && r.m.table[slot] == InRam(fpn))
    {
      var f := Evict();
      if f.None? {
        return OUT_OF_SWAP, 0;
      }
      BringIn(slot, f.value, tgt);
      ret, fpn := 0, f.value;
    }

    /** A page that is not present takes the place of the least recently used one. */
    method ReplacePage(slot: Slot) returns (ret: int, fpn: nat)
      requires Valid() && EntryOf(m, slot).InSwap?
      requires !Replace(decoder, m, slot, EntryOf(m, slot).off).Undefined?
      modifies this, ram.storage, swap, swap.storage, lru, lru.Repr
      ensures Valid() && fresh(lru.Repr - old(lru.Repr))
      ensures var r := Replace(decoder, old(m), slot, EntryOf(old(m), slot).off);
              && m == r.m && ret == (if r.Ok? then 0 else OUT_OF_SWAP)
              && (r.Ok? ==> slot in r.m.table && r.m.table[slot] == InRam(fpn))
    {
      var tgt := Location(slot);
      ret, fpn := ReplaceFrom(slot, tgt, EntryOf(m, slot).off);
    }

    /** Such a page comes into a free frame; its swap frame is not returned. */
    method LoadIntoFree(slot: Slot) returns (fpn: nat)
      requires Valid() && EntryOf(m, slot).InSwap? && m.ramFree != []
      requires !Paging.GetPage(decoder, m, slot).Undefined?
      modifies this, ram, ram.storage, lru, lru.Repr
      ensures Valid() && fresh(lru.Repr - old(lru.Repr))
      ensures Paging.GetPage(decoder, old(m), slot) == Ok(m) && fpn == old(m.ramFree)[0]
    {
      var tgt := Location(slot);
      var f := TakeRamFrame();
      fpn := f.value;
      PlaceFrame(slot, fpn, tgt);
    }

    /** `pg_getpage`. */
    method GetPage(slot: Slot) returns (ret: int, fpn: nat)
      requires Valid() && !Paging.GetPage(decoder, m, slot).Undefined?
      modifies this, ram, ram.storage, swap, swap.storage, lru, lru.Repr
      ensures Valid() && fresh(lru.Repr - old(lru.Repr))
      ensures var r := Paging.GetPage(decoder, old(m), slot);
              && m == r.m && ret == (if r.Ok? then 0 else OUT_OF_SWAP)
              && (r.Ok? ==> slot in r.m.table && r.m.table[slot] == InRam(fpn))
    {
      var present;
      present, fpn := FrameOf(slot);
      if present {
        AddPage(slot, fpn);
        ret := 0;
      } else if ram.free != [] {
        fpn := LoadIntoFree(slot);
        ret := 0;
      } else {
        ret, fpn := ReplacePage(slot);
      }
    }

    // ---------- Bytes ----------

    method PokeRam(f: nat, phys: nat, value: Byte)
      requires Valid() && f < |m.ram| && phys < PAGE_SIZE
      modifies this`m, ram.storage
      ensures Valid() && m == old(m).(ram := old(m.ram)[f := old(m.ram)[f][phys := value]])
    {
      ram.Write(f, phys, value);
      m := m.(ram := ram.Frames());
    }

    method PeekRam(f: nat, phys: nat) returns (data: Byte)
      requires Valid() && f < |m.ram| && phys < PAGE_SIZE
      ensures data == m.ram[f][phys]
    {
      data := ram.Read(f * PAGE_SIZE + phys);
    }

    /** `pg_setval`: -1 if the page could not be fetched. */
    method SetValue(slot: Slot, area: Area, off: nat, value: Byte) returns (ret: int)
      requires Valid() && off < PAGE_SIZE && !Poke(decoder, m, slot, PhysOffset(area, off), value).Undefined?
      modifies this, ram, ram.storage, swap, swap.storage, lru, lru.Repr
      ensures Valid() && fresh(lru.Repr - old(lru.Repr))
      ensures var r := Poke(decoder, old(m), slot, PhysOffset(area, off), value);
              m == r.m && ret == if r.Ok? then 0 else -1
    {
      var fpn;
      ret, fpn := GetPage(slot);
      if ret != 0 {
        return -1;
      }
      PokeRam(fpn, if area.Stack? then off else PAGE_SIZE - 1 - off, value);
    }

    /** `pg_getval`: -1 and no byte if the page could not be fetched. */
    method GetValue(slot: Slot, area: Area, off: nat) returns (ret: int, data: Byte)
      requires Valid() && off < PAGE_SIZE && !Poke(decoder, m, slot, PhysOffset(area, off), 0).Undefined?
      modifies this, ram, ram.storage, swap, swap.storage, lru, lru.Repr
      ensures Valid() && fresh(lru.Repr - old(lru.Repr))
      ensures var g := Paging.GetPage(decoder, old(m), slot);
              && m == g.m && ret == (if g.Ok? then 0 else -1)
              && (g.Ok? ==> data == g.m.ram[FrameField(g.m.table[slot])][PhysOffset(area, off)])
    {
      var fpn;
      ret, fpn := GetPage(slot);
      if ret != 0 {
        return -1, 0;
      }
      data := PeekRam(fpn, if area.Stack? then off else PAGE_SIZE - 1 - off);
    }

    /** `update_LRU_lst` on a page's entry. */
    method TouchEntry(slot: Slot)
      requires Valid() && m.lru != []
      modifies this`m, lru, lru.Repr
      ensures Valid() && lru.Repr == old(lru.Repr)
      ensures m == old(m).(lru := Touch(old(m.lru), FrameField(EntryOf(old(m), slot))))
    {
      var _, fpn := FrameOf(slot);
      TouchFrame(fpn);
    }

    /** `__write` at a translated address: `pg_setval`, whose failure goes unnoticed, then a touch of the entry. */
    method WriteByte(slot: Slot, area: Area, off: nat, value: Byte) returns (ret: int)
      requires Valid() && off < PAGE_SIZE && !Access(decoder, m, slot, PhysOffset(area, off), true, value).Undefined?
      modifies this, ram, ram.storage, swap, swap.storage, lru, lru.Repr
      ensures Valid() && fresh(lru.Repr - old(lru.Repr))
      ensures m == Access(decoder, old(m), slot, PhysOffset(area, off), true, value).m && ret == 0
    {
      ghost var g, phys := Paging.GetPage(decoder, m, slot), PhysOffset(area, off);
      FetchLists(decoder, m, slot);
      AccessAfterFetch(g, slot, FrameField(EntryOf(m, slot)), phys, true, value);
      var _ := SetValue(slot, area, off, value);
      TouchEntry(slot);
      ret := 0;
    }

    /** `__read` at a translated address: `pg_getval`, whose failure goes unnoticed, then a touch of the entry. */
    method ReadByte(slot: Slot, area: Area, off: nat) returns (ret: int, data: Byte)
      requires Valid() && off < PAGE_SIZE && !Access(decoder, m, slot, PhysOffset(area, off), false, 0).Undefined?
      modifies this, ram, ram.storage, swap, swap.storage, lru, lru.Repr
      ensures Valid() && fresh(lru.Repr - old(lru.Repr))
      ensures var r := Access(decoder, old(m), slot, PhysOffset(area, off), false, 0);
              && m == r.m && ret == 0
              && (r.Ok? ==> data == ReadValue(decoder, old(m), slot, area, off))
    {
      ghost var g, phys := Paging.GetPage(decoder, m, slot), PhysOffset(area, off);
      FetchLists(decoder, m, slot);
      AccessAfterFetch(g, slot, FrameField(EntryOf(m, slot)), phys, false, 0);
      if g.Ok? {
        ReadValueAfterFetch(decoder, m, slot, area, off);
      }
      ret, data := GetValue(slot, area, off);
      TouchEntry(slot);
      ret := 0;
    }

    /** One page of a region that `__alloc` hands out again; the touch goes through the entry as it was before. */
    method ReuseOne(slot: Slot) returns (ret: int)
      requires Valid() && !Reuse(decoder, m, slot).Undefined?
      modifies this, ram.storage, swap, swap.storage, lru, lru.Repr
      ensures Valid() && fresh(lru.Repr - old(lru.Repr))
      ensures var r := Reuse(decoder, old(m), slot); m == r.m && ret == if r.Ok? then 0 else OUT_OF_SWAP
    {
      var present, current := FrameOf(slot);
      ret := 0;
      if !present {
        var status, _ := ReplacePage(slot);
        if status != 0 {
          return status;
        }
      }
      TouchFrame(current);
    }

    // ---------- Mapping ----------

    /** One iteration of `alloc_pages_range`; `frames` is the list taken so far. */
    method TakeOne(frames: seq<nat>) returns (ret: int, frames': seq<nat>)
      requires Valid() && m.pending == frames && !Take(m).Undefined?
      modifies this, ram, swap, swap.storage, lru, lru.Repr
      ensures Valid() && m.pending == frames' && lru.Repr == old(lru.Repr)
      ensures var r := Take(old(m)); m == r.m && ret == if r.Ok? then 0 else OUT_OF_SWAP
    {
      var f := TakeRamFrame();
      if f.None? {
        f := Evict();
        if f.None? {
          SetPending([]);
          return OUT_OF_SWAP, [];
        }
      }
      ret, frames' := 0, [f.value] + frames;
      SetPending(frames');
    }

    /** `alloc_pages_range`. */
    method TakeFrames(n: nat) returns (ret: int, frames: seq<nat>)
      requires Valid() && m.pending == [] && !TakeN(m, n).Undefined?
      modifies this, ram, swap, swap.storage, lru, lru.Repr
      ensures Valid() && m.pending == frames && lru.Repr == old(lru.Repr)
      ensures var r := TakeN(old(m), n); m == r.m && ret == if r.Ok? then 0 else OUT_OF_SWAP
    {
      ret, frames := 0, [];
      var i := 0;
      while i < n
        invariant i <= n && Valid() && ret == 0 && m.pending == frames
        invariant lru.Repr == old(lru.Repr)
        invariant TakeN(m, n - i) == TakeN(old(m), n)
      {
        ret, frames := TakeOne(frames);
        if ret != 0 {
          return;
        }
        i := i + 1;
      }
    }

    method InstallOne(slot: Slot, frames: seq<nat>) returns (rest: seq<nat>)
      requires Valid() && m.pending == frames && frames != [] && frames[0] < |m.ram|
      modifies this, lru, lru.Repr
      ensures Valid() && fresh(lru.Repr - old(lru.Repr))
      ensures m == Install(old(m), slot) && rest == frames[1..]
    {
      SetPresent(slot, frames[0]);
      AddPage(slot, frames[0]);
      rest := frames[1..];
      SetPending(rest);
    }

    /** One iteration of `vmap_page_range`: the farthest of the `n` pages still to map gets the next frame. */
    method InstallFarthest(pid: nat, first: nat, n: nat, area: Area, frames: seq<nat>, ghost mapped: Machine)
      returns (rest: seq<nat>)
      requires Valid() && Installing(m, pid, first, n, area, frames, mapped) && n > 0
      modifies this, lru, lru.Repr
      ensures Valid() && fresh(lru.Repr - old(lru.Repr))
      ensures Installing(m, pid, first, n - 1, area, rest, mapped)
    {
      rest := InstallOne(PageSlot(pid, first, n - 1, area), frames);
    }

    /** The loop of `vmap_page_range`. */
    method InstallEach(pid: nat, first: nat, n: nat, area: Area, frames: seq<nat>, ghost mapped: Machine)
      returns (rest: seq<nat>)
      requires Valid() && Installing(m, pid, first, n, area, frames, mapped)
      modifies this, lru, lru.Repr
      ensures Valid() && fresh(lru.Repr - old(lru.Repr)) && Installing(m, pid, first, 0, area, rest, mapped)
    {
      rest := frames;
      var k: nat := n;
      while k > 0
        invariant Valid() && fresh(lru.Repr - old(lru.Repr))
        invariant 0 <= k && Installing(m, pid, first, k, area, rest, mapped)
      {
        rest := InstallFarthest(pid, first, k, area, rest, mapped);
        k := k - 1;
      }
    }

    /** `vmap_page_range`: the pages from `first` on get the taken frames, the farthest page first. */
    method MapPages(pid: nat, first: nat, n: nat, area: Area, frames: seq<nat>) returns (rest: seq<nat>)
      requires Valid() && m.pending == frames && InRamBounds(m, frames)
      requires n <= |frames| && (area.Heap? ==> n <= first + 1)
      modifies this, lru, lru.Repr
      ensures Valid() && fresh(lru.Repr - old(lru.Repr))
      ensures m == InstallAll(old(m), pid, first, n, area) && m.pending == rest
    {
      rest := InstallEach(pid, first, n, area, frames, InstallAll(m, pid, first, n, area));
    }

    /** `vm_map_ram`: nothing is mapped unless all frames could be taken. */
    method MapRam(pid: nat, first: nat, n: nat, area: Area) returns (ret: int)
      requires Valid() && m.pending == [] && InRamBounds(m, m.ramFree) && (area.Heap? ==> n <= first + 1)
      requires !Mapping(m, pid, first, n, area).Undefined?
      modifies this, ram, swap, swap.storage, lru, lru.Repr
      ensures Valid() && fresh(lru.Repr - old(lru.Repr))
      ensures var r := Mapping(old(m), pid, first, n, area); m == r.m && ret == if r.Ok? then 0 else -1
    {
      TakeNPends(m, n);
      var frames;
      ret, frames := TakeFrames(n);
      if ret != 0 {
        return -1;
      }
      frames := MapPages(pid, first, n, area, frames);
    }
  }
}
