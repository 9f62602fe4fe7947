/**
Demand paging with one swap device, as a machine whose steps are the
iterations and calls of src/mm.c and src/mm-vm.c that touch shared memory state.
*/
module Paging {
  import opened Counting
  import opened LruSpec

  const PAGE_SIZE := 256

  type Byte = bv8
  type Page = p: seq<Byte> | |p| == PAGE_SIZE witness seq(PAGE_SIZE, _ => 0)

  /** `vmaid` 0 and 1. */
  datatype Area = Stack | Heap

  /** What a page-table entry says about a mapped page. */
  datatype Entry = InRam(fpn: nat) | InSwap(off: nat)

  /** How the fault handler reads the location out of a swapped entry: from the
      SWPOFF field that `pte_set_swap` wrote, or, as the LRU branch is compiled, from the FPN field. */
  datatype Decoder = BySwapOffset | AsCompiled

  /** The FPN field of an entry that was encoded with swap type 0 and offset `off`. */
  function FpnReading(off: nat): nat { 32 * off % 8192 }

  function Locate(d: Decoder, off: nat): nat {
    match d
    case BySwapOffset => off
    case AsCompiled => FpnReading(off)
  }

  /** `table` holds the entries of mapped pages of all processes; `pending` is the
      frame list of the mapping request in progress. */
  datatype Machine = Machine(
    ram: seq<Page>, swap: seq<Page>,
    ramFree: seq<nat>, swapFree: seq<nat>,
    table: map<Slot, Entry>,
    lru: seq<Node>,
    pending: seq<nat>)

  /** `OutOfSwap` is the -3000 return. `Undefined` stands for what C leaves undefined:
      the frame of a victim that an empty list did not supply, or a frame outside its device. */
  datatype Outcome = Ok(m: Machine) | OutOfSwap(m: Machine) | Undefined

  /** Can the head of the list be copied to the first free swap frame? */
  predicate CanSwapOut(m: Machine) {
    && m.lru != [] && m.lru[0].fpn < |m.ram|
    && m.swapFree != [] && m.swapFree[0] < |m.swap|
  }

  /** The victim's frame goes to the first free swap frame and its entry is rewritten. */
  function SwapOut(m: Machine): Machine
    requires CanSwapOut(m)
  {
    var v, s := m.lru[0], m.swapFree[0];
    m.(swap := m.swap[s := m.ram[v.fpn]],
       swapFree := m.swapFree[1..],
       table := m.table[v.slot := InSwap(s)],
       lru := m.lru[1..])
  }

  /** The victim's frame, now saved, receives swap frame `tgt`, which becomes free. */
  function SwapIn(m: Machine, slot: Slot, fpn: nat, tgt: nat): Machine
    requires fpn < |m.ram| && tgt < |m.swap|
  {
    m.(ram := m.ram[fpn := m.swap[tgt]],
       swapFree := [tgt] + m.swapFree,
       table := m.table[slot := InRam(fpn)],
       lru := Insert(m.lru, Node(slot, fpn)))
  }

  /** The list after a victim was asked for; the answer that there is none goes unnoticed. */
  function WithoutVictim(l: seq<Node>): seq<Node> {
    if l == [] then [] else l[1..]
  }

  /** One iteration of `alloc_pages_range`. */
  function Take(m: Machine): Outcome {
    if m.ramFree != [] then
      Ok(m.(ramFree := m.ramFree[1..], pending := [m.ramFree[0]] + m.pending))
    else if m.swapFree == [] then OutOfSwap(m.(lru := WithoutVictim(m.lru), pending := []))
    else if CanSwapOut(m) then Ok(SwapOut(m).(pending := [m.lru[0].fpn] + m.pending))
    else Undefined
  }

  /** One iteration of `vmap_page_range`. */
  function Install(m: Machine, slot: Slot): Machine
    requires m.pending != []
  {
    m.(table := m.table[slot := InRam(m.pending[0])],
       lru := Insert(m.lru, Node(slot, m.pending[0])),
       pending := m.pending[1..])
  }

  /** A swapped page comes back by replacing the head of the list. */
  function Replace(d: Decoder, m: Machine, slot: Slot, off: nat): Outcome {
    if m.swapFree == [] then OutOfSwap(m.(lru := WithoutVictim(m.lru)))
    else if CanSwapOut(m) && Locate(d, off) < |m.swap|
    then Ok(SwapIn(SwapOut(m), slot, m.lru[0].fpn, Locate(d, off)))
    else Undefined
  }

  /** What an entry looks like; one that was never written is all zeros and looks swapped out to offset 0. */
  function EntryOf(m: Machine, slot: Slot): Entry {
    if slot in m.table then m.table[slot] else InSwap(0)
  }

  /** `pg_getpage`. */
  function GetPage(d: Decoder, m: Machine, slot: Slot): Outcome {
    match EntryOf(m, slot)
    case InRam(f) => Ok(m.(lru := Insert(m.lru, Node(slot, f))))
    case InSwap(off) =>
      if m.ramFree == [] then Replace(d, m, slot, off)
      else
        var f, tgt := m.ramFree[0], Locate(d, off);
        if f < |m.ram| && tgt < |m.swap| then
          Ok(m.(ram := m.ram[f := m.swap[tgt]],
                ramFree := m.ramFree[1..],
                table := m.table[slot := InRam(f)],
                lru := Insert(m.lru, Node(slot, f))))
        else Undefined
  }

  /** Heap pages are stored mirrored within their frame. */
  function PhysOffset(area: Area, off: nat): nat
    requires off < PAGE_SIZE
  {
    match area
    case Stack => off
    case Heap => PAGE_SIZE - 1 - off
  }

  /** The frame number `update_LRU_lst` reads from an entry. */
  function FrameField(e: Entry): nat {
    match e
    case InRam(f) => f
    case InSwap(off) => FpnReading(off)
  }

  /** `__read` and `__write` after address translation: fetch the page, access
      the byte if the page arrived, touch the list either way. */
  function Access(d: Decoder, m: Machine, slot: Slot, phys: nat, write: bool, value: Byte): Outcome
    requires phys < PAGE_SIZE
  {
    AccessFetched(GetPage(d, m, slot), slot, FrameField(EntryOf(m, slot)), phys, write, value)
  }

  /** The part of an access that follows the fetch `g`; `stale` is the frame field of the entry before it. */
  function AccessFetched(g: Outcome, slot: Slot, stale: nat, phys: nat, write: bool, value: Byte): Outcome
    requires phys < PAGE_SIZE && (g.Ok? ==> slot in g.m.table)
  {
    match g
    case Undefined => Undefined
    case OutOfSwap(m1) =>
      if m1.lru == [] then Undefined else OutOfSwap(m1.(lru := Touch(m1.lru, stale)))
    case Ok(m1) =>
      var f := FrameField(m1.table[slot]);
      if f < |m1.ram| then
        Ok(m1.(ram := if write then m1.ram[f := m1.ram[f][phys := value]] else m1.ram,
               lru := Touch(m1.lru, f)))
      else Undefined
  }

  /** `pg_setval`: an access without the touch that follows. */
  function Poke(d: Decoder, m: Machine, slot: Slot, phys: nat, value: Byte): Outcome
    requires phys < PAGE_SIZE
  {
    PokeFetched(GetPage(d, m, slot), slot, phys, value)
  }

  function PokeFetched(g: Outcome, slot: Slot, phys: nat, value: Byte): Outcome
    requires phys < PAGE_SIZE && (g.Ok? ==> slot in g.m.table)
  {
    match g
    case Ok(m1) =>
      var f := FrameField(m1.table[slot]);
      if f < |m1.ram| then Ok(m1.(ram := m1.ram[f := m1.ram[f][phys := value]])) else Undefined
    case _ => g
  }

  /** One page of a region that `__alloc` hands out again: it is brought back
      if swapped, then touched through the entry as it was before. */
  function Reuse(d: Decoder, m: Machine, slot: Slot): Outcome {
    var e := EntryOf(m, slot);
    var r := if e.InSwap? then Replace(d, m, slot, e.off) else Ok(m);
    match r
    case Ok(m1) =>
      if m1.lru == [] then Undefined else Ok(m1.(lru := Touch(m1.lru, FrameField(e))))
    case _ => r
  }

  datatype Op =
    | TakeFrame
    | InstallPage(slot: Slot)
    | Read(slot: Slot, area: Area, off: nat)
    | Write(slot: Slot, area: Area, off: nat, value: Byte)
    | SetByte(slot: Slot, area: Area, off: nat, value: Byte)
    | ReusePage(slot: Slot)

  /** Only unmapped pages are installed, only mapped ones accessed. */
  predicate Legal(m: Machine, op: Op) {
    match op
    case TakeFrame => true
    case InstallPage(s) => s !in m.table && m.pending != []
    case Read(s, _, off) => s in m.table && off < PAGE_SIZE
    case Write(s, _, off, _) => s in m.table && off < PAGE_SIZE
    case SetByte(s, _, off, _) => s in m.table && off < PAGE_SIZE
    case ReusePage(s) => s in m.table
  }

  function Step(d: Decoder, m: Machine, op: Op): Outcome
    requires Legal(m, op)
  {
    match op
    case TakeFrame => Take(m)
    case InstallPage(s) => Ok(Install(m, s))
    case Read(s, a, off) => Access(d, m, s, PhysOffset(a, off), false, 0)
    case Write(s, a, off, v) => Access(d, m, s, PhysOffset(a, off), true, v)
    case SetByte(s, a, off, v) => Poke(d, m, s, PhysOffset(a, off), v)
    case ReusePage(s) => Reuse(d, m, s)
  }

  /** Does the operation store a byte of its own? */
  predicate Puts(op: Op) { op.Write? || op.SetByte? }

  /** Does it store to byte `cell` of the frame that holds page `slot`? */
  predicate Stores(op: Op, slot: Slot, cell: nat) {
    Puts(op) && op.slot == slot && op.off < PAGE_SIZE && PhysOffset(op.area, op.off) == cell
  }

  /** The page a mapped entry stands for, wherever it currently is. */
  ghost predicate Backed(m: Machine, s: Slot)
    requires s in m.table
  {
    match m.table[s]
    case InRam(f) => f < |m.ram|
    case InSwap(o) => o < |m.swap|
  }

  ghost function Content(m: Machine, s: Slot): Page
    requires s in m.table && Backed(m, s)
  {
    match m.table[s]
    case InRam(f) => m.ram[f]
    case InSwap(o) => m.swap[o]
  }

  // ---------- The invariant of every reachable state ----------

  /** Each frame of RAM has at most one owner: free list, pending list, present entry. */
  ghost predicate RamOwnership(m: Machine) {
    && (forall s :: s in m.table && m.table[s].InRam? ==>
          m.table[s].fpn < |m.ram| && m.table[s].fpn !in m.ramFree && m.table[s].fpn !in m.pending)
    && (forall s, t :: s in m.table && t in m.table && m.table[s].InRam? && m.table[t] == m.table[s] ==> s == t)
    && Distinct(m.ramFree) && Distinct(m.pending)
    && (forall f :: f in m.ramFree ==> f < |m.ram| && f !in m.pending)
    && (forall f :: f in m.pending ==> f < |m.ram|)
  }

  /** Each swap frame has at most one owner: free list, swapped entry. */
  ghost predicate SwapOwnership(m: Machine) {
    && (forall s :: s in m.table && m.table[s].InSwap? ==> m.table[s].off < |m.swap| && m.table[s].off !in m.swapFree)
    && (forall s, t :: s in m.table && t in m.table && m.table[s].InSwap? && m.table[t] == m.table[s] ==> s == t)
    && Distinct(m.swapFree)
    && (forall o :: o in m.swapFree ==> o < |m.swap|)
  }

  /** The list is an inverse index of the page tables. */
  ghost predicate LruAgrees(m: Machine) {
    && DistinctFrames(m.lru)
    && (forall n :: n in m.lru ==> n.slot in m.table && m.table[n.slot] == InRam(n.fpn))
  }

  /** Once something is swapped out no RAM frame is free. */
  ghost predicate RamFullOnceSwapped(m: Machine) {
    (exists s :: s in m.table && m.table[s].InSwap?) ==> m.ramFree == []
  }

  ghost predicate Inv(m: Machine) {
    RamOwnership(m) && SwapOwnership(m) && LruAgrees(m) && RamFullOnceSwapped(m)
  }

  /** Nothing has been lost: every frame has an owner and every present page a node.
      The frame counts make ownership exact (see `EveryRamFrameOwned`). */
  ghost predicate Complete(m: Machine) {
    && (forall s :: s in m.table && m.table[s].InRam? ==> Node(s, m.table[s].fpn) in m.lru)
    && |m.ramFree| + |m.pending| + |m.lru| == |m.ram|
    && (forall o :: 0 <= o < |m.swap| ==> o in m.swapFree || InSwap(o) in m.table.Values)
  }

  /** Every page other than a written one keeps its bytes. */
  ghost predicate SameContents(m: Machine, m': Machine) {
    && (forall s :: s in m.table ==> s in m'.table)
    && (forall s :: s in m.table && Backed(m, s) ==> Backed(m', s) && Content(m', s) == Content(m, s))
  }
}
