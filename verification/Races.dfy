/**
`pg_setval` and `pg_getval` fetch the page under a lock and access the byte after they have released it. The other
modules take fetch and access for one operation; here is what can come between them.
*/
module Races {
  import opened LruSpec
  import opened Paging
  import opened PagingInvariant
  import opened PagingRuns
  import opened CompiledPaging

  /** The byte store of `pg_setval` into the frame that its fetch returned, in a state `m` reached since. */
  function StoreLate(m: Machine, f: nat, phys: nat, value: Byte): Machine
    requires f < |m.ram| && phys < PAGE_SIZE
  {
    m.(ram := m.ram[f := m.ram[f][phys := value]])
  }

  /** The late store changes its byte of page `slot` and nothing else, whatever the value. */
  ghost predicate LandsRight(m: Machine, slot: Slot, f: nat, phys: nat)
    requires Inv(m) && slot in m.table && f < |m.ram| && phys < PAGE_SIZE
  {
    forall value :: AccessEffect(m, StoreLate(m, f, phys, value), slot, phys, true, value)
  }

  /** It does so exactly if the page is still in that frame. */
  lemma LateStoreIff(m: Machine, slot: Slot, f: nat, phys: nat)
    requires Inv(m) && slot in m.table && f < |m.ram| && phys < PAGE_SIZE
    ensures LandsRight(m, slot, f, phys) <==> m.table[slot] == InRam(f)
  {
    if m.table[slot] == InRam(f) {
      forall value ensures AccessEffect(m, StoreLate(m, f, phys, value), slot, phys, true, value) {
        PokeKeeps(m, slot, phys, value);
      }
    } else {
      var now := Content(m, slot)[phys];
      var value: Byte := if now == 0 then 1 else 0;
      var r := StoreLate(m, f, phys, value);
      assert Content(r, slot) == Content(m, slot);
      assert Content(m, slot)[phys := value][phys] == value;
      assert !AccessEffect(m, r, slot, phys, true, value);
    }
  }

  /** A run in which it is not: with one RAM frame, process 0 fetches a page, then another process maps one and gets the
      frame, and the store of process 0 goes to the other's page. */
  lemma StoreGoesToAnother(m0: Machine, ops: seq<Op>, m: Machine, p: Slot, q: Slot, phys: nat, value: Byte)
    requires Booted(m0) && Run(BySwapOffset, m0, ops) == At(m) && Holds(m, p) && q !in m.table && phys < PAGE_SIZE
    requires m.swapFree != [] && m.swapFree[0] < |m.swap|
    ensures GetPage(BySwapOffset, m, p) == Ok(m)
    ensures var r := Run(BySwapOffset, m0, ops + [TakeFrame, InstallPage(q)]);
            && r.At? && Inv(r.m) && p in r.m.table && q in r.m.table
            && var s := StoreLate(r.m, 0, phys, value);
               && Backed(s, q) && Content(s, q)[phys] == value
               && Backed(s, p) && Content(s, p) == Content(r.m, p)
  {
    assert IndexOf(m.lru, 0) == 0 && MoveToBack(m.lru, 0) == m.lru;
    MapNext(BySwapOffset, m0, ops, m, p, q);
    ReachableInv(m0, ops + [TakeFrame, InstallPage(q)]);
  }
}
