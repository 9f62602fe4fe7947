/** When a request for frames succeeds, and when an access does. */
module PagingLimits {
  import opened LruSpec
  import opened Paging
  import opened PagingInvariant
  import opened PagingRuns

  /** `alloc_pages_range`: stops at the first iteration that fails. */
  function TakeN(m: Machine, n: nat): Outcome
    decreases n
  {
    if n == 0 then Ok(m)
    else
      match Take(m)
      case Ok(m1) => TakeN(m1, n - 1)
      case r => r
  }

  lemma {:induction false} TakeNCounts(m: Machine, n: nat)
    requires Inv(m)
    ensures TakeN(m, n).Ok? <==> n <= |m.ramFree| + |m.lru| && n <= |m.ramFree| + |m.swapFree|
    ensures TakeN(m, n).Undefined? <==> n > |m.ramFree| + |m.lru| && |m.lru| < |m.swapFree|
    ensures TakeN(m, n).Ok? ==> Inv(TakeN(m, n).m) && |TakeN(m, n).m.pending| == |m.pending| + n
    ensures TakeN(m, n).OutOfSwap? ==> TakeN(m, n).m.pending == []
    decreases n
  {
    TakeKeeps(m);
    if n > 0 && Take(m).Ok? { TakeNCounts(Take(m).m, n - 1); }
  }

  /** From a complete state with no request in progress, `n` frames can be had exactly when
      RAM has that many frames and swap can hold what they displace. It is undefined exactly if it asks for more
      frames than RAM has and finds the replacement list empty while swap still has room. */
  lemma RequestSucceedsIff(m: Machine, n: nat)
    requires Inv(m) && Complete(m) && m.pending == []
    ensures TakeN(m, n).Ok? <==> n <= |m.ram| && n - |m.ramFree| <= |m.swapFree|
    ensures TakeN(m, n).Undefined? <==> n > |m.ram| && |m.ram| - |m.ramFree| < |m.swapFree|
  {
    TakeNCounts(m, n);
  }

  /** The requests made from reachable states. */
  lemma RequestOverRuns(m0: Machine, ops: seq<Op>, n: nat)
    requires Booted(m0) && Run(BySwapOffset, m0, ops).At? && NoFailure(BySwapOffset, m0, ops)
    requires Run(BySwapOffset, m0, ops).m.pending == []
    ensures var m := Run(BySwapOffset, m0, ops).m;
            && (TakeN(m, n).Ok? <==> n <= |m0.ram| && n - |m.ramFree| <= |m.swapFree|)
            && (TakeN(m, n).Undefined? <==> n > |m0.ram| && |m0.ram| - |m.ramFree| < |m.swapFree|)
  {
    ReachableInv(m0, ops);
    RequestSucceedsIff(Run(BySwapOffset, m0, ops).m, n);
  }

  /** Which frames a fault uses: the victim goes to the first free swap frame, the page takes the victim's RAM frame,
      and the swap frame it leaves is the next to be used. */
  lemma ReplaceFrames(m: Machine, slot: Slot)
    requires Inv(m) && m.ramFree == [] && slot in m.table && m.table[slot].InSwap? && m.lru != [] && m.swapFree != []
    ensures var off, v := m.table[slot].off, m.lru[0];
            var r := Replace(BySwapOffset, m, slot, off);
            && r.Ok? && v.slot in r.m.table && r.m.table[v.slot] == InSwap(m.swapFree[0])
            && r.m.table[slot] == InRam(v.fpn)
            && r.m.swapFree == [off] + m.swapFree[1..] && r.m.ramFree == []
  {
    SwapOutKeeps(m);
    assert m.lru[0] in m.lru;
  }

  /** A byte access completes exactly when its page is present, or there is a page to evict and a swap frame to
      evict it to. */
  lemma AccessSucceedsIff(m: Machine, slot: Slot, phys: nat, write: bool, value: Byte)
    requires Inv(m) && slot in m.table && phys < PAGE_SIZE
    ensures Access(BySwapOffset, m, slot, phys, write, value).Ok? <==>
              m.table[slot].InRam? || (m.lru != [] && m.swapFree != [])
  {
    GetPageKeeps(m, slot);
    if m.table[slot].InSwap? {
      assert m.ramFree == [];
      if m.lru != [] && m.swapFree != [] { SwapOutKeeps(m); }
    }
  }
}
