/** Page-table words as the entries of `Paging`, and page tables of words as its tables. */
module PageTable {
  import opened Options
  import opened LruSpec
  import opened Paging
  import opened PageTableEntry

  /** What the fault handler takes an entry for; `None` is an entry that was never written. */
  function View(e: Word): Option<Entry> {
    if IsPresent(e) then Some(InRam(FrameNumber(e)))
    else if IsSwapped(e) then Some(InSwap(SwapOffset(e)))
    else None
  }

  /** A word of zeros is neither present nor swapped, and all its fields read 0. */
  lemma ZeroIsUnmapped(e: Word)
    requires forall i :: 0 <= i < 32 ==> !e[i]
    ensures View(e) == None && FrameNumber(e) == 0 && SwapOffset(e) == 0
  {
    assert e[0..13] == seq(13, _ => false) && e[5..26] == seq(21, _ => false);
    ValueOfZeros(13);
    ValueOfZeros(21);
  }

  /** The word of an entry that was never written. */
  function ZeroWord(): (e: Word)
    ensures View(e) == None && FrameNumber(e) == 0 && SwapOffset(e) == 0
  {
    var e := seq(32, _ => false);
    ZeroIsUnmapped(e);
    e
  }

  /** Entries are either present, or swapped with type 0. */
  ghost predicate GoodEntry(e: Word) {
    View(e).Some? && (View(e).value.InSwap? ==> FrameNumber(e) == FpnReading(SwapOffset(e)))
  }

  lemma PresentEntry(e: Word)
    requires IsPresent(e)
    ensures GoodEntry(e) && View(e) == Some(InRam(FrameNumber(e)))
  {
  }

  lemma MisreadWithType(typ: nat, o: nat)
    requires typ < 32
    ensures (typ + 32 * o) % 8192 == FpnReading(o) <==> typ == 0
  {
    var k, r := o / 256, o % 256;
    assert 32 * o == 8192 * k + 32 * r;
  }

  lemma SwappedEntry(e: Word, typ: nat, o: nat)
    requires typ < 32 && o < 0x20_0000 && !IsPresent(e) && IsSwapped(e)
    requires SwapOffset(e) == o % 0x20_0000 && FrameNumber(e) == (typ + 32 * o) % 8192
    ensures View(e) == Some(InSwap(o)) && (GoodEntry(e) <==> typ == 0)
  {
    MisreadWithType(typ, o);
  }

  /** A frame number within its field survives being stored in an entry. */
  lemma EntryOfFpn(e: Word, f: nat)
    requires f < 8192
    ensures GoodEntry(SetFpn(e, f)) && View(SetFpn(e, f)) == Some(InRam(f))
  {
    FpnRoundTrip(e, f);
    PresentEntry(SetFpn(e, f));
  }

  /** So does an offset on any swap device; the misreading of `Paging` is that of device 0. */
  lemma EntryOfSwap(e: Word, typ: nat, o: nat)
    requires o < 0x20_0000 && typ < 32
    ensures View(SetSwap(e, typ, o)) == Some(InSwap(o)) && (GoodEntry(SetSwap(e, typ, o)) <==> typ == 0)
  {
    SwapRoundTrip(e, typ, o);
    FpnOfSwapEntry(e, typ, o);
    SwappedEntry(SetSwap(e, typ, o), typ, o);
  }

  ghost function TableOf(pgd: map<Slot, Word>): map<Slot, Entry> {
    map s | s in pgd && View(pgd[s]).Some? :: View(pgd[s]).value
  }

  ghost predicate GoodTable(pgd: map<Slot, Word>) {
    forall s :: s in pgd ==> GoodEntry(pgd[s])
  }

  /** The fields of an entry's word say what the entry of the table is, written or not. */
  lemma EntryFields(pgd: map<Slot, Word>, table: map<Slot, Entry>, s: Slot, e: Word)
    requires GoodTable(pgd) && table == TableOf(pgd) && (s in pgd ==> e == pgd[s])
    requires s !in pgd ==> View(e) == None && FrameNumber(e) == 0 && SwapOffset(e) == 0
    ensures var x := if s in table then table[s] else InSwap(0);
            && IsPresent(e) == x.InRam? && FrameNumber(e) == FrameField(x)
            && (x.InSwap? ==> SwapOffset(e) == x.off)
  {
  }

  lemma TableUpdate(pgd: map<Slot, Word>, s: Slot, e: Word)
    requires GoodTable(pgd) && GoodEntry(e)
    ensures GoodTable(pgd[s := e]) && TableOf(pgd[s := e]) == TableOf(pgd)[s := View(e).value]
  {
  }
}
