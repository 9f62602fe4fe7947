/**
The 32-bit page-table entry: the bit operators and field macros of include/bitops.h and include/mm.h
and the setters of src/mm.c, on words as sequences of bits, bit 0 first.
*/
module PageTableEntry {

  type Word = w: seq<bool> | |w| == 32 witness seq(32, _ => false)

  // ---------- Operators ----------

  function And(a: Word, b: Word): Word { seq(32, i requires 0 <= i < 32 => a[i] && b[i]) }
  function Or(a: Word, b: Word): Word { seq(32, i requires 0 <= i < 32 => a[i] || b[i]) }
  function Not(a: Word): Word { seq(32, i requires 0 <= i < 32 => !a[i]) }
  function ShiftLeft(a: Word, k: nat): Word { seq(32, i requires 0 <= i < 32 => i >= k && a[i - k]) }
  function ShiftRight(a: Word, k: nat): Word { seq(32, i requires 0 <= i < 32 => i + k < 32 && a[i + k]) }

  /** The number a bit sequence stands for. */
  function Value(bits: seq<bool>): nat {
    if bits == [] then 0 else (if bits[0] then 1 else 0) + 2 * Value(bits[1..])
  }

  /** The low `k` bits of a number. */
  function Bits(n: nat, k: nat): (r: seq<bool>)
    ensures |r| == k
  {
    if k == 0 then [] else [n % 2 == 1] + Bits(n / 2, k - 1)
  }

  /** A number as a word. */
  function ToWord(n: nat): Word { Bits(n, 32) }

  function Pow2(k: nat): (r: nat)
    ensures r > 0
  {
    if k == 0 then 1 else 2 * Pow2(k - 1)
  }

  // ---------- include/bitops.h and include/mm.h ----------

  /** `BIT`. */
  function Bit(n: nat): Word { ShiftLeft(ToWord(1), n) }

  /** `~0U`. */
  function Ones(): (r: Word)
    ensures forall i :: 0 <= i < 32 ==> r[i]
  {
    seq(32, _ => true)
  }

  /** `GENMASK`. */
  function GenMask(h: nat, l: nat): Word
    requires l <= h < 32
  {
    And(ShiftLeft(Ones(), l), ShiftRight(Ones(), 31 - h))
  }

  /** `SETBIT`, `CLRBIT`, `SETVAL` and `GETVAL`. */
  function SetBits(v: Word, mask: Word): Word { Or(v, mask) }
  function ClearBits(v: Word, mask: Word): Word { And(v, Not(mask)) }
  function SetVal(v: Word, value: Word, mask: Word, offset: nat): Word {
    Or(And(v, Not(mask)), And(ShiftLeft(value, offset), mask))
  }
  function GetVal(v: Word, mask: Word, offset: nat): Word { ShiftRight(And(v, mask), offset) }

  function FpnMask(): Word { GenMask(12, 0) }
  function SwpTypMask(): Word { GenMask(4, 0) }
  function SwpOffMask(): Word { GenMask(25, 5) }

  // What the extraction macros yield; `FpnMacro` and its neighbours tie them to `GetVal` and the masks.
  predicate IsPresent(e: Word) { e[31] }
  predicate IsSwapped(e: Word) { e[30] }
  function FrameNumber(e: Word): nat { Value(e[0..13]) }
  function SwapType(e: Word): nat { Value(e[0..5]) }
  function SwapOffset(e: Word): nat { Value(e[5..26]) }

  // ---------- src/mm.c ----------

  /** `pte_set_fpn`. */
  function SetFpn(e: Word, fpn: nat): Word {
    SetVal(ClearBits(SetBits(e, Bit(31)), Bit(30)), ToWord(fpn), FpnMask(), 0)
  }

  /** `pte_set_swap`. */
  function SetSwap(e: Word, typ: nat, off: nat): Word {
    SetVal(SetVal(SetBits(ClearBits(e, Bit(31)), Bit(30)), ToWord(typ), SwpTypMask(), 0), ToWord(off), SwpOffMask(), 5)
  }

  // ---------- Masks and fields ----------

  /** A mask has exactly the bits from `l` to `h`. */
  lemma GenMaskBits(h: nat, l: nat, i: nat)
    requires l <= h < 32 && i < 32
    ensures GenMask(h, l)[i] <==> l <= i <= h
  {
  }

  lemma {:induction false} ZeroBits(k: nat, i: nat)
    requires i < k
    ensures !Bits(0, k)[i]
  {
    if i > 0 { ZeroBits(k - 1, i - 1); }
  }

  lemma BitBits(n: nat, i: nat)
    requires n < 32 && i < 32
    ensures Bit(n)[i] <==> i == n
  {
    var one := ToWord(1);
    assert one == [true] + Bits(0, 31);
    forall j: nat | 0 < j < 32 ensures !one[j] { ZeroBits(31, j - 1); }
  }

  /** Testing one bit with a mask. */
  lemma TestBit(e: Word, n: nat)
    requires n < 32
    ensures And(e, Bit(n)) != ToWord(0) <==> e[n]
  {
    var a := And(e, Bit(n));
    forall i: nat | i < 32 ensures (a[i] <==> i == n && e[n]) && !ToWord(0)[i] {
      BitBits(n, i);
      ZeroBits(32, i);
    }
    if e[n] { assert a[n] != ToWord(0)[n]; } else { assert a == ToWord(0); }
  }

  /** Writing a field replaces its bits by the low bits of the value and keeps all others. */
  lemma SetValBits(v: Word, value: Word, h: nat, l: nat, i: nat)
    requires l <= h < 32 && i < 32
    ensures SetVal(v, value, GenMask(h, l), l)[i] == if l <= i <= h then value[i - l] else v[i]
  {
    GenMaskBits(h, l, i);
  }

  /** Reading a field gives its bits, followed by zeros. */
  lemma GetValBits(v: Word, h: nat, l: nat)
    requires l <= h < 32
    ensures GetVal(v, GenMask(h, l), l) == v[l..h + 1] + seq(31 - h + l, _ => false)
  {
    var r := GetVal(v, GenMask(h, l), l);
    forall i | 0 <= i < 32 ensures r[i] == (v[l..h + 1] + seq(31 - h + l, _ => false))[i] {
      if i + l < 32 { GenMaskBits(h, l, i + l); }
    }
  }

  lemma {:induction false} ValueConcat(a: seq<bool>, b: seq<bool>)
    ensures Value(a + b) == Value(a) + Pow2(|a|) * Value(b)
  {
    if a == [] {
      assert a + b == b;
    } else {
      assert (a + b)[1..] == a[1..] + b;
      ValueConcat(a[1..], b);
      DoubleProduct(Pow2(|a| - 1), Value(b));
    }
  }

  lemma DoubleProduct(p: nat, v: nat)
    ensures 2 * (p * v) == (2 * p) * v
  {
  }

  lemma {:induction false} ValueOfZeros(k: nat)
    ensures Value(seq(k, _ => false)) == 0
  {
    if k > 0 {
      assert seq(k, _ => false)[1..] == seq(k - 1, _ => false);
      ValueOfZeros(k - 1);
    }
  }

  /** The number in a field is the value of its bits. */
  lemma FieldValue(v: Word, h: nat, l: nat)
    requires l <= h < 32
    ensures Value(GetVal(v, GenMask(h, l), l)) == Value(v[l..h + 1])
  {
    GetValBits(v, h, l);
    ValueOfZeros(31 - h + l);
    ValueConcat(v[l..h + 1], seq(31 - h + l, _ => false));
  }

  lemma ModUnique(x: nat, m: nat, q: nat, r: nat)
    requires m > 0 && x == m * q + r && r < m
    ensures x % m == r
  {
    var d := x / m - q;
    assert x == m * (x / m) + x % m;
    assert m * d == r - x % m;
    if d >= 1 { MulAtLeast(m, d); } else if d <= -1 { MulAtLeast(m, -d); }
  }

  lemma MulAtLeast(m: nat, d: int)
    requires d >= 1
    ensures m * d >= m
  {
    assert m * (d - 1) >= 0;
  }

  /** The low bits of a number are its remainder. */
  lemma {:induction false} ValueOfBits(n: nat, k: nat)
    ensures Value(Bits(n, k)) == n % Pow2(k)
  {
    if k > 0 {
      ValueOfBits(n / 2, k - 1);
      ModDouble(n, Pow2(k - 1));
    }
  }

  lemma ModDouble(n: nat, p: nat)
    requires p > 0
    ensures n % (2 * p) == 2 * (n / 2 % p) + n % 2
  {
    var a := n / 2;
    var q, r := a / p, a % p;
    assert a == p * q + r;
    DoubleProduct(p, q);
    ModUnique(n, 2 * p, q, 2 * r + n % 2);
  }

  lemma {:induction false} BitsPrefix(n: nat, k: nat, j: nat)
    requires j <= k
    ensures Bits(n, k)[..j] == Bits(n, j)
  {
    if j > 0 {
      BitsPrefix(n / 2, k - 1, j - 1);
      assert Bits(n, k)[..j] == [n % 2 == 1] + Bits(n / 2, k - 1)[..j - 1];
    }
  }

  /** The extraction macros of include/mm.h yield these fields; `TestBit` does the same for the flags. */
  lemma FpnMacro(e: Word)
    ensures Value(GetVal(e, FpnMask(), 0)) == FrameNumber(e)
  {
    FieldValue(e, 12, 0);
  }

  lemma SwpTypMacro(e: Word)
    ensures Value(GetVal(e, SwpTypMask(), 0)) == SwapType(e)
  {
    FieldValue(e, 4, 0);
  }

  lemma SwpOffMacro(e: Word)
    ensures Value(GetVal(e, SwpOffMask(), 5)) == SwapOffset(e)
  {
    FieldValue(e, 25, 5);
  }

  /** A field reads back what was written to it, modulo its width, whatever the word held before. */
  lemma FieldRoundTrip(v: Word, n: nat, h: nat, l: nat)
    requires l <= h < 32
    ensures Value(GetVal(SetVal(v, ToWord(n), GenMask(h, l), l), GenMask(h, l), l)) == n % Pow2(h + 1 - l)
  {
    var r, w := SetVal(v, ToWord(n), GenMask(h, l), l), h + 1 - l;
    forall i | l <= i <= h ensures r[i] == ToWord(n)[i - l] { SetValBits(v, ToWord(n), h, l, i); }
    assert r[l..h + 1] == ToWord(n)[..w];
    FieldValue(r, h, l);
    BitsPrefix(n, 32, w);
    ValueOfBits(n, w);
  }

  // ---------- Entries ----------

  lemma Widths()
    ensures Pow2(5) == 32 && Pow2(8) == 256 && Pow2(13) == 8192 && Pow2(21) == 0x20_0000
  {
    assert Pow2(4) == 16 && Pow2(8) == 256 && Pow2(12) == 4096 && Pow2(16) == 65536 && Pow2(20) == 0x10_0000;
  }

  /** The bits of a present entry: frame number, flags, and what remains of the old entry. */
  lemma FpnBits(e: Word, fpn: nat, i: nat)
    requires i < 32
    ensures SetFpn(e, fpn)[i] ==
            if i < 13 then ToWord(fpn)[i] else if i == 31 then true else if i == 30 then false else e[i]
  {
    BitBits(31, i); BitBits(30, i);
    SetValBits(ClearBits(SetBits(e, Bit(31)), Bit(30)), ToWord(fpn), 12, 0, i);
  }

  /** A present entry gives back its frame number modulo 8192, whatever it held before. */
  lemma FpnRoundTrip(e: Word, fpn: nat)
    ensures var r := SetFpn(e, fpn); IsPresent(r) && !IsSwapped(r) && FrameNumber(r) == fpn % 8192
  {
    var r := SetFpn(e, fpn);
    FpnBits(e, fpn, 31);
    FpnBits(e, fpn, 30);
    forall i: nat | i < 13 ensures r[i] == ToWord(fpn)[i] { FpnBits(e, fpn, i); }
    assert r[0..13] == ToWord(fpn)[..13];
    PrefixValue(fpn, 13);
    Widths();
  }

  /** The low bits of a number as a word. */
  lemma PrefixValue(n: nat, k: nat)
    requires k <= 32
    ensures Value(ToWord(n)[..k]) == n % Pow2(k)
  {
    BitsPrefix(n, 32, k);
    ValueOfBits(n, k);
  }

  /** The bits of a swapped entry: type, offset, and what remains of the old entry. */
  lemma SwapBits(e: Word, typ: nat, off: nat, i: nat)
    requires i < 32
    ensures SetSwap(e, typ, off)[i] ==
            if i < 5 then ToWord(typ)[i] else if i < 26 then ToWord(off)[i - 5]
            else if i == 30 then true else if i == 31 then false else e[i]
  {
    var e1 := SetBits(ClearBits(e, Bit(31)), Bit(30));
    BitBits(31, i); BitBits(30, i);
    SetValBits(e1, ToWord(typ), 4, 0, i);
    SetValBits(SetVal(e1, ToWord(typ), SwpTypMask(), 0), ToWord(off), 25, 5, i);
  }

  /** A swapped entry gives back type and offset modulo their field widths, whatever it held before. */
  lemma SwapRoundTrip(e: Word, typ: nat, off: nat)
    ensures var r := SetSwap(e, typ, off);
            !IsPresent(r) && IsSwapped(r) && SwapType(r) == typ % 32 && SwapOffset(r) == off % 0x20_0000
  {
    var r := SetSwap(e, typ, off);
    SwapBits(e, typ, off, 31);
    SwapBits(e, typ, off, 30);
    SwapSlices(e, typ, off);
    PrefixValue(typ, 5);
    PrefixValue(off, 21);
    Widths();
  }

  lemma SwapSlices(e: Word, typ: nat, off: nat)
    ensures var r := SetSwap(e, typ, off);
            && r[0..5] == ToWord(typ)[..5] && r[5..26] == ToWord(off)[..21]
            && r[0..13] == ToWord(typ)[..5] + ToWord(off)[..8]
  {
    var r := SetSwap(e, typ, off);
    forall i: nat | i < 26 ensures r[i] == if i < 5 then ToWord(typ)[i] else ToWord(off)[i - 5] {
      SwapBits(e, typ, off, i);
    }
  }

  lemma FrameFieldOfSwap(e: Word, typ: nat, off: nat)
    ensures FrameNumber(SetSwap(e, typ, off)) == typ % 32 + 32 * (off % 256)
  {
    SwapSlices(e, typ, off);
    ValueConcat(ToWord(typ)[..5], ToWord(off)[..8]);
    PrefixValue(typ, 5);
    PrefixValue(off, 8);
    Widths();
  }

  /** Reading the frame field of a swapped entry yields the type plus 32 times the offset, modulo the
      field width: this is what the compiled fault handler does. */
  lemma FpnOfSwapEntry(e: Word, typ: nat, off: nat)
    requires typ < 32
    ensures FrameNumber(SetSwap(e, typ, off)) == (typ + 32 * off) % 8192
  {
    FrameFieldOfSwap(e, typ, off);
    MisreadNumber(typ, off);
  }

  lemma MisreadNumber(typ: nat, off: nat)
    requires typ < 32
    ensures typ % 32 + 32 * (off % 256) == (typ + 32 * off) % 8192
  {
  }

  /** Bits outside the fields survive both setters: bits 13 to 29 of a present, 26 to 29 of a swapped entry. */
  lemma OtherBitsKept(e: Word, fpn: nat, typ: nat, off: nat, i: nat)
    requires i < 30
    ensures i >= 13 ==> SetFpn(e, fpn)[i] == e[i]
    ensures i >= 26 ==> SetSwap(e, typ, off)[i] == e[i]
  {
    FpnBits(e, fpn, i);
    SwapBits(e, typ, off, i);
  }

  // ---------- Addresses ----------

  /** `PAGING_PGN` and `PAGING_OFFST`. */
  function PageNumber(x: Word): nat { Value(GetVal(x, GenMask(21, 8), 8)) }
  function PageOffset(x: Word): nat { Value(GetVal(x, GenMask(7, 0), 0)) }

  lemma {:induction false} BitsDrop(n: nat, k: nat, j: nat)
    requires j <= k
    ensures Bits(n, k)[j..] == Bits(n / Pow2(j), k - j)
  {
    if j > 0 {
      BitsDrop(n / 2, k - 1, j - 1);
      assert Bits(n, k)[j..] == Bits(n / 2, k - 1)[j - 1..];
      DivDiv(n, Pow2(j - 1));
    }
  }

  lemma DivDiv(n: nat, p: nat)
    requires p > 0
    ensures n / 2 / p == n / (2 * p)
  {
    var a := n / 2;
    var q, r := a / p, a % p;
    assert a == p * q + r;
    assert n == (2 * p) * q + (2 * r + n % 2);
    ModUnique(n, 2 * p, q, 2 * r + n % 2);
    var d := n / (2 * p) - q;
    assert n == (2 * p) * (n / (2 * p)) + n % (2 * p);
    assert (2 * p) * d == 0;
  }

  /** The page number is the quotient by the page size, cut to the 14 bits of the bus; the offset is the remainder. */
  lemma AddressSplit(n: nat)
    ensures PageNumber(ToWord(n)) == n / 256 % 16384 && PageOffset(ToWord(n)) == n % 256
  {
    var x := ToWord(n);
    Widths();
    assert Pow2(14) == 2 * Pow2(13);
    FieldValue(x, 21, 8);
    FieldValue(x, 7, 0);
    BitsPrefix(n, 32, 8);
    ValueOfBits(n, 8);
    BitsDrop(n, 32, 8);
    assert x[8..22] == x[8..][..14];
    BitsPrefix(n / 256, 24, 14);
    ValueOfBits(n / 256, 14);
    assert x[0..8] == x[..8];
  }
}
