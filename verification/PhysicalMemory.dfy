/** The physical memory devices of src/mm-memphy.c in random-access mode, and the page copy of src/mm.c. */
module PhysicalMemory {
  import opened Options
  import opened Paging

  /** RAM or a swap device: its bytes and its list of free frames. */
  class Device {
    const storage: array<Byte>
    var free: seq<nat>

    /** Bytes beyond the last whole frame are never used. */
    function FrameCount(): nat { storage.Length / PAGE_SIZE }

    ghost function Frame(f: nat): Page
      requires f < FrameCount()
      reads storage
    {
      storage[f * PAGE_SIZE..f * PAGE_SIZE + PAGE_SIZE]
    }

    ghost function Frames(): (r: seq<Page>)
      reads storage
      ensures |r| == FrameCount() && forall f :: 0 <= f < FrameCount() ==> r[f] == Frame(f)
    {
      seq(FrameCount(), f requires 0 <= f < FrameCount() reads storage => Frame(f))
    }

    /** `init_memphy` with `MEMPHY_format`: every whole frame is free, in ascending order. */
    constructor (maxsz: nat)
      ensures storage.Length == maxsz && fresh(storage)
      ensures free == seq(maxsz / PAGE_SIZE, i => i)
    {
      storage := new Byte[maxsz];
      free := [];
      new;
      var n := maxsz / PAGE_SIZE;
      var i := 0;
      while i < n
        invariant i <= n && free == seq(i, j => j)
      {
        free := free + [i];
        i := i + 1;
      }
    }

    /** `MEMPHY_get_freefp`: the head of the free list, if there is one. */
    method GetFreeFrame() returns (f: Option<nat>)
      modifies this
      ensures f == if old(free) == [] then None else Some(old(free)[0])
      ensures free == if old(free) == [] then [] else old(free)[1..]
    {
      if free == [] {
        f := None;
      } else {
        f := Some(free[0]);
        free := free[1..];
      }
    }

    /** `MEMPHY_put_freefp`: back to the head of the free list. */
    method PutFreeFrame(f: nat)
      modifies this
      ensures free == [f] + old(free)
    {
      free := [f] + free;
    }

    /** `MEMPHY_read`. */
    method Read(addr: nat) returns (b: Byte)
      requires addr < storage.Length
      ensures b == storage[addr]
      ensures addr / PAGE_SIZE < FrameCount() ==> b == Frame(addr / PAGE_SIZE)[addr % PAGE_SIZE]
    {
      b := storage[addr];
    }

    /** `MEMPHY_write` to byte `off` of frame `f`: that byte of that frame changes and nothing else. */
    method Write(f: nat, off: nat, b: Byte)
      requires f < FrameCount() && off < PAGE_SIZE
      modifies storage
      ensures Frames() == old(Frames())[f := old(Frames())[f][off := b]]
    {
      storage[f * PAGE_SIZE + off] := b;
      forall g | 0 <= g < FrameCount() ensures Frames()[g] == old(Frames())[f := old(Frames())[f][off := b]][g] {
        SeparateFrames(f, off, g);
      }
    }

    /** A byte of frame `f` lies in no other frame. */
    lemma SeparateFrames(f: nat, off: nat, g: nat)
      requires off < PAGE_SIZE
      ensures g * PAGE_SIZE <= f * PAGE_SIZE + off < g * PAGE_SIZE + PAGE_SIZE <==> g == f
    {
    }
  }

  /** `before` with its first `i` bytes replaced by those of `page`. */
  ghost function Overwritten(page: Page, before: Page, i: nat): Page
    requires i <= PAGE_SIZE
  {
    page[..i] + before[i..]
  }

  lemma OverwriteNext(page: Page, before: Page, i: nat)
    requires i < PAGE_SIZE
    ensures Overwritten(page, before, i)[i := page[i]] == Overwritten(page, before, i + 1)
  {
  }

  /** `__swap_cp_page`: the destination frame becomes a copy of the source frame; no other frame changes. */
  method CopyPage(src: Device, s: nat, dst: Device, d: nat)
    requires src.storage != dst.storage && s < src.FrameCount() && d < dst.FrameCount()
    modifies dst.storage
    ensures dst.Frames() == old(dst.Frames())[d := src.Frame(s)]
  {
    ghost var page, was := src.Frame(s), dst.Frames();
    ghost var before := was[d];
    var i := 0;
    assert Overwritten(page, before, 0) == before;
    assert was[d := before] == was;
    while i < PAGE_SIZE
      invariant i <= PAGE_SIZE && src.Frame(s) == page
      invariant dst.Frames() == was[d := Overwritten(page, before, i)]
    {
      var data := src.Read(s * PAGE_SIZE + i);
      assert data == page[i];
      dst.Write(d, i, data);
      OverwriteNext(page, before, i);
      i := i + 1;
    }
    assert Overwritten(page, before, PAGE_SIZE) == page;
  }
}
