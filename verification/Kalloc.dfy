/** kalloc.c: the frames of physical memory, and the list through them of those that are free.
    A page is its 1024 words; a frame is named by its physical page number. */
module Kalloc {
  import opened Params

  const PGSIZE: nat := 4096
  const NWORDS: nat := 1024
  const KERNBASE: nat := 0x8000_0000
  const PHYSTOP: nat := 0xE00_0000
  const NFRAMES: nat := PHYSTOP / PGSIZE

  type Page = p: seq<Word> | |p| == NWORDS witness seq(NWORDS, _ => 0)

  const ZERO_PAGE: Page := seq(NWORDS, _ => 0)
  const JUNK_PAGE: Page := seq(NWORDS, _ => 0x0101_0101)

  /** The pointer to frame f, or the null pointer for 0. */
  function Pointer(f: nat): Word
    requires f < NFRAMES
  {
    if f == 0 then 0 else KERNBASE + f * PGSIZE
  }

  function FrameOf(p: Word): nat {
    if p < KERNBASE then 0 else (p - KERNBASE) / PGSIZE
  }

  ghost function Head(free: seq<nat>): nat {
    if free == [] then 0 else free[0]
  }

  ghost predicate LinkOk(mem: seq<Page>, free: seq<nat>, i: nat) {
    && i < |free| && 0 < free[i] < NFRAMES == |mem| && Head(free[i + 1..]) < NFRAMES
    && mem[free[i]][0] == Pointer(Head(free[i + 1..]))
    && free[i] !in free[i + 1..]
  }

  class Kmem {
    const first: nat        // the first whole frame after the kernel image
    var mem: seq<Page>
    var freelist: nat
    ghost var free: seq<nat>
    ghost var avail: set<nat>  // the free frames

    ghost predicate Valid()
      reads this
    {
      && |mem| == NFRAMES && 0 < first < NFRAMES
      && (forall f | f in avail :: first <= f < NFRAMES)
      && forall k: nat {:trigger Unfolded(k)} :: Unfolded(k)
    }

    ghost predicate Unfolded(k: nat)
      reads this
    {
      && freelist == Head(free)
      && (forall f :: f in avail <==> f in free)
      && forall i: nat | i < |free| :: LinkOk(mem, free, i)
    }

    /** kmem before kinit1. */
    constructor (first: nat)
      requires 0 < first < NFRAMES
      ensures Valid() && avail == {} && this.first == first
    {
      this.first := first;
      mem := seq(NFRAMES, _ => ZERO_PAGE);
      freelist, free, avail := 0, [], {};
      new;
      assert forall k: nat :: Unfolded(k);
    }

    /** False is panic("kfree"). */
    method Kfree(f: nat) returns (ok: bool)
      requires Valid() && f !in avail
      modifies this
      ensures Valid()
      ensures ok <==> first <= f < NFRAMES
      ensures !ok ==> mem == old(mem) && avail == old(avail)
      ensures ok ==> avail == old(avail) + {f} && free == [f] + old(free)
      ensures forall g | 0 <= g < NFRAMES && (g != f || !ok) :: mem[g] == old(mem)[g]
      ensures ok ==>
        && mem[f][0] == (if old(free) == [] then 0 else KERNBASE + 4096 * old(free)[0])
        && forall j | 0 < j < NWORDS :: mem[f][j] == 0x0101_0101
    {
      if f < first || f >= NFRAMES {
        return false;
      }
      assert Unfolded(0);
      ghost var free0, mem0 := free, mem;
      assert forall i | 0 <= i < |free0| :: free0[i] in avail;
      assert Head(free) < NFRAMES by { if free != [] { assert LinkOk(mem, free, 0); } }
      mem := mem[f := JUNK_PAGE[0 := Pointer(freelist)]];
      freelist := f;
      free := [f] + free;
      avail := avail + {f};
      forall i: nat | i < |free| ensures LinkOk(mem, free, i) {
        if i > 0 {
          assert LinkOk(mem0, free0, i - 1);
          assert free[i + 1..] == free0[i..];
        } else {
          assert free[1..] == free0;
        }
      }
      assert forall k: nat :: Unfolded(k);
      return true;
    }

    /** A free frame, or 0. */
    method Kalloc() returns (f: nat)
      requires Valid()
      modifies `freelist, `free, `avail
      ensures Valid()
      ensures f == 0 <==> old(avail) == {}
      ensures f == 0 ==> avail == {}
      ensures f != 0 ==> f in old(avail) && avail == old(avail) - {f} && old(free) == [f] + free
    {
      assert Unfolded(0);
      f := freelist;
      if f != 0 {
        ghost var free0 := free;
        assert LinkOk(mem, free, 0) && f in avail;
        PointerBack(Head(free[1..]));
        freelist := FrameOf(mem[f][0]);
        free := free[1..];
        avail := avail - {f};
        forall i: nat | i < |free| ensures LinkOk(mem, free, i) {
          assert LinkOk(mem, free0, i + 1);
          assert free[i + 1..] == free0[i + 2..];
        }
        assert forall k: nat :: Unfolded(k);
      } else {
        assert free != [] ==> LinkOk(mem, free, 0);
        assert avail == {};
      }
    }

    /** A store into a frame that is in use. */
    method Store(f: nat, p: Page)
      requires Valid() && f < NFRAMES && f !in avail
      modifies `mem
      ensures Valid() && mem == old(mem)[f := p]
    {
      assert Unfolded(0);
      ghost var mem0 := mem;
      mem := mem[f := p];
      forall i: nat | i < |free| ensures LinkOk(mem, free, i) {
        assert LinkOk(mem0, free, i) && free[i] in avail;
      }
      assert forall k: nat :: Unfolded(k);
    }

    /** freerange(vstart, vend), as physical addresses: the whole frames between them become free, up to the
        first that is no frame of memory, where kfree panics. */
    method Freerange(vstart: nat, vend: nat) returns (ok: bool)
      requires Valid()
      requires forall f | f in avail :: !Whole(vstart, vend, f)
      modifies this
      ensures Valid()
      ensures ok <==> forall f: nat | Whole(vstart, vend, f) :: first <= f < NFRAMES
      ensures forall f: nat :: f in avail <==>
        f in old(avail) || (Whole(vstart, vend, f) && f < NFRAMES && first * PGSIZE < vstart + PGSIZE)
      ensures forall f: nat | f < NFRAMES && !Whole(vstart, vend, f) :: mem[f] == old(mem)[f]
    {
      ok := true;
      var p := (vstart + PGSIZE - 1) / PGSIZE;
      ghost var p0 := p;
      while (p + 1) * PGSIZE <= vend
        invariant p0 <= p && Valid()
        invariant forall f :: f in avail <==> f in old(avail) || p0 <= f < p
        invariant forall f: nat | f < NFRAMES && !Whole(vstart, vend, f) :: mem[f] == old(mem)[f]
        invariant p == p0 || (first <= p0 && p <= NFRAMES && p * PGSIZE <= vend)
        decreases vend - p * PGSIZE
      {
        assert Whole(vstart, vend, p);
        ok := Kfree(p);
        if !ok {
          return false;
        }
        p := p + 1;
      }
    }
  }

  /** Frame f lies between the two addresses. */
  predicate Whole(vstart: nat, vend: nat, f: nat) {
    vstart <= f * PGSIZE && (f + 1) * PGSIZE <= vend
  }

  lemma PointerBack(f: nat)
    requires f < NFRAMES
    ensures FrameOf(Pointer(f)) == f
  {
  }
}
