/** Which blocks a write logs: the data blocks it stores into, and for every slot it fills the new block,
    that block's part of the bitmap and, past the direct slots, the indirect block. */
module Footprint {
  import opened Params
  import opened Blocks
  import opened FsFormat
  import opened Owner

  /** The blocks logged so far, and the layout. */
  datatype Track = Track(h: set<nat>, l: Layout)

  function MapBlock(sb: Super, b: nat): nat { sb.bmapstart + b / BPB }

  /** Filling slot `x` of inode `i` logs block `a`. */
  ghost predicate LogsFor(sb: Super, l: Layout, i: nat, x: Slot, a: nat)
    requires x in l
  {
    || a == l[x] || a == MapBlock(sb, l[x])
    || (x.s >= NDIRECT && Slot(i, INDIRECT) in l && a == l[Slot(i, INDIRECT)])
  }

  /** Filling the slots that `l` has and `l0` has not logs block `a`. */
  ghost predicate Fills(sb: Super, l0: Layout, l: Layout, i: nat, a: nat) {
    exists x :: x in l && x !in l0 && LogsFor(sb, l, i, x, a)
  }

  ghost predicate FilledAt(sb: Super, t0: Track, t: Track, i: nat, a: nat) {
    a in t.h <==> a in t0.h || Fills(sb, t0.l, t.l, i, a)
  }

  /** From `t0` to `t` the new slots were filled, and nothing else was logged. Folded (see Bio.Bcache.Valid). */
  ghost predicate Filled(sb: Super, t0: Track, t: Track, i: nat) {
    forall a: nat {:trigger FilledAt(sb, t0, t, i, a)} :: FilledAt(sb, t0, t, i, a)
  }

  lemma FilledNone(sb: Super, t: Track, i: nat)
    ensures Filled(sb, t, t, i)
  {
    forall a: nat ensures FilledAt(sb, t, t, i, a) {}
  }

  /** bmap's store into the inode. */
  lemma FilledAddr(sb: Super, t0: Track, t: Track, i: nat, s: nat, b: nat)
    requires (s < NDIRECT || s == INDIRECT) && Slot(i, s) !in t0.l && t.l == t0.l[Slot(i, s) := b]
    requires t.h == t0.h + {MapBlock(sb, b), b}
    ensures Filled(sb, t0, t, i)
  {
    var x := Slot(i, s);
    assert x in t.l && t.l[x] == b;
    forall a: nat ensures FilledAt(sb, t0, t, i, a) {
      if a in t.h && a !in t0.h { assert LogsFor(sb, t.l, i, x, a); }
    }
  }

  /** bmap's store into the indirect block. */
  lemma FilledEntry(sb: Super, t0: Track, t: Track, i: nat, s: nat, b: nat)
    requires NDIRECT <= s < INDIRECT && Slot(i, s) !in t0.l && t.l == t0.l[Slot(i, s) := b]
    requires Slot(i, INDIRECT) in t0.l && t.h == t0.h + {MapBlock(sb, b), b} + {t0.l[Slot(i, INDIRECT)]}
    ensures Filled(sb, t0, t, i)
  {
    var x := Slot(i, s);
    assert x in t.l && t.l[x] == b && t.l[Slot(i, INDIRECT)] == t0.l[Slot(i, INDIRECT)];
    forall a: nat ensures FilledAt(sb, t0, t, i, a) {
      if a in t.h && a !in t0.h { assert LogsFor(sb, t.l, i, x, a); }
    }
  }

  ghost predicate Submap(l0: Layout, l: Layout) {
    forall x | x in l0 :: x in l && l[x] == l0[x]
  }

  /** Past the direct slots there is an indirect block. */
  ghost predicate Rooted(l0: Layout, l: Layout, i: nat) {
    forall x | x in l && x !in l0 && x.s >= NDIRECT :: Slot(i, INDIRECT) in l
  }

  lemma FillsTwice(sb: Super, l0: Layout, l1: Layout, l: Layout, i: nat, a: nat)
    requires Submap(l0, l1) && Submap(l1, l) && Rooted(l0, l1, i)
    ensures Fills(sb, l0, l, i, a) <==> Fills(sb, l0, l1, i, a) || Fills(sb, l1, l, i, a)
  {
    if x :| x in l1 && x !in l0 && LogsFor(sb, l1, i, x, a) { assert x in l && LogsFor(sb, l, i, x, a); }
    if x :| x in l && x !in l0 && LogsFor(sb, l, i, x, a) {
      if x in l1 { assert LogsFor(sb, l1, i, x, a); }
    }
  }

  lemma FilledTwice(sb: Super, t0: Track, t1: Track, t: Track, i: nat)
    requires Filled(sb, t0, t1, i) && Filled(sb, t1, t, i)
    requires Submap(t0.l, t1.l) && Submap(t1.l, t.l) && Rooted(t0.l, t1.l, i)
    ensures Filled(sb, t0, t, i)
  {
    forall a: nat ensures FilledAt(sb, t0, t, i, a) {
      assert FilledAt(sb, t0, t1, i, a) && FilledAt(sb, t1, t, i, a);
      FillsTwice(sb, t0.l, t1.l, t.l, i, a);
    }
  }

  // ---------- a write ----------

  /** Block `a` is one of the data blocks lo..hi-1 of inode `i`. */
  ghost predicate DataOf(l: Layout, i: nat, lo: nat, hi: nat, a: nat) {
    exists s: nat :: lo <= s < hi && Slot(i, s) in l && l[Slot(i, s)] == a
  }

  ghost predicate WroteAt(sb: Super, t0: Track, t: Track, i: nat, lo: nat, hi: nat, meta: set<nat>, a: nat) {
    a in t.h <==> a in t0.h || a in meta || DataOf(t.l, i, lo, hi, a) || Fills(sb, t0.l, t.l, i, a)
  }

  /** What a layout gains that only grows by data blocks lo..hi-1 of inode `i` and its indirect block. */
  ghost predicate Gained(l0: Layout, l: Layout, i: nat, lo: nat, hi: nat) {
    && Submap(l0, l) && Rooted(l0, l, i)
    && forall x | x in l && x !in l0 :: x.i == i && (x.s == INDIRECT || lo <= x.s < hi)
  }

  /** Data blocks lo..hi-1 of inode `i` were stored into, slots were filled as needed, and the blocks in
      `meta` were logged besides. Folded. */
  ghost predicate Wrote(sb: Super, t0: Track, t: Track, i: nat, lo: nat, hi: nat, meta: set<nat>) {
    && (forall a: nat {:trigger WroteAt(sb, t0, t, i, lo, hi, meta, a)} :: WroteAt(sb, t0, t, i, lo, hi, meta, a))
    && forall k: nat {:trigger GainedAt(t0, t, i, lo, hi, k)} :: GainedAt(t0, t, i, lo, hi, k)
  }

  ghost predicate GainedAt(t0: Track, t: Track, i: nat, lo: nat, hi: nat, k: nat) {
    Gained(t0.l, t.l, i, lo, hi) && forall s: nat | lo <= s < hi :: Slot(i, s) in t.l
  }

  lemma WroteNone(sb: Super, t: Track, i: nat, lo: nat)
    ensures Wrote(sb, t, t, i, lo, lo, {})
  {
    forall a: nat ensures WroteAt(sb, t, t, i, lo, lo, {}, a) {}
    forall k: nat ensures GainedAt(t, t, i, lo, lo, k) {}
  }

  /** One block. */
  lemma WroteOne(sb: Super, t0: Track, t1: Track, t: Track, i: nat, bn: nat)
    requires Filled(sb, t0, t1, i) && Gained(t0.l, t1.l, i, bn, bn + 1) && Slot(i, bn) in t1.l
    requires t == Track(t1.h + {t1.l[Slot(i, bn)]}, t1.l)
    ensures Wrote(sb, t0, t, i, bn, bn + 1, {})
  {
    var hi := bn + 1;
    forall a: nat ensures WroteAt(sb, t0, t, i, bn, hi, {}, a) { assert FilledAt(sb, t0, t1, i, a); }
    forall k: nat ensures GainedAt(t0, t, i, bn, hi, k) {}
  }

  lemma WroteTwice(sb: Super, t0: Track, t1: Track, t: Track, i: nat, lo: nat, mid: nat, hi: nat)
    requires Wrote(sb, t0, t1, i, lo, mid, {}) && Wrote(sb, t1, t, i, mid, hi, {}) && lo <= mid <= hi
    ensures Wrote(sb, t0, t, i, lo, hi, {})
  {
    assert GainedAt(t0, t1, i, lo, mid, 0) && GainedAt(t1, t, i, mid, hi, 0);
    forall a: nat ensures WroteAt(sb, t0, t, i, lo, hi, {}, a) {
      assert WroteAt(sb, t0, t1, i, lo, mid, {}, a) && WroteAt(sb, t1, t, i, mid, hi, {}, a);
      FillsTwice(sb, t0.l, t1.l, t.l, i, a);
      DataTwice(t1.l, t.l, i, lo, mid, hi, a);
    }
    forall k: nat ensures GainedAt(t0, t, i, lo, hi, k) {
      forall s: nat | lo <= s < hi ensures Slot(i, s) in t.l { assert s < mid ==> Slot(i, s) in t1.l; }
    }
  }

  lemma DataTwice(l1: Layout, l: Layout, i: nat, lo: nat, mid: nat, hi: nat, a: nat)
    requires Submap(l1, l) && lo <= mid <= hi && forall s: nat | lo <= s < mid :: Slot(i, s) in l1
    ensures DataOf(l, i, lo, hi, a) <==> DataOf(l1, i, lo, mid, a) || DataOf(l, i, mid, hi, a)
  {
    if s: nat :| lo <= s < mid && Slot(i, s) in l1 && l1[Slot(i, s)] == a { assert l[Slot(i, s)] == a; }
    if s: nat :| lo <= s < hi && Slot(i, s) in l && l[Slot(i, s)] == a {
      if s < mid { assert l1[Slot(i, s)] == a; }
    }
  }

  /** iupdate at the end. */
  lemma WroteInode(sb: Super, t0: Track, t: Track, i: nat, lo: nat, hi: nat, meta: set<nat>)
    requires Wrote(sb, t0, t, i, lo, hi, {})
    ensures Wrote(sb, t0, Track(t.h + meta, t.l), i, lo, hi, meta)
  {
    var t' := Track(t.h + meta, t.l);
    assert GainedAt(t0, t, i, lo, hi, 0);
    forall a: nat ensures WroteAt(sb, t0, t', i, lo, hi, meta, a) { assert WroteAt(sb, t0, t, i, lo, hi, {}, a); }
    forall k: nat ensures GainedAt(t0, t', i, lo, hi, k) {}
  }

  /** From `h0` to `h` only bitmap blocks were logged. */
  ghost predicate OnlyBits(sb: Super, h0: set<nat>, h: set<nat>) {
    h0 <= h && forall a | a in h :: a in h0 || sb.bmapstart <= a < BitsEnd(sb)
  }
}
