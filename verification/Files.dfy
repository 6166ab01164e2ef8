/** The upper half of fs.c: bmap, readi, writei and itrunc. A file is the byte
    sequence that its inode's blocks hold. */
module Files {
  import opened Params
  import opened Blocks
  import opened FsFormat
  import opened FsStore
  import opened Owner
  import opened Footprint

  // ---------- a file as a byte sequence ----------

  function ByteAt(d: Disk, n: Node, k: nat): Byte {
    if k / BSIZE >= MAXFILE then 0
    else
      var a := Addr(d, n, k / BSIZE);
      if a < |d| then d[a][k % BSIZE] else 0
  }

  /** What reading the whole file through its inode yields. */
  function Contents(d: Disk, n: Node): (c: seq<Byte>)
    ensures |c| == n.size
  {
    seq<Byte>(n.size, k requires 0 <= k < n.size => ByteAt(d, n, k))
  }

  /** `c` with `x` written over it from offset `off` on. */
  function Splice(c: seq<Byte>, off: nat, x: seq<Byte>): seq<Byte>
    requires off <= |c|
  {
    c[..off] + x + if off + |x| < |c| then c[off + |x|..] else []
  }

  lemma SpliceMore(c: seq<Byte>, off: nat, x: seq<Byte>, y: seq<Byte>)
    requires off <= |c|
    ensures Splice(Splice(c, off, x), off + |x|, y) == Splice(c, off, x + y)
  {
  }

  ghost predicate PartIs(c: seq<Byte>, off: nat, src: seq<Byte>, tot: nat, now: seq<Byte>, k: nat)
    requires off <= |c| && tot <= |src|
  {
    now == Splice(c, off, src[..tot])
  }

  /** `now` is `c` with the first `tot` bytes of `src` written at `off`. Folded (see Bio.Bcache.Valid). */
  ghost predicate Part(c: seq<Byte>, off: nat, src: seq<Byte>, tot: nat, now: seq<Byte>)
    requires off <= |c|
  {
    tot <= |src| && forall k: nat {:trigger PartIs(c, off, src, tot, now, k)} :: PartIs(c, off, src, tot, now, k)
  }

  lemma PartNone(c: seq<Byte>, off: nat, src: seq<Byte>)
    requires off <= |c|
    ensures Part(c, off, src, 0, c)
  {
    assert src[..0] == [];
  }

  lemma PartNext(c: seq<Byte>, off: nat, src: seq<Byte>, tot: nat, m: nat, now: seq<Byte>)
    requires off <= |c| && tot + m <= |src| && Part(c, off, src, tot, now)
    ensures off + tot <= |now|
    ensures var now' := Splice(now, off + tot, src[tot..tot + m]);
            Part(c, off, src, tot + m, now') && |now'| == if |c| < off + tot + m then off + tot + m else |c|
  {
    assert PartIs(c, off, src, tot, now, 0);
    SpliceMore(c, off, src[..tot], src[tot..tot + m]);
    assert src[..tot] + src[tot..tot + m] == src[..tot + m];
  }

  lemma PartAll(c: seq<Byte>, off: nat, src: seq<Byte>, now: seq<Byte>)
    requires off <= |c| && Part(c, off, src, |src|, now)
    ensures now == Splice(c, off, src)
  {
    assert PartIs(c, off, src, |src|, now, 0);
    assert src[..|src|] == src;
  }

  /** memmove into a block. */
  function Patch(b: Block, o: nat, x: seq<Byte>): Block
    requires o + |x| <= BSIZE
  {
    b[..o] + x + b[o + |x|..]
  }

  ghost predicate HasByte(d: Disk, l: Layout, i: nat, k: nat, v: Byte) {
    var x := Slot(i, k / BSIZE);
    x in l && l[x] < |d| && d[l[x]][k % BSIZE] == v
  }

  /** The blocks that inode `i` owns hold the bytes `c`. */
  ghost predicate HasBytes(d: Disk, l: Layout, i: nat, c: seq<Byte>) {
    forall k | 0 <= k < |c| :: HasByte(d, l, i, k, c[k])
  }

  lemma ChunkWritten(d: Disk, l: Layout, i: nat, c: seq<Byte>, off: nat, x: seq<Byte>)
    requires Injective(l) && HasBytes(d, l, i, c) && off <= |c|
    requires |x| <= BSIZE - off % BSIZE
    requires Slot(i, off / BSIZE) in l && l[Slot(i, off / BSIZE)] < |d|
    ensures var a := l[Slot(i, off / BSIZE)];
            HasBytes(d[a := Patch(d[a], off % BSIZE, x)], l, i, Splice(c, off, x))
  {
    var a := l[Slot(i, off / BSIZE)];
    var d' := d[a := Patch(d[a], off % BSIZE, x)];
    var c' := Splice(c, off, x);
    forall k | 0 <= k < |c'| ensures HasByte(d', l, i, k, c'[k]) {
      if off <= k < off + |x| {
        assert k / BSIZE == off / BSIZE && k % BSIZE == off % BSIZE + (k - off);
      } else {
        assert HasByte(d, l, i, k, c[k]) && c'[k] == c[k];
        if l[Slot(i, k / BSIZE)] == a {
          assert Slot(i, k / BSIZE) == Slot(i, off / BSIZE);
        }
      }
    }
  }

  /** From `d` to `d'` only blocks that `l` does not own changed, and inode `i`'s indirect block. */
  ghost predicate SameData(d: Disk, d': Disk, l: Layout, i: nat) {
    && |d'| == |d|
    && forall x | x in l && l[x] < |d| && (x.s != INDIRECT || x.i != i) :: d'[l[x]] == d[l[x]]
  }

  lemma SameDataTwice(d: Disk, d': Disk, d'': Disk, l: Layout, i: nat)
    requires SameData(d, d', l, i) && SameData(d', d'', l, i)
    ensures SameData(d, d'', l, i)
  {
    forall x | x in l && l[x] < |d| && (x.s != INDIRECT || x.i != i) ensures d''[l[x]] == d[l[x]] {
      assert d'[l[x]] == d[l[x]];
    }
  }

  lemma IndirectAlone(d: Disk, l: Layout, i: nat, b: Block)
    requires Injective(l) && Slot(i, INDIRECT) in l && l[Slot(i, INDIRECT)] < |d|
    ensures SameData(d, d[l[Slot(i, INDIRECT)] := b], l, i)
  {
  }

  lemma BytesInBlock(d: Disk, l: Layout, i: nat, c: seq<Byte>, o: nat, m: nat)
    requires HasBytes(d, l, i, c) && o + m <= |c| && 0 < m <= BSIZE - o % BSIZE
    ensures var x := Slot(i, o / BSIZE);
            x in l && l[x] < |d| && d[l[x]][o % BSIZE..o % BSIZE + m] == c[o..o + m]
  {
    assert HasByte(d, l, i, o, c[o]);
    var lo := o % BSIZE;
    var s, t := d[l[Slot(i, o / BSIZE)]][lo..lo + m], c[o..o + m];
    forall k | 0 <= k < m ensures s[k] == t[k] {
      assert HasByte(d, l, i, o + k, c[o + k]);
      assert (o + k) / BSIZE == o / BSIZE && (o + k) % BSIZE == lo + k;
    }
  }

  // ---------- coverage ----------

  function BlockCount(size: nat): nat { (size + BSIZE - 1) / BSIZE }

  function Max(a: nat, b: nat): nat { if a < b then b else a }

  ghost predicate SlotMapped(l: Layout, i: nat, m: nat, s: nat) {
    s <= INDIRECT ==> (Slot(i, s) in l <==> if s == INDIRECT then m > NDIRECT else s < m)
  }

  /** Inode `i` owns exactly its first `m` data blocks, and an indirect block if it needs one. */
  ghost predicate MapsUpTo(l: Layout, i: nat, m: nat) {
    m <= MAXFILE && forall s: nat {:trigger SlotMapped(l, i, m, s)} :: SlotMapped(l, i, m, s)
  }

  /** Every block below the file's size is mapped, and no other. */
  ghost predicate Covers(l: Layout, i: nat, n: Node) {
    n.size <= MAXFILE * BSIZE && MapsUpTo(l, i, BlockCount(n.size))
  }

  /** A layout that gained, at most, block `bn` of inode `i` and its indirect block. */
  ghost predicate Extends(l: Layout, l': Layout, i: nat, bn: nat) {
    && l'.Keys == l.Keys + {Slot(i, bn)} + (if bn >= NDIRECT then {Slot(i, INDIRECT)} else {})
    && forall x | x in l :: l'[x] == l[x]
  }

  ghost predicate Kept(l: Layout, l': Layout, d: Disk, d': Disk, x: Slot) {
    && (x in l <==> x in l')
    && (x in l ==> l'[x] == l[x] && (l[x] < |d| == |d'| ==> d'[l[x]] == d[l[x]]))
  }

  /** Nothing that another inode than `i` owns changed. */
  ghost predicate OthersKept(l: Layout, l': Layout, d: Disk, d': Disk, i: nat) {
    && |d'| == |d|
    && forall x: Slot {:trigger Kept(l, l', d, d', x)} | x.i != i :: Kept(l, l', d, d', x)
  }

  lemma OthersKeptTwice(l: Layout, l': Layout, l'': Layout, d: Disk, d': Disk, d'': Disk, i: nat)
    requires OthersKept(l, l', d, d', i) && OthersKept(l', l'', d', d'', i)
    ensures OthersKept(l, l'', d, d'', i)
  {
    forall x: Slot | x.i != i ensures Kept(l, l'', d, d'', x) {
      assert Kept(l, l', d, d', x) && Kept(l', l'', d', d'', x);
    }
  }

  lemma MapsFurther(l: Layout, l': Layout, i: nat, m: nat, bn: nat)
    requires MapsUpTo(l, i, m) && bn <= m && bn < MAXFILE && Extends(l, l', i, bn)
    ensures MapsUpTo(l', i, Max(m, bn + 1))
  {
    var m' := Max(m, bn + 1);
    forall s: nat ensures SlotMapped(l', i, m', s) {
      assert SlotMapped(l, i, m, s);
    }
  }

  lemma BytesKept(d: Disk, d': Disk, l: Layout, l': Layout, i: nat, c: seq<Byte>)
    requires HasBytes(d, l, i, c) && |c| <= MAXFILE * BSIZE && |d'| == |d|
    requires forall x | x in l && x.i == i && x.s < MAXFILE ::
               x in l' && l'[x] == l[x] && (l[x] < |d| ==> d'[l[x]] == d[l[x]])
    ensures HasBytes(d', l', i, c)
  {
    forall k | 0 <= k < |c| ensures HasByte(d', l', i, k, c[k]) {
      assert HasByte(d, l, i, k, c[k]);
      assert k / BSIZE < MAXFILE;
    }
  }

  /** The first block after the `n` bytes at offset `off`. */
  function EndBlock(off: nat, n: nat): nat { if n == 0 then off / BSIZE else (off + n - 1) / BSIZE + 1 }

  /** `b` is EndBlock(off, n), and the `n` bytes end where that block begins unless they are all of `all`.
      Folded (see Bio.Bcache.Valid). */
  ghost predicate Ends(off: nat, n: nat, all: nat, b: nat) {
    forall q: nat {:trigger EndsAt(off, n, all, b, q)} :: EndsAt(off, n, all, b, q)
  }

  ghost predicate EndsAt(off: nat, n: nat, all: nat, b: nat, q: nat) {
    b == EndBlock(off, n) && off / BSIZE <= b && (0 < n < all ==> (off + n) % BSIZE == 0)
  }

  lemma EndsNone(off: nat, all: nat)
    ensures Ends(off, 0, all, off / BSIZE)
  {
    var b := off / BSIZE;
    forall q: nat ensures EndsAt(off, 0, all, b, q) {}
  }

  /** The chunk that writei does next lies in the next block. */
  lemma NextChunk(off: nat, tot: nat, all: nat, b: nat) returns (m: nat)
    requires Ends(off, tot, all, b) && tot < all
    ensures m == if all - tot < BSIZE - (off + tot) % BSIZE then all - tot else BSIZE - (off + tot) % BSIZE
    ensures (off + tot) / BSIZE == b && Ends(off, tot + m, all, b + 1)
  {
    assert EndsAt(off, tot, all, b, 0);
    m := if all - tot < BSIZE - (off + tot) % BSIZE then all - tot else BSIZE - (off + tot) % BSIZE;
    var n, c := tot + m, b + 1;
    forall q: nat ensures EndsAt(off, n, all, c, q) {}
  }

  /** Where a chunk of `m` bytes at offset `o` lies, and how many blocks it makes the file need. */
  lemma ChunkBlocks(size: nat, o: nat, m: nat)
    requires 0 < m <= BSIZE - o % BSIZE && o + m <= MAXFILE * BSIZE
    ensures o / BSIZE < MAXFILE
    ensures o / BSIZE <= BlockCount(Max(size, o))
    ensures Max(BlockCount(Max(size, o)), o / BSIZE + 1) == BlockCount(Max(size, o + m))
    ensures o + m <= size ==> o / BSIZE < BlockCount(Max(size, o))
    ensures o / BSIZE >= BlockCount(Max(size, o)) ==> BlockCount(o + m) > BlockCount(size)
  {
    assert BlockCount(o + m) == o / BSIZE + 1;
    assert BlockCount(o) <= o / BSIZE + 1;
    BlockCountMonotone(o, o + m);
    BlockCountMonotone(size, o + m);
    BlockCountMonotone(o + m, size);
    BlockCountMonotone(o, size);
  }

  lemma BlockCountMonotone(a: nat, b: nat)
    ensures a <= b ==> BlockCount(a) <= BlockCount(b)
  {
  }

  lemma WroteBlock(sb: Super, t0: Track, t1: Track, t: Track, i: nat, bn: nat)
    requires Filled(sb, t0, t1, i) && Extends(t0.l, t1.l, i, bn)
    requires t == Track(t1.h + {t1.l[Slot(i, bn)]}, t1.l)
    ensures Wrote(sb, t0, t, i, bn, bn + 1, {})
  {
    WroteOne(sb, t0, t1, t, i, bn);
  }

  // ---------- how many blocks a file takes ----------

  /** The slots of a file of `m` blocks: one each, and one for the indirect block if it needs one. */
  function SlotsFor(m: nat): nat { if m > NDIRECT then m + 1 else m }

  /** The slots that bmap has to fill for block `bn` of inode `i`. */
  ghost function Lacking(l: Layout, i: nat, bn: nat): nat {
    (if Slot(i, bn) in l then 0 else 1) + (if bn >= NDIRECT && Slot(i, INDIRECT) !in l then 1 else 0)
  }

  lemma LackingIs(l: Layout, i: nat, m: nat, bn: nat)
    requires MapsUpTo(l, i, m) && bn <= m && bn < MAXFILE
    ensures Lacking(l, i, bn) == SlotsFor(Max(m, bn + 1)) - SlotsFor(m)
  {
    assert SlotMapped(l, i, m, bn) && SlotMapped(l, i, m, INDIRECT);
  }

  /** The slots that a file of `size` bytes gains when it is written up to byte `end`. */
  function MoreSlots(size: nat, end: nat): int {
    SlotsFor(BlockCount(Max(size, end))) - SlotsFor(BlockCount(size))
  }

  /** `k` is MoreSlots(size, end), folded (see Bio.Bcache.Valid). */
  ghost predicate Gains(size: nat, end: nat, k: int) {
    forall q: nat {:trigger GainsIs(size, end, k, q)} :: GainsIs(size, end, k, q)
  }

  ghost predicate GainsIs(size: nat, end: nat, k: int, q: nat) { k == MoreSlots(size, end) }

  lemma GainsOf(size: nat, end: nat) returns (k: int)
    ensures Gains(size, end, k) && k == MoreSlots(size, end)
  {
    k := MoreSlots(size, end);
    forall q: nat ensures GainsIs(size, end, k, q) {}
  }

  lemma SomeGains(size: nat, end: nat) returns (k: int)
    ensures Gains(size, end, k)
  {
    k := GainsOf(size, end);
  }

  lemma GainsMonotone(size: nat, o: nat, k: int, end: nat, k': int)
    requires o <= end && Gains(size, o, k) && Gains(size, end, k')
    ensures 0 <= k <= k' && (o <= size ==> k == 0) && (o == end ==> k == k')
  {
    assert GainsIs(size, o, k, 0) && GainsIs(size, end, k', 0);
    BlockCountMonotone(size, Max(size, o));
    BlockCountMonotone(Max(size, o), Max(size, end));
  }

  // ---------- freeing ----------

  /** The slots of inode `i`, and its blocks from slot `s` on. */
  ghost function SlotsOf(l: Layout, i: nat): set<Slot> {
    set x | x in l && x.i == i
  }

  ghost function BlocksFrom(l: Layout, i: nat, s: nat): set<nat> {
    set x | x in l && x.i == i && x.s >= s :: l[x]
  }

  lemma BlocksFromNext(l: Layout, i: nat, s: nat)
    requires Injective(l)
    ensures Slot(i, s) in l ==>
              && l[Slot(i, s)] in BlocksFrom(l, i, s)
              && BlocksFrom(l, i, s + 1) == BlocksFrom(l, i, s) - {l[Slot(i, s)]}
    ensures Slot(i, s) !in l ==> BlocksFrom(l, i, s + 1) == BlocksFrom(l, i, s)
  {
  }

  /** The slots of inode `i` below slot `s`. */
  ghost function DirectSlots(l: Layout, i: nat, s: nat): set<Slot> {
    set x | x in l && x.i == i && x.s < s
  }

  lemma DirectSlotsNext(l: Layout, i: nat, s: nat)
    ensures l - DirectSlots(l, i, s) - {Slot(i, s)} == l - DirectSlots(l, i, s + 1)
  {
    var a, b := l - DirectSlots(l, i, s) - {Slot(i, s)}, l - DirectSlots(l, i, s + 1);
    assert forall x :: x in a <==> x in b;
  }

  lemma AllDropped(l0: Layout, l: Layout, i: nat)
    requires var l1 := l0 - DirectSlots(l0, i, NDIRECT); l == l1 - Upper(l1, i)
    ensures l == l0 - SlotsOf(l0, i)
  {
    assert forall x :: x in l <==> x in l0 - SlotsOf(l0, i);
  }

  // ---------- a write in progress ----------

  /** Where a write began: layout, disk, the file's bytes and its size. */
  datatype Job = Job(l: Layout, d: Disk, c: seq<Byte>, size: nat)

  /** The file holds `now`, what it is after `tot` of the bytes; `k` slots were filled; the other files
      are as they were. Folded (see Bio.Bcache.Valid). */
  ghost predicate Writing(d: Disk, l: Layout, i: nat, w: Job, off: nat, src: seq<Byte>, tot: nat,
                          now: seq<Byte>, k: int)
    requires off <= |w.c|
  {
    forall q: nat {:trigger WritingAt(d, l, i, w, off, src, tot, now, k, q)} ::
      WritingAt(d, l, i, w, off, src, tot, now, k, q)
  }

  ghost predicate WritingAt(d: Disk, l: Layout, i: nat, w: Job, off: nat, src: seq<Byte>, tot: nat,
                            now: seq<Byte>, k: int, q: nat)
    requires off <= |w.c|
  {
    && Part(w.c, off, src, tot, now) && |now| == Max(w.size, off + tot)
    && HasBytes(d, l, i, now)
    && MapsUpTo(l, i, BlockCount(Max(w.size, off + tot)))
    && OthersKept(w.l, l, w.d, d, i)
    && Gains(w.size, off + tot, k)
  }

  lemma WritingNone(l: Layout, i: nat, w: Job, off: nat, src: seq<Byte>, k: int)
    requires off <= |w.c| == w.size && HasBytes(w.d, l, i, w.c) && MapsUpTo(l, i, BlockCount(w.size)) && l == w.l
    requires Gains(w.size, off, k)
    ensures Writing(w.d, l, i, w, off, src, 0, w.c, k)
  {
    PartNone(w.c, off, src);
    forall x: Slot | x.i != i ensures Kept(l, l, w.d, w.d, x) {}
  }

  lemma WritingAll(d: Disk, l: Layout, i: nat, w: Job, off: nat, src: seq<Byte>, now: seq<Byte>, k: int)
    requires off <= |w.c| && Writing(d, l, i, w, off, src, |src|, now, k)
    ensures HasBytes(d, l, i, Splice(w.c, off, src)) && MapsUpTo(l, i, BlockCount(Max(w.size, off + |src|)))
    ensures OthersKept(w.l, l, w.d, d, i)
  {
    assert WritingAt(d, l, i, w, off, src, |src|, now, k, 0);
    PartAll(w.c, off, src, now);
  }

  // ---------- the operations ----------

  datatype IoResult = Done(n: nat) | Error | Panic

  /** A locked, valid in-memory inode. */
  class Inode {
    const inum: nat
    var din: Node

    constructor (inum: nat, din: Node)
      ensures this.inum == inum && this.din == din
    {
      this.inum, this.din := inum, din;
    }
  }

  class Files {
    const store: Store
    ghost var nodes: seq<Node>   // the inodes, as last changed in memory
    ghost var l: Layout
    ghost var pend: set<nat>

    ghost predicate Unfolded(k: nat)
      reads this, store
    {
      Owned(store.sb, store.disk, nodes, store.used, l, pend)
    }

    /** Ownership, folded (see Bio.Bcache.Valid). */
    ghost predicate Valid()
      reads this, store
    {
      && store.Valid()
      && |nodes| == store.sb.ninodes
      && forall k: nat {:trigger Unfolded(k)} :: Unfolded(k)
    }

    ghost function Now(): Track
      reads this`l, store`homes
    {
      Track(store.homes, l)
    }

    /** Between system calls: the disk inodes are up to date, and each file maps
        exactly the blocks below its size. */
    ghost predicate AtRest()
      reads this, store
    {
      && Valid() && pend == {} && store.inodes == nodes
      && forall i {:trigger Covers(l, i, nodes[i])} | 0 <= i < |nodes| :: Covers(l, i, nodes[i])
    }

    /** `ip` is the in-memory copy of an inode of this file system. */
    ghost predicate Holds(ip: Inode)
      reads this, ip
    {
      ip.inum < |nodes| && nodes[ip.inum] == ip.din
    }

    /** Mount a disk whose inodes own their blocks as `l` says. */
    constructor (store: Store, ghost l: Layout)
      requires store.Valid() && Owned(store.sb, store.disk, store.inodes, store.used, l, {})
      ensures Valid() && this.store == store && nodes == store.inodes && this.l == l && pend == {}
    {
      this.store, this.nodes, this.l, pend := store, store.inodes, l, {};
    }

    /** begin_op. */
    method Begin()
      requires AtRest()
      modifies store`base, store`writes, store`homes
      ensures AtRest() && store.base == store.disk && store.writes == [] && store.homes == {}
    {
      assert Unfolded(0);
      store.Begin();
      assert forall k: nat :: Unfolded(k);
    }

    lemma SlotInRange(x: Slot)
      requires Valid() && x in l
      ensures x.i < |nodes| && x.s <= INDIRECT && store.sb.nmeta <= l[x] < |store.disk|
    {
      assert Unfolded(0);
    }

    lemma AddrIs(ip: Inode, s: nat)
      requires Valid() && Holds(ip) && s <= INDIRECT
      ensures Addr(store.disk, ip.din, s) == if Slot(ip.inum, s) in l then l[Slot(ip.inum, s)] else 0
      ensures Slot(ip.inum, s) in l ==> l[Slot(ip.inum, s)] > 0
      ensures NDIRECT <= s < INDIRECT && Slot(ip.inum, s) in l ==> Slot(ip.inum, INDIRECT) in l
    {
      assert Unfolded(0);
      assert Agrees(store.disk, nodes[ip.inum], l, ip.inum, s);
      assert Agrees(store.disk, nodes[ip.inum], l, ip.inum, INDIRECT);
    }

    /** balloc, with the new block pending. */
    method Alloc() returns (r: Option<nat>)
      requires Valid()
      modifies this`pend, store`disk, store`writes, store`homes, store`used
      ensures Valid() && |store.disk| == |old(store.disk)|
      ensures r.None? ==> store.disk == old(store.disk) && pend == old(pend) && store.homes == old(store.homes)
      ensures r.Some? ==> store.homes == old(store.homes) + {MapBlock(store.sb, r.value), r.value}
      ensures |old(store.used)| <= store.sb.size && (r.None? <==> |old(store.used)| == store.sb.size)
      ensures |store.used| == |old(store.used)| + (if r.Some? then 1 else 0)
      ensures r.Some? ==>
        && store.sb.nmeta <= r.value < store.sb.size && r.value !in old(pend) && r.value !in l.Values
        && pend == old(pend) + {r.value}
        && store.disk[r.value] == ZERO_BLOCK
        && forall a | store.sb.nmeta <= a < |store.disk| && a != r.value :: store.disk[a] == old(store.disk)[a]
    {
      assert Unfolded(0);
      r := store.Balloc();
      if r.Some? {
        AllocKeeps(store.sb, old(store.disk), nodes, old(store.used), l, pend, r.value, store.disk);
        pend := pend + {r.value};
      }
    }

    /** Store a pending block's number in the inode: a direct slot or the indirect block. */
    method LinkAddr(ip: Inode, s: nat, b: Word)
      requires Valid() && Holds(ip) && b in pend
      requires (s < NDIRECT || (s == INDIRECT && b < |store.disk| && NoEntries(store.disk[b])))
      requires Slot(ip.inum, s) !in l
      modifies this, ip
      ensures Valid() && pend == old(pend) - {b}
      ensures ip.din == old(ip.din).(addrs := old(ip.din.addrs)[if s < NDIRECT then s else NDIRECT := b])
      ensures nodes == old(nodes)[ip.inum := ip.din] && l == old(l)[Slot(ip.inum, s) := b]
    {
      assert Unfolded(0);
      if s < NDIRECT {
        DirectKeeps(store.sb, store.disk, nodes, store.used, l, pend, ip.inum, s, b);
      } else {
        IndirectKeeps(store.sb, store.disk, nodes, store.used, l, pend, ip.inum, b);
      }
      ip.din := ip.din.(addrs := ip.din.addrs[if s < NDIRECT then s else NDIRECT := b]);
      nodes := nodes[ip.inum := ip.din];
      l := l[Slot(ip.inum, s) := b];
      pend := pend - {b};
    }

    /** Store a pending block's number in the indirect block. */
    method LinkEntry(ip: Inode, s: nat, b: Word)
      requires Valid() && Holds(ip) && b in pend
      requires NDIRECT <= s < INDIRECT && Slot(ip.inum, s) !in l && Slot(ip.inum, INDIRECT) in l
      modifies this`l, this`pend, store`disk, store`writes, store`homes
      ensures Valid() && pend == old(pend) - {b} && l == old(l)[Slot(ip.inum, s) := b]
      ensures SameData(old(store.disk), store.disk, old(l), ip.inum)
      ensures store.homes == old(store.homes) + {l[Slot(ip.inum, INDIRECT)]}
      ensures b < |store.disk| && store.disk[b] == old(store.disk)[b]
    {
      AddrIs(ip, INDIRECT);
      SlotInRange(Slot(ip.inum, INDIRECT));
      assert Unfolded(0);
      var ind := ip.din.addrs[NDIRECT];
      EntryKeeps(store.sb, store.disk, nodes, store.used, l, pend, ip.inum, s, b);
      var blk := WithWord(store.disk[ind], s - NDIRECT, b);
      IndirectAlone(store.disk, l, ip.inum, blk);
      assert l[Slot(ip.inum, INDIRECT)] in l.Values;
      store.Write(ind, blk);
      l := l[Slot(ip.inum, s) := b];
      pend := pend - {b};
    }

    lemma Unowned(d: Disk, b: nat, i: nat)
      requires Valid() && |store.disk| == |d| && b !in l.Values
      requires forall a | store.sb.nmeta <= a < |d| && a != b :: store.disk[a] == d[a]
      ensures SameData(d, store.disk, l, i)
    {
      assert Unfolded(0);
      assert forall x | x in l :: l[x] in l.Values;
    }

    /** bmap's `ip->addrs[s] = balloc(ip->dev)`, for a direct slot or the indirect block. */
    method FillAddr(ip: Inode, s: nat) returns (r: Option<nat>)
      requires Valid() && Holds(ip) && pend == {}
      requires (s < NDIRECT || s == INDIRECT) && Slot(ip.inum, s) !in l
      modifies this, ip, store`disk, store`writes, store`homes, store`used
      ensures |old(store.used)| <= store.sb.size && (r.None? <==> |old(store.used)| == store.sb.size)
      ensures |store.used| == |old(store.used)| + (if r.Some? then 1 else 0)
      ensures r.Some? ==>
        && Valid() && pend == {}
        && 0 < r.value < |store.disk|
        && ip.din == old(ip.din).(addrs := old(ip.din.addrs)[if s < NDIRECT then s else NDIRECT := r.value])
        && nodes == old(nodes)[ip.inum := ip.din]
        && l == old(l)[Slot(ip.inum, s) := r.value]
        && SameData(old(store.disk), store.disk, old(l), ip.inum)
        && Filled(store.sb, old(Now()), Now(), ip.inum)
    {
      r := Alloc();
      if r.Some? {
        Unowned(old(store.disk), r.value, ip.inum);
        forall k: nat | k < NINDIRECT ensures WordAt(store.disk[r.value], k) == 0 { ZeroWords(k); }
        LinkAddr(ip, s, r.value);
        FilledAddr(store.sb, old(Now()), Now(), ip.inum, s, r.value);
      }
    }

    /** bmap's `a[bn] = balloc(ip->dev)`, for an entry of the indirect block. */
    method FillEntry(ip: Inode, s: nat) returns (r: Option<nat>)
      requires Valid() && Holds(ip) && pend == {}
      requires NDIRECT <= s < INDIRECT && Slot(ip.inum, s) !in l && Slot(ip.inum, INDIRECT) in l
      modifies this`l, this`pend, store`disk, store`writes, store`homes, store`used
      ensures |old(store.used)| <= store.sb.size && (r.None? <==> |old(store.used)| == store.sb.size)
      ensures |store.used| == |old(store.used)| + (if r.Some? then 1 else 0)
      ensures r.Some? ==>
        && Valid() && pend == {}
        && 0 < r.value < |store.disk|
        && l == old(l)[Slot(ip.inum, s) := r.value]
        && SameData(old(store.disk), store.disk, old(l), ip.inum)
        && Filled(store.sb, old(Now()), Now(), ip.inum)
    {
      r := Alloc();
      if r.Some? {
        Unowned(old(store.disk), r.value, ip.inum);
        ghost var d := store.disk;
        LinkEntry(ip, s, r.value);
        SameDataTwice(old(store.disk), d, store.disk, old(l), ip.inum);
        FilledEntry(store.sb, old(Now()), Now(), ip.inum, s, r.value);
      }
    }

    /** The file's bytes are in the blocks it owns, and they are all the bytes it has. */
    lemma ContentsHeld(i: nat)
      requires Valid() && i < |nodes| && Covers(l, i, nodes[i])
      ensures HasBytes(store.disk, l, i, Contents(store.disk, nodes[i]))
    {
      assert Unfolded(0);
      var n := nodes[i];
      forall k: nat | k < n.size ensures HasByte(store.disk, l, i, k, Contents(store.disk, n)[k]) {
        assert k / BSIZE < BlockCount(n.size);
        assert SlotMapped(l, i, BlockCount(n.size), k / BSIZE);
        assert Agrees(store.disk, nodes[i], l, i, k / BSIZE);
      }
    }

    lemma ContentsAre(i: nat, c: seq<Byte>)
      requires Valid() && i < |nodes| && nodes[i].size == |c| <= MAXFILE * BSIZE && HasBytes(store.disk, l, i, c)
      ensures Contents(store.disk, nodes[i]) == c
    {
      assert Unfolded(0);
      forall k: nat | k < |c| ensures Contents(store.disk, nodes[i])[k] == c[k] {
        assert HasByte(store.disk, l, i, k, c[k]);
        assert Agrees(store.disk, nodes[i], l, i, k / BSIZE);
      }
    }

    /** bmap's indirect case: `a[bn]` in an indirect block that exists. */
    method BmapEntry(ip: Inode, bn: nat) returns (r: Option<nat>)
      requires Valid() && Holds(ip) && pend == {}
      requires NDIRECT <= bn < MAXFILE && Slot(ip.inum, INDIRECT) in l
      modifies this`l, this`pend, store`disk, store`writes, store`homes, store`used
      ensures r.None? <==> Slot(ip.inum, bn) !in old(l) && |old(store.used)| == store.sb.size
      ensures r.Some? ==>
        |store.used| == |old(store.used)| + (if Slot(ip.inum, bn) in old(l) then 0 else 1) <= store.sb.size
      ensures r.Some? ==>
        && Valid() && pend == {}
        && Extends(old(l), l, ip.inum, bn) && l[Slot(ip.inum, bn)] == r.value
        && SameData(old(store.disk), store.disk, old(l), ip.inum)
        && Filled(store.sb, old(Now()), Now(), ip.inum)
      ensures r.Some? && Slot(ip.inum, bn) in old(l) ==>
        && l == old(l) && store.disk == old(store.disk) && store.used == old(store.used)
        && store.writes == old(store.writes) && store.homes == old(store.homes)
    {
      UsedFits(store.used, store.sb.size);
      AddrIs(ip, bn);
      AddrIs(ip, INDIRECT);
      SlotInRange(Slot(ip.inum, INDIRECT));
      var addr := WordAt(store.disk[ip.din.addrs[NDIRECT]], bn - NDIRECT);
      if addr == 0 {
        r := FillEntry(ip, bn);
      } else {
        r := Some(addr);
        FilledNone(store.sb, Now(), ip.inum);
      }
    }

    /** bmap; None where it panics: block number too large, or no free block. */
    method Bmap(ip: Inode, bn: nat) returns (r: Option<nat>)
      requires Valid() && Holds(ip) && pend == {}
      modifies this, ip, store`disk, store`writes, store`homes, store`used
      ensures r.None? <==> bn >= MAXFILE || |old(store.used)| + Lacking(old(l), ip.inum, bn) > store.sb.size
      ensures r.None? ==> bn >= MAXFILE || Slot(ip.inum, bn) !in old(l)
      ensures r.Some? ==> |store.used| == |old(store.used)| + Lacking(old(l), ip.inum, bn)
      ensures r.Some? ==>
        && bn < MAXFILE
        && Valid() && Holds(ip) && pend == {}
        && ip.din == old(ip.din).(addrs := ip.din.addrs)
        && nodes == old(nodes)[ip.inum := ip.din]
        && Extends(old(l), l, ip.inum, bn) && l[Slot(ip.inum, bn)] == r.value
        && SameData(old(store.disk), store.disk, old(l), ip.inum)
        && Filled(store.sb, old(Now()), Now(), ip.inum)
      ensures r.Some? && Slot(ip.inum, bn) in old(l) ==>
        && l == old(l) && ip.din == old(ip.din) && nodes == old(nodes)
        && store.disk == old(store.disk) && store.used == old(store.used)
        && store.writes == old(store.writes) && store.homes == old(store.homes)
    {
      if bn >= MAXFILE {
        return None;
      }
      UsedFits(store.used, store.sb.size);
      AddrIs(ip, bn);
      if bn < NDIRECT {
        r := BmapDirect(ip, bn);
        return;
      }
      AddrIs(ip, INDIRECT);
      if ip.din.addrs[NDIRECT] == 0 {
        r := FillAddr(ip, INDIRECT);
        if r.None? {
          return;
        }
      } else {
        FilledNone(store.sb, Now(), ip.inum);
      }
      ghost var d, t := store.disk, Now();
      r := BmapEntry(ip, bn);
      if r.Some? {
        assert SameData(d, store.disk, old(l), ip.inum);
        SameDataTwice(old(store.disk), d, store.disk, old(l), ip.inum);
        FilledTwice(store.sb, old(Now()), t, Now(), ip.inum);
      }
    }

    /** bmap's direct case. */
    method BmapDirect(ip: Inode, bn: nat) returns (r: Option<nat>)
      requires Valid() && Holds(ip) && pend == {} && bn < NDIRECT
      modifies this, ip, store`disk, store`writes, store`homes, store`used
      ensures r.None? <==> Slot(ip.inum, bn) !in old(l) && |old(store.used)| == store.sb.size
      ensures r.Some? ==>
        |store.used| == |old(store.used)| + (if Slot(ip.inum, bn) in old(l) then 0 else 1) <= store.sb.size
      ensures r.Some? ==>
        && Valid() && Holds(ip) && pend == {}
        && ip.din == old(ip.din).(addrs := ip.din.addrs)
        && nodes == old(nodes)[ip.inum := ip.din]
        && Extends(old(l), l, ip.inum, bn) && l[Slot(ip.inum, bn)] == r.value
        && SameData(old(store.disk), store.disk, old(l), ip.inum)
        && Filled(store.sb, old(Now()), Now(), ip.inum)
      ensures r.Some? && Slot(ip.inum, bn) in old(l) ==>
        && l == old(l) && ip.din == old(ip.din) && nodes == old(nodes)
        && store.disk == old(store.disk) && store.used == old(store.used)
        && store.writes == old(store.writes) && store.homes == old(store.homes)
    {
      UsedFits(store.used, store.sb.size);
      AddrIs(ip, bn);
      var addr := ip.din.addrs[bn];
      if addr == 0 {
        r := FillAddr(ip, bn);
        return;
      }
      FilledNone(store.sb, Now(), ip.inum);
      return Some(addr);
    }

    lemma LayoutIsInjective()
      requires Valid()
      ensures Injective(l)
    {
      assert Unfolded(0);
    }

    /** Overwrite block `a`, data block `bn` of inode `i`. */
    method StoreBlock(ghost i: nat, ghost bn: nat, a: nat, data: Block)
      requires Valid() && bn < MAXFILE && Slot(i, bn) in l && l[Slot(i, bn)] == a
      modifies store`disk, store`writes, store`homes
      ensures Valid() && a < |old(store.disk)| && store.disk == old(store.disk)[a := data]
      ensures store.homes == old(store.homes) + {a}
      ensures OthersKept(l, l, old(store.disk), store.disk, i)
    {
      SlotInRange(Slot(i, bn));
      assert Unfolded(0);
      DataKeeps(store.sb, store.disk, nodes, store.used, l, pend, store.disk[a := data]);
      store.Write(a, data);
    }

    /** The memmove into block `a` and its log_write, at offset `off` of a file that so far holds `c`. */
    method StoreChunk(ghost i: nat, a: nat, off: nat, x: seq<Byte>, ghost c: seq<Byte>)
      requires Valid() && off / BSIZE < MAXFILE && Slot(i, off / BSIZE) in l && l[Slot(i, off / BSIZE)] == a
      requires 0 < |x| <= BSIZE - off % BSIZE && off <= |c| && HasBytes(store.disk, l, i, c)
      modifies store`disk, store`writes, store`homes
      ensures Valid() && store.homes == old(store.homes) + {a}
      ensures HasBytes(store.disk, l, i, Splice(c, off, x)) && OthersKept(l, l, old(store.disk), store.disk, i)
    {
      LayoutIsInjective();
      SlotInRange(Slot(i, off / BSIZE));
      ChunkWritten(store.disk, l, i, c, off, x);
      StoreBlock(i, off / BSIZE, a, Patch(store.disk[a], off % BSIZE, x));
    }

    /** The block that writei is to store into, of a file that holds `c` and maps `m` blocks. */
    method BlockFor(ip: Inode, bn: nat, ghost c: seq<Byte>, ghost m: nat) returns (r: Option<nat>)
      requires Valid() && Holds(ip) && pend == {} && |c| <= MAXFILE * BSIZE && HasBytes(store.disk, l, ip.inum, c)
      requires MapsUpTo(l, ip.inum, m) && bn <= m && bn < MAXFILE
      modifies this, ip, store`disk, store`writes, store`homes, store`used
      ensures r.Some? <==> |old(store.used)| + (SlotsFor(Max(m, bn + 1)) - SlotsFor(m)) <= store.sb.size
      ensures r.Some? ==>
        && |store.used| == |old(store.used)| + (SlotsFor(Max(m, bn + 1)) - SlotsFor(m))
        && Valid() && Holds(ip) && pend == {}
        && ip.din == old(ip.din).(addrs := ip.din.addrs) && nodes == old(nodes)[ip.inum := ip.din]
        && HasBytes(store.disk, l, ip.inum, c) && MapsUpTo(l, ip.inum, Max(m, bn + 1))
        && OthersKept(old(l), l, old(store.disk), store.disk, ip.inum)
        && Extends(old(l), l, ip.inum, bn) && l[Slot(ip.inum, bn)] == r.value
        && Filled(store.sb, old(Now()), Now(), ip.inum) && (bn < m ==> ip.din == old(ip.din))
    {
      assert SlotMapped(l, ip.inum, m, bn);
      LackingIs(l, ip.inum, m, bn);
      r := Bmap(ip, bn);
      if r.Some? {
        MapsFurther(old(l), l, ip.inum, m, bn);
        BytesKept(old(store.disk), store.disk, old(l), l, ip.inum, c);
      }
    }

    /** One iteration of writei's loop: `x` goes into the block at offset `off` of
        a file that so far holds `c` and maps `m` blocks. */
    method WriteBlock(ip: Inode, off: nat, x: seq<Byte>, ghost c: seq<Byte>, ghost m: nat) returns (ok: bool)
      requires Valid() && Holds(ip) && pend == {}
      requires 0 < |x| <= BSIZE - off % BSIZE && off <= |c| <= MAXFILE * BSIZE && HasBytes(store.disk, l, ip.inum, c)
      requires MapsUpTo(l, ip.inum, m) && off / BSIZE <= m && off / BSIZE < MAXFILE
      modifies this, ip, store`disk, store`writes, store`homes, store`used
      ensures ok <==> |old(store.used)| + (SlotsFor(Max(m, off / BSIZE + 1)) - SlotsFor(m)) <= store.sb.size
      ensures ok ==> |store.used| == |old(store.used)| + (SlotsFor(Max(m, off / BSIZE + 1)) - SlotsFor(m))
      ensures ok ==>
        && Valid() && Holds(ip) && pend == {}
        && ip.din == old(ip.din).(addrs := ip.din.addrs) && nodes == old(nodes)[ip.inum := ip.din]
        && HasBytes(store.disk, l, ip.inum, Splice(c, off, x))
        && MapsUpTo(l, ip.inum, Max(m, off / BSIZE + 1))
        && OthersKept(old(l), l, old(store.disk), store.disk, ip.inum)
        && (off / BSIZE < m ==> ip.din == old(ip.din))
        && Wrote(store.sb, old(Now()), Now(), ip.inum, off / BSIZE, off / BSIZE + 1, {})
    {
      var bn := off / BSIZE;
      var addr := BlockFor(ip, bn, c, m);
      if addr.None? {
        return false;
      }
      ghost var d, t := store.disk, Now();
      StoreChunk(ip.inum, addr.value, off, x, c);
      OthersKeptTwice(old(l), l, l, old(store.disk), d, store.disk, ip.inum);
      WroteBlock(store.sb, old(Now()), t, Now(), ip.inum, bn);
      return true;
    }

    /** The same, for a file of `size` bytes of which writei has written those up to `o`. */
    method WriteTurn(ip: Inode, o: nat, x: seq<Byte>, ghost c: seq<Byte>, ghost size: nat, ghost k: int)
      returns (ok: bool, ghost k': int)
      requires Valid() && Holds(ip) && pend == {} && o <= |c| <= MAXFILE * BSIZE && HasBytes(store.disk, l, ip.inum, c)
      requires 0 < |x| <= BSIZE - o % BSIZE && o + |x| <= MAXFILE * BSIZE
      requires MapsUpTo(l, ip.inum, BlockCount(Max(size, o))) && Gains(size, o, k)
      modifies this, ip, store`disk, store`writes, store`homes, store`used
      ensures Gains(size, o + |x|, k') && (ok <==> |old(store.used)| + k' - k <= store.sb.size)
      ensures ok ==> |store.used| == |old(store.used)| + k' - k
      ensures ok ==>
        && Valid() && Holds(ip) && pend == {}
        && ip.din == old(ip.din).(addrs := ip.din.addrs) && nodes == old(nodes)[ip.inum := ip.din]
        && HasBytes(store.disk, l, ip.inum, Splice(c, o, x))
        && MapsUpTo(l, ip.inum, BlockCount(Max(size, o + |x|)))
        && OthersKept(old(l), l, old(store.disk), store.disk, ip.inum)
        && (o + |x| <= size ==> ip.din == old(ip.din))
        && Wrote(store.sb, old(Now()), Now(), ip.inum, o / BSIZE, o / BSIZE + 1, {})
    {
      ChunkBlocks(size, o, |x|);
      k' := GainsOf(size, o + |x|);
      assert GainsIs(size, o, k, 0);
      ok := WriteBlock(ip, o, x, c, BlockCount(Max(size, o)));
    }

    /** One turn of writei's loop, which has done `tot` bytes. */
    method WriteStep(ip: Inode, src: seq<Byte>, off: nat, tot: nat, ghost w: Job, ghost now: seq<Byte>, ghost k: int,
                     ghost b: nat)
      returns (ok: bool, m: nat, ghost now': seq<Byte>, ghost k': int)
      requires Valid() && Holds(ip) && pend == {} && off <= |w.c| && off + |src| <= MAXFILE * BSIZE && tot < |src|
      requires w.size <= MAXFILE * BSIZE && Writing(store.disk, l, ip.inum, w, off, src, tot, now, k)
      requires Ends(off, tot, |src|, b)
      modifies this, ip, store`disk, store`writes, store`homes, store`used
      ensures 0 < m <= |src| - tot && Gains(w.size, off + tot + m, k')
      ensures Ends(off, tot + m, |src|, b + 1)
      ensures ok <==> |old(store.used)| + k' - k <= store.sb.size
      ensures ok ==> |store.used| == |old(store.used)| + k' - k
      ensures ok ==>
        && Valid() && Holds(ip) && pend == {}
        && ip.din == old(ip.din).(addrs := ip.din.addrs) && nodes == old(nodes)[ip.inum := ip.din]
        && Writing(store.disk, l, ip.inum, w, off, src, tot + m, now', k')
        && (off + tot + m <= w.size ==> ip.din == old(ip.din))
        && Wrote(store.sb, old(Now()), Now(), ip.inum, b, b + 1, {})
    {
      var o := off + tot;
      m := if |src| - tot < BSIZE - o % BSIZE then |src| - tot else BSIZE - o % BSIZE;
      var x := src[tot..tot + m];
      ghost var m' := NextChunk(off, tot, |src|, b);
      assert WritingAt(store.disk, l, ip.inum, w, off, src, tot, now, k, 0);
      PartNext(w.c, off, src, tot, m, now);
      ghost var l1, d1 := l, store.disk;
      ok, k' := WriteTurn(ip, o, x, now, w.size, k);
      now' := Splice(now, o, x);
      if ok { OthersKeptTwice(w.l, l1, l, w.d, d1, store.disk, ip.inum); }
    }

    /** writei's loop. */
    method WriteLoop(ip: Inode, src: seq<Byte>, off: nat) returns (ok: bool)
      requires Valid() && Holds(ip) && pend == {} && Covers(l, ip.inum, ip.din)
      requires off <= ip.din.size && off + |src| <= MAXFILE * BSIZE
      modifies this, ip, store`disk, store`writes, store`homes, store`used
      ensures ok <==> |old(store.used)| + MoreSlots(old(ip.din.size), off + |src|) <= store.sb.size
      ensures ok ==> |store.used| == |old(store.used)| + MoreSlots(old(ip.din.size), off + |src|)
      ensures ok ==>
        && Valid() && Holds(ip) && pend == {}
        && ip.din == old(ip.din).(addrs := ip.din.addrs) && nodes == old(nodes)[ip.inum := ip.din]
        && HasBytes(store.disk, l, ip.inum, Splice(old(Contents(store.disk, ip.din)), off, src))
        && MapsUpTo(l, ip.inum, BlockCount(Max(ip.din.size, off + |src|)))
        && OthersKept(old(l), l, old(store.disk), store.disk, ip.inum)
        && (off + |src| <= ip.din.size ==> ip.din == old(ip.din))
        && Wrote(store.sb, old(Now()), Now(), ip.inum, off / BSIZE, EndBlock(off, |src|), {})
    {
      ghost var w := Job(l, store.disk, Contents(store.disk, ip.din), ip.din.size);
      ContentsHeld(ip.inum);
      UsedFits(store.used, store.sb.size);
      ghost var k := GainsOf(w.size, off);
      ghost var all := GainsOf(w.size, off + |src|);
      GainsMonotone(w.size, off, k, off + |src|, all);
      WritingNone(l, ip.inum, w, off, src, k);
      ghost var now;
      ok, now := WriteTurns(ip, src, off, w, k, all);
      if ok { WritingAll(store.disk, l, ip.inum, w, off, src, now, all); }
    }

    method WriteTurns(ip: Inode, src: seq<Byte>, off: nat, ghost w: Job, ghost k0: int, ghost all: int)
      returns (ok: bool, ghost now: seq<Byte>)
      requires Valid() && Holds(ip) && pend == {} && off <= |w.c| && off + |src| <= MAXFILE * BSIZE
      requires w.size <= MAXFILE * BSIZE && Writing(store.disk, l, ip.inum, w, off, src, 0, w.c, k0) && off <= w.size
      requires Gains(w.size, off, k0) && Gains(w.size, off + |src|, all) && k0 == 0 && |store.used| <= store.sb.size
      modifies this, ip, store`disk, store`writes, store`homes, store`used
      ensures (ok <==> |old(store.used)| + all <= store.sb.size) && (ok ==> |store.used| == |old(store.used)| + all)
      ensures ok ==>
        && Valid() && Holds(ip) && pend == {}
        && ip.din == old(ip.din).(addrs := ip.din.addrs) && nodes == old(nodes)[ip.inum := ip.din]
        && Writing(store.disk, l, ip.inum, w, off, src, |src|, now, all)
        && (off + |src| <= w.size ==> ip.din == old(ip.din))
        && Wrote(store.sb, old(Now()), Now(), ip.inum, off / BSIZE, EndBlock(off, |src|), {})
    {
      now := w.c;  // the file as written so far
      ghost var k := k0;
      var tot := 0;
      GainsMonotone(w.size, off, k, off + |src|, all);
      ghost var b: nat := off / BSIZE;
      WroteNone(store.sb, Now(), ip.inum, b);
      EndsNone(off, |src|);
      while tot < |src|
        invariant 0 <= tot <= |src|
        invariant Valid() && Holds(ip) && pend == {}
        invariant ip.din == old(ip.din).(addrs := ip.din.addrs) && nodes == old(nodes)[ip.inum := ip.din]
        invariant Writing(store.disk, l, ip.inum, w, off, src, tot, now, k)
        invariant off + tot <= w.size ==> ip.din == old(ip.din)
        invariant Gains(w.size, off + tot, k) && |store.used| == |old(store.used)| + k <= store.sb.size
        invariant Ends(off, tot, |src|, b) && off / BSIZE <= b
        invariant Wrote(store.sb, old(Now()), Now(), ip.inum, off / BSIZE, b, {})
      {
        var m;
        ghost var t := Now();
        ok, m, now, k := WriteStep(ip, src, off, tot, w, now, k, b);
        GainsMonotone(w.size, off + tot + m, k, off + |src|, all);
        if !ok {
          return;
        }
        WroteTwice(store.sb, old(Now()), t, Now(), ip.inum, off / BSIZE, b, b + 1);
        tot, b := tot + m, b + 1;
      }
      GainsMonotone(w.size, off + tot, k, off + |src|, all);
      assert EndsAt(off, tot, |src|, b, 0);
      return true, now;
    }

    /** Set a field other than the addresses, and log the inode. */
    method UpdateInode(ip: Inode, n: Node)
      requires Valid() && Holds(ip) && n.addrs == ip.din.addrs
      modifies this`nodes, ip, store`disk, store`writes, store`homes, store`inodes
      ensures Valid() && ip.din == n && nodes == old(nodes)[ip.inum := n]
      ensures store.inodes == old(store.inodes)[ip.inum := n]
      ensures ip.inum < store.sb.ninodes && store.homes == old(store.homes) + {InodeBlock(store.sb, ip.inum)}
      ensures |store.disk| == |old(store.disk)|
      ensures forall a | store.sb.nmeta <= a < |store.disk| :: store.disk[a] == old(store.disk)[a]
    {
      assert Unfolded(0);
      FieldsKeep(store.sb, store.disk, nodes, store.used, l, pend, ip.inum, n);
      store.Iupdate(ip.inum, n);
      ip.din := n;
      nodes := nodes[ip.inum := n];
      DataKeeps(store.sb, old(store.disk), nodes, store.used, l, pend, store.disk);
    }

    lemma OtherFile(j: nat, i: nat, l0: Layout, d0: Disk, n: Node)
      requires Valid() && j < |nodes| && j != i && nodes[j] == n && Covers(l0, j, n)
      requires OthersKept(l0, l, d0, store.disk, i)
      requires HasBytes(d0, l0, j, Contents(d0, n))
      ensures Covers(l, j, n) && Contents(store.disk, n) == Contents(d0, n)
    {
      var m := BlockCount(n.size);
      forall s: nat ensures SlotMapped(l, j, m, s) {
        assert SlotMapped(l0, j, m, s);
        assert Kept(l0, l, d0, store.disk, Slot(j, s));
      }
      forall x | x in l0 && x.i == j && x.s < MAXFILE
        ensures x in l && l[x] == l0[x] && (l0[x] < |d0| ==> store.disk[l0[x]] == d0[l0[x]])
      {
        assert Kept(l0, l, d0, store.disk, x);
      }
      BytesKept(d0, store.disk, l0, l, j, Contents(d0, n));
      ContentsAre(j, Contents(d0, n));
    }

    /** A change of metadata blocks only changes nobody's data. */
    lemma MetaOnly(d: Disk, i: nat, c: seq<Byte>)
      requires Valid() && |d| == |store.disk| && |c| <= MAXFILE * BSIZE && HasBytes(d, l, i, c)
      requires forall a | store.sb.nmeta <= a < |d| :: store.disk[a] == d[a]
      ensures OthersKept(l, l, d, store.disk, i) && HasBytes(store.disk, l, i, c)
    {
      forall x | x in l ensures store.sb.nmeta <= l[x] < |d| { SlotInRange(x); }
      BytesKept(d, store.disk, l, l, i, c);
    }

    /** writei's last step: record a larger size. */
    method Grow(ip: Inode, off: nat, ghost c: seq<Byte>)
      requires Valid() && Holds(ip) && off <= MAXFILE * BSIZE
      requires |c| == Max(ip.din.size, off) <= MAXFILE * BSIZE && HasBytes(store.disk, l, ip.inum, c)
      modifies this`nodes, ip, store`disk, store`writes, store`homes, store`inodes
      ensures Valid() && Holds(ip) && nodes == old(nodes)[ip.inum := ip.din]
      ensures ip.din == old(ip.din).(size := |c|)
      ensures store.inodes == if off > old(ip.din.size) then old(store.inodes)[ip.inum := ip.din] else old(store.inodes)
      ensures HasBytes(store.disk, l, ip.inum, c) && OthersKept(l, l, old(store.disk), store.disk, ip.inum)
      ensures ip.inum < store.sb.ninodes
      ensures store.homes == old(store.homes) + if off > old(ip.din.size) then {InodeBlock(store.sb, ip.inum)} else {}
    {
      if off > ip.din.size {
        UpdateInode(ip, ip.din.(size := off));
      }
      MetaOnly(old(store.disk), ip.inum, c);
    }

    /** writei */
    method Writei(ip: Inode, src: seq<Byte>, off: Word) returns (r: IoResult)
      requires AtRest() && Holds(ip) && |src| < 0x1_0000_0000
      modifies this, ip, store`disk, store`used, store`inodes, store`writes, store`homes
      ensures r.Error? <==> off > old(ip.din.size) || off + |src| > MAXFILE * BSIZE
      ensures r.Error? ==> unchanged(this) && unchanged(ip) && unchanged(store)
      ensures r.Panic? <==>
        && !r.Error?
        && |old(store.used)| + MoreSlots(old(ip.din.size), off + |src|) > store.sb.size
      ensures r.Done? ==>
        && r.n == |src|
        && AtRest() && Holds(ip)
        && |store.used| == |old(store.used)| + MoreSlots(old(ip.din.size), off + |src|)
        && ip.din == old(ip.din).(addrs := ip.din.addrs, size := Max(old(ip.din.size), off + |src|))
        && (off + |src| <= old(ip.din.size) ==> ip.din == old(ip.din))
        && Contents(store.disk, ip.din) == Splice(old(Contents(store.disk, ip.din)), off, src)
        && |nodes| == |old(nodes)| == store.sb.ninodes
        && Wrote(store.sb, old(Now()), Now(), ip.inum, off / BSIZE, EndBlock(off, |src|),
                 if off + |src| > old(ip.din.size) then {InodeBlock(store.sb, ip.inum)} else {})
        && forall j | 0 <= j < |nodes| && j != ip.inum ::
             nodes[j] == old(nodes)[j] && Contents(store.disk, nodes[j]) == old(Contents(store.disk, nodes[j]))
    {
      var n := |src|;
      assert Covers(l, ip.inum, nodes[ip.inum]);
      if off > ip.din.size || (off + n) % 0x1_0000_0000 < off {
        return Error;
      }
      if (off + n) % 0x1_0000_0000 > MAXFILE * BSIZE {
        return Error;
      }
      ghost var d0, l0, nodes0 := store.disk, l, nodes;
      ghost var c := Splice(Contents(d0, ip.din), off, src);
      AllHeld();
      var ok := WriteLoop(ip, src, off);
      if !ok {
        return Panic;
      }
      ghost var d1, l1, t1 := store.disk, l, Now();
      Grow(ip, if n > 0 then off + n else 0, c);
      ghost var meta := if off + n > old(ip.din.size) then {InodeBlock(store.sb, ip.inum)} else {};
      WroteInode(store.sb, old(Now()), t1, ip.inum, off / BSIZE, EndBlock(off, n), meta);
      OthersKeptTwice(l0, l1, l, d0, d1, store.disk, ip.inum);
      Settle(ip, c, l0, d0, nodes0);
      return Done(n);
    }

    /** Every file's bytes are in the blocks it owns. */
    lemma AllHeld()
      requires AtRest()
      ensures forall j | 0 <= j < |nodes| :: HasBytes(store.disk, l, j, Contents(store.disk, nodes[j]))
    {
      forall j | 0 <= j < |nodes| ensures HasBytes(store.disk, l, j, Contents(store.disk, nodes[j])) {
        assert Covers(l, j, nodes[j]);
        ContentsHeld(j);
      }
    }

    /** After an operation on `ip` alone everything is at rest again. */
    lemma Settle(ip: Inode, c: seq<Byte>, l0: Layout, d0: Disk, nodes0: seq<Node>)
      requires Valid() && Holds(ip) && pend == {} && store.inodes == nodes
      requires |c| == ip.din.size <= MAXFILE * BSIZE && HasBytes(store.disk, l, ip.inum, c)
      requires MapsUpTo(l, ip.inum, BlockCount(|c|))
      requires |nodes0| == |nodes| && nodes == nodes0[ip.inum := ip.din]
      requires OthersKept(l0, l, d0, store.disk, ip.inum)
      requires forall j {:trigger nodes0[j]} | 0 <= j < |nodes0| ::
                 Covers(l0, j, nodes0[j]) && HasBytes(d0, l0, j, Contents(d0, nodes0[j]))
      ensures AtRest() && Contents(store.disk, ip.din) == c
      ensures forall j | 0 <= j < |nodes| && j != ip.inum ::
                nodes[j] == nodes0[j] && Contents(store.disk, nodes[j]) == Contents(d0, nodes[j])
    {
      ContentsAre(ip.inum, c);
      forall j | 0 <= j < |nodes| && j != ip.inum
        ensures Covers(l, j, nodes[j]) && Contents(store.disk, nodes[j]) == Contents(d0, nodes[j])
      {
        OtherFile(j, ip.inum, l0, d0, nodes0[j]);
      }
    }

    /** One turn of readi's loop: the bytes come from a block that is mapped already. */
    method ReadChunk(ip: Inode, o: nat, m: nat) returns (x: seq<Byte>)
      requires AtRest() && Holds(ip) && o + m <= ip.din.size && 0 < m <= BSIZE - o % BSIZE
      modifies this, ip, store`disk, store`writes, store`homes, store`used
      ensures ip.din == old(ip.din) && nodes == old(nodes) && l == old(l) && pend == old(pend)
      ensures store.disk == old(store.disk) && store.used == old(store.used)
      ensures store.writes == old(store.writes) && store.homes == old(store.homes)
      ensures AtRest() && Holds(ip) && x == Contents(store.disk, ip.din)[o..o + m]
    {
      assert Covers(l, ip.inum, nodes[ip.inum]);
      ContentsHeld(ip.inum);
      BytesInBlock(store.disk, l, ip.inum, Contents(store.disk, ip.din), o, m);
      var a := Bmap(ip, o / BSIZE);
      x := store.disk[a.value][o % BSIZE..o % BSIZE + m];
    }

    /** readi. Nothing is ever allocated, so it is safe outside a transaction. */
    method Readi(ip: Inode, off: Word, n: Word) returns (r: IoResult, dst: seq<Byte>)
      requires AtRest() && Holds(ip)
      modifies this, ip, store`disk, store`writes, store`homes, store`used
      ensures ip.din == old(ip.din) && nodes == old(nodes) && l == old(l) && pend == old(pend)
      ensures store.disk == old(store.disk) && store.used == old(store.used)
      ensures store.writes == old(store.writes) && store.homes == old(store.homes)
      ensures AtRest() && Holds(ip)
      ensures r.Error? <==> off > ip.din.size || off + n >= 0x1_0000_0000
      ensures !r.Panic?
      ensures r.Done? ==>
        && r.n == (if off + n > ip.din.size then ip.din.size - off else n)
        && dst == Contents(store.disk, ip.din)[off..off + r.n]
    {
      dst := [];
      if off > ip.din.size || (off + n) % 0x1_0000_0000 < off {
        return Error, [];
      }
      var cnt := if off + n > ip.din.size then ip.din.size - off else n;
      ghost var c := Contents(store.disk, ip.din);
      var tot, o := 0, off;
      while tot < cnt
        invariant 0 <= tot <= cnt && o == off + tot
        invariant ip.din == old(ip.din) && nodes == old(nodes) && l == old(l) && pend == old(pend)
        invariant store.disk == old(store.disk) && store.used == old(store.used)
        invariant store.writes == old(store.writes) && store.homes == old(store.homes)
        invariant AtRest() && Holds(ip)
        invariant dst == c[off..o]
      {
        var m := if cnt - tot < BSIZE - o % BSIZE then cnt - tot else BSIZE - o % BSIZE;
        var x := ReadChunk(ip, o, m);
        dst := dst + x;
        assert c[off..o + m] == c[off..o] + c[o..o + m];
        tot, o := tot + m, o + m;
      }
      return Done(cnt), dst;
    }

    /** bfree of a pending block: never "freeing free block". */
    method Free(b: nat) returns (ok: bool)
      requires Valid() && b in pend
      modifies this`pend, store`disk, store`writes, store`homes, store`used
      ensures Valid() && ok && pend == old(pend) - {b} && OnlyBits(store.sb, old(store.homes), store.homes)
      ensures |store.disk| == |old(store.disk)|
      ensures forall a | store.sb.nmeta <= a < |store.disk| :: store.disk[a] == old(store.disk)[a]
    {
      assert Unfolded(0);
      ok := store.Bfree(b);
      FreeKeeps(store.sb, old(store.disk), nodes, old(store.used), l, pend, b, store.disk);
      pend := pend - {b};
    }

    /** One round of itrunc's first loop. */
    method FreeDirect(ip: Inode, s: nat) returns (ok: bool)
      requires Valid() && Holds(ip) && pend == {} && s < NDIRECT
      modifies this, ip, store`disk, store`writes, store`homes, store`used
      ensures Valid() && Holds(ip) && pend == {} && ok
      ensures ip.din == old(ip.din).(addrs := old(ip.din.addrs)[s := 0]) && nodes == old(nodes)[ip.inum := ip.din]
      ensures l == old(l) - {Slot(ip.inum, s)} && OnlyBits(store.sb, old(store.homes), store.homes)
      ensures |store.disk| == |old(store.disk)|
      ensures forall a | store.sb.nmeta <= a < |store.disk| :: store.disk[a] == old(store.disk)[a]
    {
      AddrIs(ip, s);
      var b := ip.din.addrs[s];
      if b == 0 {
        assert l - {Slot(ip.inum, s)} == l;
        assert ip.din.addrs[s := 0] == ip.din.addrs;
        return true;
      }
      assert Unfolded(0);
      ClearDirectKeeps(store.sb, store.disk, nodes, store.used, l, pend, ip.inum, s);
      ip.din := ip.din.(addrs := ip.din.addrs[s := 0]);
      nodes := nodes[ip.inum := ip.din];
      l := l - {Slot(ip.inum, s)};
      pend := {b};
      ok := Free(b);
    }

    /** itrunc's second part: the indirect block and all its entries. */
    method FreeIndirect(ip: Inode) returns (ok: bool)
      requires Valid() && Holds(ip) && pend == {}
      modifies this, ip, store`disk, store`writes, store`homes, store`used
      ensures Valid() && Holds(ip) && pend == {} && ok
      ensures ip.din == old(ip.din).(addrs := old(ip.din.addrs)[NDIRECT := 0]) && nodes == old(nodes)[ip.inum := ip.din]
      ensures l == old(l) - Upper(old(l), ip.inum) && OnlyBits(store.sb, old(store.homes), store.homes)
      ensures |store.disk| == |old(store.disk)|
      ensures forall a | store.sb.nmeta <= a < |store.disk| :: store.disk[a] == old(store.disk)[a]
    {
      ghost var l0 := l;
      LayoutIsInjective();
      forall s: nat | NDIRECT <= s < INDIRECT ensures Slot(ip.inum, s) in l ==> Slot(ip.inum, INDIRECT) in l {
        AddrIs(ip, s);
      }
      AddrIs(ip, INDIRECT);
      forall x | x in l ensures x.s <= INDIRECT { SlotInRange(x); }
      var ind := ip.din.addrs[NDIRECT];
      if ind == 0 {
        assert Upper(l, ip.inum) == {};
        assert ip.din.addrs[NDIRECT := 0] == ip.din.addrs;
        return true;
      }
      SlotInRange(Slot(ip.inum, INDIRECT));
      var a := store.disk[ind];
      forall s: nat | NDIRECT <= s < INDIRECT
        ensures WordAt(a, s - NDIRECT) == if Slot(ip.inum, s) in l then l[Slot(ip.inum, s)] else 0
        ensures Slot(ip.inum, s) in l ==> l[Slot(ip.inum, s)] > 0
      {
        AddrIs(ip, s);
      }
      DropIndirect(ip);
      var j := 0;
      while j < NINDIRECT
        invariant 0 <= j <= NINDIRECT
        invariant Valid() && pend == BlocksFrom(l0, ip.inum, NDIRECT + j)
        invariant ip.din == old(ip.din) && l == l0 - Upper(l0, ip.inum)
        invariant nodes == old(nodes)[ip.inum := old(ip.din).(addrs := old(ip.din.addrs)[NDIRECT := 0])]
        invariant OnlyBits(store.sb, old(store.homes), store.homes)
        invariant |store.disk| == |old(store.disk)|
        invariant forall a | store.sb.nmeta <= a < |store.disk| :: store.disk[a] == old(store.disk)[a]
      {
        BlocksFromNext(l0, ip.inum, NDIRECT + j);
        assert WordAt(a, NDIRECT + j - NDIRECT) == WordAt(a, j);
        if WordAt(a, j) != 0 {
          ok := Free(WordAt(a, j));
        }
        j := j + 1;
      }
      assert pend == {ind as nat};
      ok := Free(ind);
      ip.din := ip.din.(addrs := ip.din.addrs[NDIRECT := 0]);
    }

    /** Ghost half of clearing addrs[NDIRECT]: the blocks under it become pending. */
    ghost method DropIndirect(ip: Inode)
      requires Valid() && Holds(ip) && pend == {}
      modifies this
      ensures Valid() && l == old(l) - Upper(old(l), ip.inum) && pend == BlocksFrom(old(l), ip.inum, NDIRECT)
      ensures nodes == old(nodes)[ip.inum := ip.din.(addrs := ip.din.addrs[NDIRECT := 0])]
    {
      assert Unfolded(0);
      ClearIndirectKeeps(store.sb, store.disk, nodes, store.used, l, pend, ip.inum);
      pend := BlocksFrom(l, ip.inum, NDIRECT);
      assert pend == {} + (set x | x in Upper(l, ip.inum) :: l[x]);
      nodes := nodes[ip.inum := ip.din.(addrs := ip.din.addrs[NDIRECT := 0])];
      l := l - Upper(l, ip.inum);
    }

    /** The bitmap once the slots of inode `i` are gone. */
    lemma FreedBlocks(i: nat, used0: set<nat>, l0: Layout, d0: Disk, nodes0: seq<Node>)
      requires Valid() && pend == {} && Owned(store.sb, d0, nodes0, used0, l0, {}) && l == l0 - SlotsOf(l0, i)
      ensures store.used == used0 - BlocksFrom(l0, i, 0)
    {
      assert Unfolded(0);
      ValuesWithout(l0, SlotsOf(l0, i));
      assert BlocksFrom(l0, i, 0) == (set x | x in SlotsOf(l0, i) :: l0[x]);
      forall b: nat ensures b in store.used <==> b in used0 - BlocksFrom(l0, i, 0) {
        if b in BlocksFrom(l0, i, 0) {
          var x :| x in l0 && x.i == i && l0[x] == b;
        }
      }
    }

    lemma DroppedSlots(ip: Inode, l0: Layout, d0: Disk)
      requires Valid() && l == l0 - SlotsOf(l0, ip.inum) && |d0| == |store.disk|
      requires forall a | store.sb.nmeta <= a < |d0| :: store.disk[a] == d0[a]
      ensures OthersKept(l0, l, d0, store.disk, ip.inum) && MapsUpTo(l, ip.inum, 0)
    {
      forall x: Slot | x.i != ip.inum ensures Kept(l0, l, d0, store.disk, x) {
        if x in l { SlotInRange(x); }
      }
    }

    /** itrunc: gives back exactly the inode's blocks, once each; it never panics. */
    method Itrunc(ip: Inode) returns (ok: bool)
      requires AtRest() && Holds(ip)
      modifies this, ip, store`disk, store`used, store`inodes, store`writes, store`homes
      ensures ok
      ensures AtRest() && Holds(ip) && |nodes| == |old(nodes)|
      ensures ip.din == old(ip.din).(addrs := seq(NDIRECT + 1, _ => 0), size := 0)
      ensures l == old(l) - SlotsOf(old(l), ip.inum)
      ensures store.used == old(store.used) - BlocksFrom(old(l), ip.inum, 0)
      ensures ip.inum < store.sb.ninodes
      ensures OnlyBits(store.sb, old(store.homes) + {InodeBlock(store.sb, ip.inum)}, store.homes)
      ensures forall j | 0 <= j < |nodes| && j != ip.inum ::
                nodes[j] == old(nodes)[j] && Contents(store.disk, nodes[j]) == old(Contents(store.disk, nodes[j]))
    {
      ghost var d0, l0, nodes0, used0 := store.disk, l, nodes, store.used;
      AllHeld();
      assert Unfolded(0);
      FreeAllDirect(ip);
      ok := FreeIndirect(ip);
      AllDropped(l0, l, ip.inum);
      UpdateInode(ip, ip.din.(size := 0));
      assert ip.din.addrs == seq(NDIRECT + 1, _ => 0);
      DroppedSlots(ip, l0, d0);
      FreedBlocks(ip.inum, used0, l0, d0, nodes0);
      Settle(ip, [], l0, d0, nodes0);
    }

    /** itrunc's first loop. */
    method FreeAllDirect(ip: Inode)
      requires Valid() && Holds(ip) && pend == {}
      modifies this, ip, store`disk, store`writes, store`homes, store`used
      ensures Valid() && Holds(ip) && pend == {}
      ensures ip.din == old(ip.din).(addrs := ip.din.addrs) && nodes == old(nodes)[ip.inum := ip.din]
      ensures forall k | 0 <= k < NDIRECT :: ip.din.addrs[k] == 0
      ensures l == old(l) - DirectSlots(old(l), ip.inum, NDIRECT)
      ensures OnlyBits(store.sb, old(store.homes), store.homes)
      ensures |store.disk| == |old(store.disk)|
      ensures forall a | store.sb.nmeta <= a < |store.disk| :: store.disk[a] == old(store.disk)[a]
    {
      var i := 0;
      while i < NDIRECT
        invariant 0 <= i <= NDIRECT
        invariant Valid() && Holds(ip) && pend == {}
        invariant ip.din == old(ip.din).(addrs := ip.din.addrs) && nodes == old(nodes)[ip.inum := ip.din]
        invariant forall k | 0 <= k < i :: ip.din.addrs[k] == 0
        invariant l == old(l) - DirectSlots(old(l), ip.inum, i)
        invariant OnlyBits(store.sb, old(store.homes), store.homes)
        invariant |store.disk| == |old(store.disk)|
        invariant forall a | store.sb.nmeta <= a < |store.disk| :: store.disk[a] == old(store.disk)[a]
      {
        var ok := FreeDirect(ip, i);
        DirectSlotsNext(old(l), ip.inum, i);
        i := i + 1;
      }
    }
  }
}
