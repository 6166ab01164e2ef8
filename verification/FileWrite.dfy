/** filewrite of file.c, which writes a file in one transaction for each chunk, and the number of blocks
    that a transaction of it logs. */
module FileWrite {
  import opened Params
  import opened Blocks
  import opened FsFormat
  import opened FsStore
  import opened Owner
  import opened Footprint
  import opened Files
  import Bio
  import Crash
  import Log
  import Mkfs
  import Reservation

  // ---------- how many blocks are logged ----------

  /** The bitmap blocks of the slots that `l` has and `l0` has not. */
  ghost function Bits(sb: Super, l0: Layout, l: Layout): set<nat> {
    set x | x in l && x !in l0 :: MapBlock(sb, l[x])
  }

  /** The indirect block, if a slot past the direct ones was filled. */
  ghost function Indirects(l0: Layout, l: Layout, i: nat): (r: set<nat>)
    ensures |r| <= 1
  {
    if Slot(i, INDIRECT) in l && exists x :: x in l && x !in l0 && x.s >= NDIRECT then {l[Slot(i, INDIRECT)]} else {}
  }

  ghost function DataBlocks(l: Layout, i: nat, lo: nat, hi: nat): set<nat> {
    set s: nat | lo <= s < hi && Slot(i, s) in l :: l[Slot(i, s)]
  }

  lemma {:induction false} DataCount(l: Layout, i: nat, lo: nat, hi: nat)
    requires Injective(l) && lo <= hi && forall s: nat | lo <= s < hi :: Slot(i, s) in l
    ensures |DataBlocks(l, i, lo, hi)| == hi - lo
    decreases hi
  {
    if lo < hi {
      DataCount(l, i, lo, hi - 1);
      assert DataBlocks(l, i, lo, hi) == DataBlocks(l, i, lo, hi - 1) + {l[Slot(i, hi - 1)]};
      assert l[Slot(i, hi - 1)] !in DataBlocks(l, i, lo, hi - 1);
    }
  }

  /** What filling slots logs, by kind. */
  lemma FillsByKind(sb: Super, l0: Layout, l: Layout, i: nat, lo: nat, hi: nat, a: nat)
    requires Gained(l0, l, i, lo, hi)
    ensures Fills(sb, l0, l, i, a) ==> DataOf(l, i, lo, hi, a) || a in Bits(sb, l0, l) || a in Indirects(l0, l, i)
    ensures a in Bits(sb, l0, l) || a in Indirects(l0, l, i) ==> Fills(sb, l0, l, i, a)
  {
    if x :| x in l && x !in l0 && LogsFor(sb, l, i, x, a) {
      assert x == Slot(i, x.s);
    }
    if x :| x in l && x !in l0 && MapBlock(sb, l[x]) == a {
      assert LogsFor(sb, l, i, x, a);
    }
    if a in Indirects(l0, l, i) {
      var x :| x in l && x !in l0 && x.s >= NDIRECT;
      assert LogsFor(sb, l, i, x, a);
    }
  }

  lemma DataIs(l: Layout, i: nat, lo: nat, hi: nat, a: nat)
    ensures a in DataBlocks(l, i, lo, hi) <==> DataOf(l, i, lo, hi, a)
  {
  }

  lemma KindAt(sb: Super, t0: Track, t: Track, i: nat, lo: nat, hi: nat, meta: set<nat>, a: nat)
    requires Wrote(sb, t0, t, i, lo, hi, meta) && t0.h == {}
    ensures a in t.h <==>
      a in DataBlocks(t.l, i, lo, hi) || a in meta || a in Bits(sb, t0.l, t.l) || a in Indirects(t0.l, t.l, i)
  {
    assert GainedAt(t0, t, i, lo, hi, 0);
    assert WroteAt(sb, t0, t, i, lo, hi, meta, a);
    FillsByKind(sb, t0.l, t.l, i, lo, hi, a);
    DataIs(t.l, i, lo, hi, a);
  }

  lemma Union(h: set<nat>, data: set<nat>, meta: set<nat>, bits: set<nat>, ind: set<nat>)
    requires forall a: nat :: a in h <==> a in data || a in meta || a in bits || a in ind
    ensures h == data + meta + bits + ind
  {
  }

  /** All that a write has logged, by kind. */
  lemma ByKind(sb: Super, t0: Track, t: Track, i: nat, lo: nat, hi: nat, meta: set<nat>)
    requires Wrote(sb, t0, t, i, lo, hi, meta) && t0.h == {}
    ensures t.h == DataBlocks(t.l, i, lo, hi) + meta + Bits(sb, t0.l, t.l) + Indirects(t0.l, t.l, i)
  {
    var data, bits, ind := DataBlocks(t.l, i, lo, hi), Bits(sb, t0.l, t.l), Indirects(t0.l, t.l, i);
    forall a: nat ensures a in t.h <==> a in data || a in meta || a in bits || a in ind {
      KindAt(sb, t0, t, i, lo, hi, meta, a);
    }
    Union(t.h, data, meta, bits, ind);
  }

  lemma Sum(a: set<nat>, b: set<nat>)
    requires a !! b
    ensures |a + b| == |a| + |b|
  {
  }

  lemma SumOfFour(h: set<nat>, data: set<nat>, meta: set<nat>, bits: set<nat>, ind: set<nat>,
                  lo: nat, hi: nat, size: nat)
    requires h == data + meta + bits + ind && data !! ind && lo <= hi <= size
    requires forall a | a in meta :: a < lo
    requires forall a | a in bits :: lo <= a < hi
    requires forall a | a in data :: hi <= a < size
    requires forall a | a in ind :: hi <= a < size
    ensures |h| == |data| + |meta| + |bits| + |ind|
    ensures forall a | a in h :: (a in meta || lo <= a) && a < size
  {
    Sum(data, meta);
    Sum(data + meta, bits);
    Sum(data + meta + bits, ind);
  }

  lemma BitsInside(sb: Super, l0: Layout, l: Layout, a: nat)
    requires a in Bits(sb, l0, l) && forall x | x in l :: l[x] < sb.size
    ensures sb.bmapstart <= a <= sb.bmapstart + (sb.size - 1) / BPB
  {
    var x :| x in l && x !in l0 && MapBlock(sb, l[x]) == a;
    assert l[x] / BPB <= (sb.size - 1) / BPB;
  }

  lemma DataApart(l: Layout, i: nat, l0: Layout, lo: nat, hi: nat)
    requires Injective(l) && hi <= INDIRECT
    ensures DataBlocks(l, i, lo, hi) !! Indirects(l0, l, i)
  {
  }

  /** The kinds are disjoint, so their numbers add up. */
  lemma LoggedCount(sb: Super, t0: Track, t: Track, i: nat, lo: nat, hi: nat, meta: set<nat>)
    requires Wrote(sb, t0, t, i, lo, hi, meta) && t0.h == {} && lo <= hi <= INDIRECT
    requires Injective(t.l) && forall x | x in t.l :: sb.nmeta <= t.l[x] < sb.size
    requires 0 < sb.nmeta <= sb.size && sb.bmapstart + (sb.size - 1) / BPB < sb.nmeta
    requires forall a | a in meta :: a < sb.bmapstart
    ensures |t.h| == hi - lo + |meta| + |Bits(sb, t0.l, t.l)| + |Indirects(t0.l, t.l, i)|
    ensures forall a | a in t.h :: (a in meta || sb.bmapstart <= a) && a < sb.size
  {
    var data, bits, ind := DataBlocks(t.l, i, lo, hi), Bits(sb, t0.l, t.l), Indirects(t0.l, t.l, i);
    KindRanges(sb, t0, t, i, lo, hi);
    assert |data| == hi - lo by {
      assert GainedAt(t0, t, i, lo, hi, 0);
      DataCount(t.l, i, lo, hi);
    }
    DataApart(t.l, i, t0.l, lo, hi);
    ByKind(sb, t0, t, i, lo, hi, meta);
    SumOfFour(t.h, data, meta, bits, ind, sb.bmapstart, sb.nmeta, sb.size);
  }

  /** Where the blocks of each kind lie. */
  lemma KindRanges(sb: Super, t0: Track, t: Track, i: nat, lo: nat, hi: nat)
    requires forall x | x in t.l :: sb.nmeta <= t.l[x] < sb.size
    requires sb.bmapstart + (sb.size - 1) / BPB < sb.nmeta
    ensures forall a | a in DataBlocks(t.l, i, lo, hi) :: sb.nmeta <= a < sb.size
    ensures forall a | a in Bits(sb, t0.l, t.l) :: sb.bmapstart <= a < sb.nmeta
    ensures forall a | a in Indirects(t0.l, t.l, i) :: sb.nmeta <= a < sb.size
  {
    forall a | a in Bits(sb, t0.l, t.l) ensures sb.bmapstart <= a < sb.nmeta { BitsInside(sb, t0.l, t.l, a); }
  }

  /** The number of blocks that writing `n` bytes at offset `off` of a file of `size` bytes logs, on a disk
      with one bitmap block: the data blocks, the inode if the file grows, the bitmap if it takes more
      blocks, and the indirect block if one of those is past the direct ones. */
  function OpBlocks(size: nat, off: nat, n: nat): int {
    EndBlock(off, n) - off / BSIZE
      + (if off + n > size then 1 else 0)
      + (if BlockCount(off + n) > BlockCount(size) then 1 else 0)
      + (if BlockCount(off + n) > Max(NDIRECT, BlockCount(size)) then 1 else 0)
  }

  /** `c` is OpBlocks(size, off, n). Folded (see Bio.Bcache.Valid). */
  ghost predicate Counts(size: nat, off: nat, n: nat, c: int) {
    forall k: nat {:trigger CountsAt(size, off, n, c, k)} :: CountsAt(size, off, n, c, k)
  }

  ghost predicate CountsAt(size: nat, off: nat, n: nat, c: int, k: nat) { c == OpBlocks(size, off, n) }

  lemma NewSlots(l0: Layout, l: Layout, i: nat, m0: nat, m: nat, lo: nat, hi: nat)
    requires MapsUpTo(l0, i, m0) && MapsUpTo(l, i, m) && m0 <= m && Gained(l0, l, i, lo, hi) && hi <= INDIRECT
    ensures (exists x :: x in l && x !in l0) <==> m > m0
    ensures |Indirects(l0, l, i)| == if m > Max(NDIRECT, m0) then 1 else 0
  {
    assert SlotMapped(l0, i, m0, m0) && SlotMapped(l, i, m, m0);
    assert m > m0 ==> Slot(i, m0) in l && Slot(i, m0) !in l0;
    var k := Max(NDIRECT, m0);
    assert SlotMapped(l0, i, m0, k) && SlotMapped(l, i, m, k) && SlotMapped(l, i, m, INDIRECT);
    assert m > k ==> Slot(i, k) in l && Slot(i, k) !in l0;
    forall x | x in l && x !in l0 ensures m > m0 && (x.s >= NDIRECT ==> m > k) {
      assert SlotMapped(l0, i, m0, x.s) && SlotMapped(l, i, m, x.s);
      assert SlotMapped(l0, i, m0, INDIRECT);
      assert x == Slot(i, x.s);
    }
  }

  lemma OneBitmapBlock(sb: Super, l0: Layout, l: Layout)
    requires sb.size <= BPB && forall x | x in l :: l[x] < sb.size
    ensures |Bits(sb, l0, l)| == if exists x :: x in l && x !in l0 then 1 else 0
    ensures forall b | b in Bits(sb, l0, l) :: b == sb.bmapstart
  {
    var bits := Bits(sb, l0, l);
    assert forall b | b in bits :: b == sb.bmapstart;
    if x :| x in l && x !in l0 {
      assert MapBlock(sb, l[x]) == sb.bmapstart;
      assert bits == {sb.bmapstart};
    } else {
      assert bits == {};
    }
  }

  lemma CountIs(sb: Super, t0: Track, t: Track, i: nat, size: nat, off: nat, n: nat, meta: set<nat>)
    requires Wrote(sb, t0, t, i, off / BSIZE, EndBlock(off, n), meta) && t0.h == {}
    requires off <= size && off + n <= MAXFILE * BSIZE
    requires Injective(t.l) && forall x | x in t.l :: sb.nmeta <= t.l[x] < sb.size
    requires 0 < sb.nmeta <= sb.size <= BPB && sb.bmapstart < sb.nmeta && forall a | a in meta :: a < sb.bmapstart
    requires |meta| == if off + n > size then 1 else 0
    requires MapsUpTo(t0.l, i, BlockCount(size)) && MapsUpTo(t.l, i, BlockCount(Max(size, off + n)))
    ensures Counts(size, off, n, |t.h|)
    ensures forall a | a in t.h :: (a in meta || sb.bmapstart <= a) && a < sb.size
  {
    var lo, hi := off / BSIZE, EndBlock(off, n);
    BlockCountMonotone(size, Max(size, off + n));
    assert GainedAt(t0, t, i, lo, hi, 0);
    LoggedCount(sb, t0, t, i, lo, hi, meta);
    NewSlots(t0.l, t.l, i, BlockCount(size), BlockCount(Max(size, off + n)), lo, hi);
    OneBitmapBlock(sb, t0.l, t.l);
    BlockCountMonotone(off + n, size);
    var c := |t.h|;
    forall k: nat ensures CountsAt(size, off, n, c, k) {}
  }

  /** The data blocks logged are all of inode `i`, and at most two others are. */
  ghost predicate Owns(l: Layout, i: nat, h: set<nat>, nmeta: nat) {
    && (forall a | a in h && a >= nmeta :: Has(l, i, a))
    && |Low(h, nmeta)| <= 2
  }

  ghost predicate Has(l: Layout, i: nat, a: nat) {
    exists s: nat :: Slot(i, s) in l && l[Slot(i, s)] == a
  }

  lemma OneOwner(l1: Layout, l: Layout, i: nat, j: nat, a: nat)
    requires Injective(l) && Submap(l1, l)
    ensures Has(l1, i, a) && Has(l, j, a) ==> i == j
  {
    if Has(l1, i, a) && Has(l, j, a) {
      var s: nat :| Slot(i, s) in l1 && l1[Slot(i, s)] == a;
      assert l[Slot(i, s)] == a;
    }
  }

  ghost function Low(h: set<nat>, nmeta: nat): set<nat> {
    set a | a in h && a < nmeta
  }

  lemma OwnsFrom(l: Layout, i: nat, data: set<nat>, meta: set<nat>, bits: set<nat>, ind: set<nat>, nmeta: nat)
    requires forall a | a in data || a in ind :: Has(l, i, a) && a >= nmeta
    requires forall a | a in meta || a in bits :: a < nmeta
    requires |meta| <= 1 && |bits| <= 1
    ensures Owns(l, i, data + meta + bits + ind, nmeta)
  {
    var low := Low(data + meta + bits + ind, nmeta);
    assert low == meta + bits;
    assert |meta + bits| <= |meta| + |bits|;
  }

  lemma WriteOwns(sb: Super, t0: Track, t: Track, i: nat, lo: nat, hi: nat, meta: set<nat>)
    requires Wrote(sb, t0, t, i, lo, hi, meta) && t0.h == {}
    requires (forall x | x in t.l :: sb.nmeta <= t.l[x] < sb.size) && sb.size <= BPB && sb.bmapstart < sb.nmeta
    requires |meta| <= 1 && forall a | a in meta :: a < sb.nmeta
    ensures Owns(t.l, i, t.h, sb.nmeta)
  {
    ByKind(sb, t0, t, i, lo, hi, meta);
    OneBitmapBlock(sb, t0.l, t.l);
    var data, bits, ind := DataBlocks(t.l, i, lo, hi), Bits(sb, t0.l, t.l), Indirects(t0.l, t.l, i);
    forall a | a in data || a in ind ensures Has(t.l, i, a) && a >= sb.nmeta {
      InData(t.l, i, lo, hi, t0.l, sb.nmeta, a);
    }
    OwnsFrom(t.l, i, data, meta, bits, ind, sb.nmeta);
  }

  lemma InData(l: Layout, i: nat, lo: nat, hi: nat, l0: Layout, nmeta: nat, a: nat)
    requires (a in DataBlocks(l, i, lo, hi) || a in Indirects(l0, l, i)) && forall x | x in l :: nmeta <= l[x]
    ensures Has(l, i, a) && a >= nmeta
  {
  }

  /** Two writes to different files have at most two blocks in common. */
  lemma TwoWrites(l1: Layout, l: Layout, i: nat, j: nat, h1: set<nat>, h2: set<nat>, nmeta: nat)
    requires Owns(l1, i, h1, nmeta) && Owns(l, j, h2, nmeta) && Submap(l1, l) && Injective(l) && i != j
    ensures |h1 + h2| >= |h1| + |h2| - 2
  {
    forall a | a in h1 && a in h2 ensures a < nmeta {
      OneOwner(l1, l, i, j, a);
    }
    Bio.Subset(h1 * h2, Low(h1, nmeta));
  }

  // ---------- one transaction of filewrite ----------

  /** The bitmap is one block, as on every disk that mkfs makes. */
  ghost predicate Small(files: Files) { files.store.sb.size <= BPB }

  lemma LayoutFacts(files: Files)
    requires files.Valid()
    ensures Injective(files.l) && forall x | x in files.l :: files.store.sb.nmeta <= files.l[x] < files.store.sb.size
    ensures var sb := files.store.sb;
      && 0 < sb.nmeta <= sb.size <= |files.store.disk| && sb.bmapstart < sb.nmeta && 0 < sb.ninodes
      && sb.inodestart + (sb.ninodes - 1) / IPB < sb.bmapstart
  {
    assert files.Unfolded(0) && files.store.Unfolded(0);
  }

  /** Every file but that of inode `i` is as it was. */
  ghost predicate SameFiles(d0: Disk, nodes0: seq<Node>, d: Disk, nodes: seq<Node>, i: nat) {
    |nodes| == |nodes0| && forall j: nat {:trigger SameFile(d0, nodes0, d, nodes, j)} | j < |nodes| && j != i ::
      SameFile(d0, nodes0, d, nodes, j)
  }

  ghost predicate SameFile(d0: Disk, nodes0: seq<Node>, d: Disk, nodes: seq<Node>, j: nat)
    requires j < |nodes| == |nodes0|
  {
    nodes[j] == nodes0[j] && Contents(d, nodes[j]) == Contents(d0, nodes0[j])
  }

  lemma SameFilesTwice(d0: Disk, nodes0: seq<Node>, d1: Disk, nodes1: seq<Node>, d: Disk, nodes: seq<Node>, i: nat)
    requires SameFiles(d0, nodes0, d1, nodes1, i) && SameFiles(d1, nodes1, d, nodes, i)
    ensures SameFiles(d0, nodes0, d, nodes, i)
  {
    forall j: nat | j < |nodes| && j != i ensures SameFile(d0, nodes0, d, nodes, j) {
      assert SameFile(d0, nodes0, d1, nodes1, j) && SameFile(d1, nodes1, d, nodes, j);
    }
  }

  /** begin_op and writei. What is logged makes the new disk of the old one, and is OpBlocks blocks. */
  method WriteOp(files: Files, ip: Inode, src: seq<Byte>, off: Word) returns (r: IoResult, ghost more: int)
    requires files.AtRest() && files.Holds(ip) && |src| < 0x1_0000_0000 && Small(files)
    modifies files, ip, files.store
    ensures r.Error? <==> off > old(ip.din.size) || off + |src| > MAXFILE * BSIZE
    ensures r.Error? ==> files.AtRest() && unchanged(files) && unchanged(ip)
    ensures r.Error? ==> files.store.disk == old(files.store.disk) && files.store.used == old(files.store.used)
    ensures r.Error? ==> files.store.writes == []
    ensures Gains(old(ip.din.size), off + |src|, more)
    ensures r.Panic? <==> !r.Error? && |old(files.store.used)| + more > files.store.sb.size
    ensures r.Done? ==>
      && r.n == |src| && files.AtRest() && files.Holds(ip)
      && |files.store.used| == |old(files.store.used)| + more
      && ip.din == old(ip.din).(addrs := ip.din.addrs, size := Max(old(ip.din.size), off + |src|))
      && Contents(files.store.disk, ip.din) == Splice(old(Contents(files.store.disk, ip.din)), off, src)
      && files.store.disk == Bio.Apply(old(files.store.disk), files.store.writes)
      && files.store.Recorded() && files.store.base == old(files.store.disk)
      && Counts(old(ip.din.size), off, |src|, |Bio.Addrs(files.store.writes)|)
      && (forall w | w in files.store.writes :: files.store.sb.inodestart <= w.a < files.store.sb.size)
      && Submap(old(files.l), files.l) && Owns(files.l, ip.inum, Bio.Addrs(files.store.writes), files.store.sb.nmeta)
      && SameFiles(old(files.store.disk), old(files.nodes), files.store.disk, files.nodes, ip.inum)
  {
    ghost var size := ip.din.size;
    more := GainsOf(size, off + |src|);
    assert Covers(files.l, ip.inum, files.nodes[ip.inum]);
    files.Begin();
    r := files.Writei(ip, src, off);
    if r.Done? {
      LayoutFacts(files);
      var sb := files.store.sb;
      ghost var meta := if off + |src| > size then {InodeBlock(sb, ip.inum)} else {};
      assert Covers(files.l, ip.inum, files.nodes[ip.inum]);
      assert files.store.RecordedAt(0);
      ghost var t0, t := Track({}, old(files.l)), files.Now();
      CountIs(sb, t0, t, ip.inum, size, off, |src|, meta);
      WriteOwns(sb, t0, t, ip.inum, off / BSIZE, EndBlock(off, |src|), meta);
      assert GainedAt(t0, t, ip.inum, off / BSIZE, EndBlock(off, |src|), 0);
    }
  }

  lemma {:induction false} IntervalCount(h: set<nat>, lo: nat, hi: nat)
    requires lo <= hi && forall a | a in h :: lo <= a < hi
    ensures |h| <= hi - lo
    decreases hi
  {
    if lo < hi {
      IntervalCount(h - {hi - 1}, lo, hi - 1);
    } else {
      assert h == {};
    }
  }

  lemma BitsCount(sb: Super, h: set<nat>, inode: nat)
    requires OnlyBits(sb, {inode}, h)
    ensures |h| <= 1 + BitsEnd(sb) - sb.bmapstart
  {
    IntervalCount(h - {inode}, sb.bmapstart, BitsEnd(sb));
    assert h == h - {inode} + {inode};
  }

  /** begin_op and itrunc: it logs the inode's block and, at most, the bitmap. */
  method TruncOp(files: Files, ip: Inode)
    requires files.AtRest() && files.Holds(ip)
    modifies files, ip, files.store
    ensures files.AtRest() && files.Holds(ip) && Contents(files.store.disk, ip.din) == []
    ensures ip.din == old(ip.din).(addrs := seq(NDIRECT + 1, _ => 0), size := 0)
    ensures files.store.used == old(files.store.used) - BlocksFrom(old(files.l), ip.inum, 0)
    ensures SameFiles(old(files.store.disk), old(files.nodes), files.store.disk, files.nodes, ip.inum)
    ensures files.store.disk == Bio.Apply(old(files.store.disk), files.store.writes)
    ensures |Bio.Addrs(files.store.writes)| <= 1 + BitsEnd(files.store.sb) - files.store.sb.bmapstart
  {
    files.Begin();
    var ok := files.Itrunc(ip);
    LayoutFacts(files);
    assert files.store.RecordedAt(0);
    ghost var inode: nat := InodeBlock(files.store.sb, ip.inum);
    assert {} + {inode} == {inode};
    BitsCount(files.store.sb, files.store.homes, inode);
  }

  // ---------- filewrite ----------

  /** filewrite's `max`. */
  const CHUNK: nat := 6656

  const LIMIT: nat := MAXFILE * BSIZE

  /** struct file, for an inode. */
  class File {
    const ip: Inode
    var off: nat

    constructor (ip: Inode)
      ensures this.ip == ip && off == 0
    {
      this.ip, off := ip, 0;
    }
  }

  function Piece(n: nat, i: nat): nat
    requires i <= n
  {
    if n - i > CHUNK then CHUNK else n - i
  }

  /** How much filewrite gets done: all of it, or the whole chunks that fit the largest file. */
  function Written(size: nat, off: nat, n: nat): nat {
    if off > size || off > LIMIT then 0
    else if off + n <= LIMIT then n
    else (LIMIT - off) / CHUNK * CHUNK
  }

  lemma WholeChunks(i: nat, d: nat)
    requires i % CHUNK == 0 && i <= d
    ensures d < i + CHUNK ==> d / CHUNK * CHUNK == i
    ensures i + CHUNK <= d ==> i + CHUNK <= d / CHUNK * CHUNK
  {
    var q, m := i / CHUNK, d / CHUNK;
    assert i == q * 6656;
    assert m * 6656 <= d < m * 6656 + 6656;
  }

  /** A chunk is the last one, or is whole; and it is written if it fits. */
  lemma PieceFits(size: nat, off: nat, n: nat, i: nat)
    requires off <= size <= LIMIT && i % CHUNK == 0 && i < n && off + i <= LIMIT
    ensures var j := i + Piece(n, i);
      && (off + j > LIMIT ==> Written(size, off, n) == i)
      && (off + j <= LIMIT ==> j <= Written(size, off, n) && (j < n ==> j == i + CHUNK))
  {
    WholeChunks(i, LIMIT - off);
  }

  lemma WrittenAtMost(size: nat, off: nat, n: nat)
    ensures Written(size, off, n) <= n && (off <= size <= LIMIT ==> off + Written(size, off, n) <= LIMIT)
  {
  }

  lemma GainsAddUp(size: nat, a: nat, k: int, b: nat, k': int)
    requires a <= b && Gains(size, a, k) && Gains(Max(size, a), b, k')
    ensures Gains(size, b, k + k') && k >= 0 && k' >= 0
  {
    assert GainsIs(size, a, k, 0) && GainsIs(Max(size, a), b, k', 0);
    BlockCountMonotone(size, Max(size, a));
    BlockCountMonotone(Max(size, a), Max(size, b));
    var all := k + k';
    forall q: nat ensures GainsIs(size, b, all, q) {}
  }

  lemma SpliceOn(c: seq<Byte>, off: nat, src: seq<Byte>, i: nat, j: nat)
    requires off <= |c| && i <= j <= |src|
    ensures off + i <= |Splice(c, off, src[..i])|
    ensures Splice(Splice(c, off, src[..i]), off + i, src[i..j]) == Splice(c, off, src[..j])
  {
    SpliceMore(c, off, src[..i], src[i..j]);
    assert src[..i] + src[i..j] == src[..j];
  }

  /** Where a filewrite began: the file's size and bytes, and the offset. */
  datatype Start = Start(size: nat, c: seq<Byte>, off: nat)

  /** After `i` bytes of `src`: the file's size, its bytes, the offset and the blocks gained. Folded (see
      Bio.Bcache.Valid). */
  ghost predicate Progress(s: Start, src: seq<Byte>, i: nat, size: nat, c: seq<Byte>, off: nat, more: int) {
    forall k: nat {:trigger ProgressAt(s, src, i, size, c, off, more, k)} ::
      ProgressAt(s, src, i, size, c, off, more, k)
  }

  ghost predicate ProgressAt(s: Start, src: seq<Byte>, i: nat, size: nat, c: seq<Byte>, off: nat, more: int, k: nat) {
    && i <= |src| && off == s.off + i && (i == 0 || (s.off <= s.size && off <= LIMIT))
    && |s.c| == s.size <= LIMIT && size == Max(s.size, if i == 0 then 0 else off)
    && c == (if s.off <= s.size then Splice(s.c, s.off, src[..i]) else s.c)
    && (if s.off <= s.size then Gains(s.size, off, more) else more == 0)
  }

  lemma ProgressStart(s: Start, src: seq<Byte>)
    requires |s.c| == s.size <= LIMIT
    ensures Progress(s, src, 0, s.size, s.c, s.off, 0)
  {
    assert s.off <= s.size ==> Splice(s.c, s.off, src[..0]) == s.c;
    var more := GainsOf(s.size, s.off);
    forall k: nat ensures ProgressAt(s, src, 0, s.size, s.c, s.off, 0, k) {}
  }

  /** Another transaction, up to byte `j`, which gains `m` blocks. */
  lemma ProgressNext(s: Start, src: seq<Byte>, i: nat, size: nat, c: seq<Byte>, off: nat, more: int, j: nat, m: int)
    requires Progress(s, src, i, size, c, off, more)
    requires i < j <= |src| && off <= size && s.off + j <= LIMIT && off <= |c|
    requires Gains(size, s.off + j, m)
    ensures Progress(s, src, j, Max(size, s.off + j), Splice(c, off, src[i..j]), s.off + j, more + m)
  {
    assert ProgressAt(s, src, i, size, c, off, more, 0);
    SpliceOn(s.c, s.off, src, i, j);
    GainsAddUp(s.size, off, more, s.off + j, m);
    var size', c', off', more' := Max(size, s.off + j), Splice(c, off, src[i..j]), s.off + j, more + m;
    forall k: nat ensures ProgressAt(s, src, j, size', c', off', more', k) {}
  }

  lemma ProgressSays(s: Start, src: seq<Byte>, i: nat, size: nat, c: seq<Byte>, off: nat, more: int, n: nat, m: int)
    requires Progress(s, src, i, size, c, off, more) && Gains(size, off + n, m)
    ensures off == s.off + i && (off > size <==> s.off > s.size) && i <= |src|
    ensures off <= size ==> size == Max(s.size, s.off + i) <= LIMIT && Gains(s.size, s.off + i + n, more + m)
  {
    assert ProgressAt(s, src, i, size, c, off, more, 0);
    if off <= size { GainsAddUp(s.size, off, more, off + n, m); }
  }

  /** The k-th transaction logs `logged` blocks. */
  ghost predicate LogsChunk(s: Start, n: nat, k: nat, logged: int) {
    var i := k * CHUNK;
    i <= n && Counts(Max(s.size, s.off + i), s.off + i, Piece(n, i), logged)
  }

  /** One turn of filewrite's loop: a transaction. */
  method WriteChunk(files: Files, f: File, src: seq<Byte>, i: nat, ghost s: Start, ghost more: int)
    returns (r: IoResult, ghost more': int, ghost logged: int)
    requires files.AtRest() && files.Holds(f.ip) && Small(files)
    requires |src| < 0x8000_0000 && i < |src| && f.off < 0x1_0000_0000
    requires Progress(s, src, i, f.ip.din.size, Contents(files.store.disk, f.ip.din), f.off, more)
    modifies f, files, f.ip, files.store
    ensures r.Error? <==> s.off > s.size || s.off + i + Piece(|src|, i) > LIMIT
    ensures s.off <= s.size ==> Gains(s.size, s.off + i + Piece(|src|, i), more')
    ensures r.Panic? <==> !r.Error? && |old(files.store.used)| + (more' - more) > files.store.sb.size
    ensures !r.Panic? ==> files.AtRest() && files.Holds(f.ip)
    ensures !r.Panic? ==> SameFiles(old(files.store.disk), old(files.nodes), files.store.disk, files.nodes, f.ip.inum)
    ensures r.Error? ==>
      && |files.store.used| == |old(files.store.used)|
      && Progress(s, src, i, f.ip.din.size, Contents(files.store.disk, f.ip.din), f.off, more)
    ensures r.Done? ==>
      && r.n == Piece(|src|, i) && f.off < 0x1_0000_0000
      && |files.store.used| == |old(files.store.used)| + (more' - more)
      && Progress(s, src, i + r.n, f.ip.din.size, Contents(files.store.disk, f.ip.din), f.off, more')
      && logged == |Bio.Addrs(files.store.writes)| && Counts(Max(s.size, s.off + i), s.off + i, r.n, logged)
  {
    ghost var size, c, off := f.ip.din.size, Contents(files.store.disk, f.ip.din), f.off;
    var n1 := Piece(|src|, i);
    ghost var m;
    r, m := WriteOp(files, f.ip, src[i..i + n1], f.off);
    ProgressSays(s, src, i, size, c, off, more, n1, m);
    more', logged := more + m, |Bio.Addrs(files.store.writes)|;
    if r.Done? {
      f.off := f.off + r.n;
      ProgressNext(s, src, i, size, c, off, more, i + n1, m);
    }
  }

  /** What a filewrite of `src` comes to, in a file system with `used` of `all` blocks taken. */
  ghost predicate Outcome(s: Start, src: seq<Byte>, used: nat, all: nat, r: IoResult, c: seq<Byte>, off: nat)
    requires |s.c| == s.size
  {
    var w := Written(s.size, s.off, |src|);
    && (r.Panic? <==> s.off <= s.size && used + MoreSlots(s.size, s.off + w) > all)
    && (!r.Panic? ==>
          && r == (if w == |src| then Done(|src|) else Error) && off == s.off + w
          && c == if s.off <= s.size then Splice(s.c, s.off, src[..w]) else s.c)
  }

  lemma OutcomePanic(s: Start, src: seq<Byte>, used: nat, all: nat, j: nat, more: int, c: seq<Byte>, off: nat)
    requires |s.c| == s.size && s.off <= s.size && j <= Written(s.size, s.off, |src|)
    requires Gains(s.size, s.off + j, more) && used + more > all
    ensures Outcome(s, src, used, all, Panic, c, off)
  {
    var end := s.off + Written(s.size, s.off, |src|);
    var k := GainsOf(s.size, end);
    GainsMonotone(s.size, s.off + j, more, end, k);
  }

  lemma OutcomeEnd(s: Start, src: seq<Byte>, used: nat, all: nat, i: nat, more: int, size: nat, c: seq<Byte>, off: nat)
    requires Progress(s, src, i, size, c, off, more) && i == Written(s.size, s.off, |src|)
    requires used + more <= all && |s.c| == s.size
    ensures Outcome(s, src, used, all, if i == |src| then Done(|src|) else Error, c, off)
  {
    assert ProgressAt(s, src, i, size, c, off, more, 0);
    if s.off <= s.size { assert GainsIs(s.size, off, more, 0); }
  }

  /** filewrite; `logged` counts the blocks that each of its transactions logs. */
  method Filewrite(files: Files, f: File, src: seq<Byte>) returns (r: IoResult, ghost logged: seq<int>)
    requires files.AtRest() && files.Holds(f.ip) && |src| < 0x8000_0000 && f.off < 0x1_0000_0000 && Small(files)
    modifies f, files, f.ip, files.store
    ensures var s := Start(old(f.ip.din.size), old(Contents(files.store.disk, f.ip.din)), old(f.off));
      && Outcome(s, src, |old(files.store.used)|, files.store.sb.size, r, Contents(files.store.disk, f.ip.din), f.off)
      && forall k: nat | k < |logged| :: LogsChunk(s, |src|, k, logged[k])
    ensures !r.Panic? ==>
      && files.AtRest() && files.Holds(f.ip)
      && Written(old(f.ip.din.size), old(f.off), |src|) <= |logged| * CHUNK
      && SameFiles(old(files.store.disk), old(files.nodes), files.store.disk, files.nodes, f.ip.inum)
  {
    var n, i := |src|, 0;
    logged := [];
    assert Covers(files.l, f.ip.inum, files.nodes[f.ip.inum]);
    ghost var s := Start(f.ip.din.size, Contents(files.store.disk, f.ip.din), f.off);
    ghost var used, more, q := |files.store.used|, 0, 0;
    assert SameFiles(files.store.disk, files.nodes, files.store.disk, files.nodes, f.ip.inum);
    UsedFits(files.store.used, files.store.sb.size);
    ProgressStart(s, src);
    WrittenAtMost(s.size, s.off, n);
    while i < n
      invariant i <= n && (i < n ==> i == q * CHUNK) && i <= |logged| * CHUNK && |logged| == q
      invariant i <= Written(s.size, s.off, n)
      invariant files.AtRest() && files.Holds(f.ip) && f.off < 0x1_0000_0000
      invariant Progress(s, src, i, f.ip.din.size, Contents(files.store.disk, f.ip.din), f.off, more)
      invariant |files.store.used| == used + more <= files.store.sb.size
      invariant SameFiles(old(files.store.disk), old(files.nodes), files.store.disk, files.nodes, f.ip.inum)
      invariant forall k: nat | k < |logged| :: LogsChunk(s, n, k, logged[k])
      decreases n - i
    {
      if s.off <= s.size { PieceFits(s.size, s.off, n, i); }
      ghost var more0, count, d1, nodes1 := more, 0, files.store.disk, files.nodes;
      r, more, count := WriteChunk(files, f, src, i, s, more0);
      if r.Panic? {
        ghost var c := Contents(files.store.disk, f.ip.din);
        OutcomePanic(s, src, used, files.store.sb.size, i + Piece(n, i), more, c, f.off);
        return;
      }
      SameFilesTwice(old(files.store.disk), old(files.nodes), d1, nodes1, files.store.disk, files.nodes, f.ip.inum);
      if r.Error? {
        more := more0;
        break;
      }
      assert LogsChunk(s, n, q, count);
      logged, q := logged + [count], q + 1;
      i := i + r.n;
    }
    OutcomeEnd(s, src, used, files.store.sb.size, i, more, f.ip.din.size, Contents(files.store.disk, f.ip.din), f.off);
    r := if i == n then Done(n) else Error;
  }

  // ---------- a chunk and the allowance of a call ----------

  /** A write of n bytes keeps to MAXOPBLOCKS wherever it goes, exactly up to six blocks and a byte.
      filewrite's chunks are thirteen blocks. */
  lemma KeepsIff(n: nat)
    requires n <= LIMIT
    ensures (forall size: nat, off: nat | off <= size && off + n <= LIMIT ::
               OpBlocks(size, off, n) <= Reservation.MAXOPBLOCKS) <==> n <= 6 * BSIZE + 1
  {
    if n <= 6 * BSIZE + 1 {
      forall size: nat, off: nat | off <= size && off + n <= LIMIT
        ensures OpBlocks(size, off, n) <= Reservation.MAXOPBLOCKS
      {
        assert EndBlock(off, n) - off / BSIZE <= 7;
      }
    } else {
      var off: nat := if n <= CHUNK then NDIRECT * BSIZE - 1 else 0;
      assert EndBlock(off, n) - off / BSIZE >= if n <= CHUNK then 8 else 11;
      assert OpBlocks(off, off, n) >= 11 && off + n <= LIMIT;
    }
  }

  /** A whole chunk logs up to 17 blocks, and 11 already where it overwrites 11 blocks in place. */
  lemma ChunkOverruns()
    ensures CHUNK == (Crash.LOGSIZE - 1 - 1 - 2) / 2 * 512 == 13 * BSIZE
    ensures OpBlocks(11 * BSIZE, 0, 11 * BSIZE) == 11 && 11 * BSIZE <= CHUNK
    ensures OpBlocks(NDIRECT * BSIZE - 1, NDIRECT * BSIZE - 1, CHUNK) == 17
    ensures forall size: nat, off: nat, n: nat | n <= CHUNK :: OpBlocks(size, off, n) <= 17
  {
    forall size: nat, off: nat, n: nat | n <= CHUNK ensures OpBlocks(size, off, n) <= 17 {
      assert EndBlock(off, n) - off / BSIZE <= 14;
    }
  }

  // ---------- a write through the log ----------

  lemma {:induction false} SameAfterAll(g: Crash.Geometry, d: Disk, e: Disk, us: seq<Bio.Write>)
    requires Log.SameOutside(g, d, e)
    ensures Log.SameOutside(g, Bio.Apply(d, us), Bio.Apply(e, us))
    decreases |us|
  {
    if us != [] {
      var w := us[0];
      var d', e' := if w.a < |d| then d[w.a := w.data] else d, if w.a < |e| then e[w.a := w.data] else e;
      SameAfterAll(g, d', e', us[1..]);
    }
  }

  /** The file system is what the log's disk holds, outside the log region, which lies below the inodes. */
  ghost predicate Mounted(log: Log.Log, files: Files)
    reads log, log.cache, files.store`disk
  {
    && log.Ready() && log.View() == Reservation.INIT && log.outstanding == 0 && log.readers == {}
    && log.g.start + log.g.size <= files.store.sb.inodestart
    && Log.SameOutside(log.g, log.cache.disk, files.store.disk)
  }

  /** So it is when the kernel has booted from an image that mkfs made. */
  method Boot(img: Mkfs.Image) returns (log: Log.Log, files: Files)
    requires img.Finished() && |img.data[Mkfs.ROOTINO]| % BSIZE != 0
    ensures fresh(log) && fresh(log.cache) && fresh(files) && fresh(files.store)
    ensures Mounted(log, files) && files.AtRest() && Small(files) && Reservation.MAXOPBLOCKS + 1 < log.g.size
    ensures files.store.disk == img.disk && files.nodes == img.table
  {
    log := Mkfs.Boot(img);
    files := Mkfs.Mount(img);
  }

  /** The transaction's blocks have been committed: the log wrote exactly a commit's, and cut off anywhere the
      disk recovers to the old file system or to the new one. */
  ghost predicate Atomic(g: Crash.Geometry, d: Disk, us: seq<Bio.Write>, ws0: seq<Bio.Write>, ws: seq<Bio.Write>,
                         homes: seq<Word>, after: Disk)
  {
    var l := Bio.Apply(d, us);
    && Log.SameOutside(g, l, after) && Log.AllOrNothing(d, l, g, homes)
    && ws == ws0 + Crash.CommitWrites(d, l, g, homes)
  }

  /** What a call has logged since begin_op, on a file system that was `d` then, goes through the log. */
  method Through(log: Log.Log, files: Files, ghost d: Disk) returns (u: Log.UpdateResult, ghost homes: seq<Word>)
    requires log.Ready() && log.View() == Reservation.INIT && log.outstanding == 0 && log.readers == {}
    requires log.g.start + log.g.size <= files.store.sb.inodestart && Log.SameOutside(log.g, log.cache.disk, d)
    requires files.store.Recorded() && files.store.base == d
    requires |Bio.Addrs(files.store.writes)| <= Reservation.MAXOPBLOCKS && Reservation.MAXOPBLOCKS + 1 < log.g.size
    modifies log`lh, log`outstanding, log`committing, log`ops, log.cache
    ensures u.Updated? && Mounted(log, files)
    ensures Atomic(log.g, old(log.cache.disk), files.store.writes, old(log.cache.writes), log.cache.writes, homes,
                   files.store.disk)
  {
    assert files.store.RecordedAt(0);
    SameAfterAll(log.g, log.cache.disk, d, files.store.writes);
    u, homes := log.Transaction(files.store.writes);
  }

  /** A write in a transaction of its own that keeps to MAXOPBLOCKS: it ends with the new file system on the
      disk, and wherever the machine stops on the way, it recovers to the old one or the new one. */
  method LoggedWrite(log: Log.Log, files: Files, ip: Inode, src: seq<Byte>, off: Word)
    returns (r: IoResult, u: Log.UpdateResult, ghost homes: seq<Word>)
    requires files.AtRest() && files.Holds(ip) && |src| < 0x1_0000_0000 && Small(files)
    requires Mounted(log, files) && Reservation.MAXOPBLOCKS + 1 < log.g.size
    requires OpBlocks(ip.din.size, off, |src|) <= Reservation.MAXOPBLOCKS
    requires {log, log.cache} !! {files, ip, files.store}
    modifies files, ip, files.store, log`lh, log`outstanding, log`committing, log`ops, log.cache
    ensures r.Error? <==> off > old(ip.din.size) || off + |src| > MAXFILE * BSIZE
    ensures r.Panic? <==>
      !r.Error? && |old(files.store.used)| + MoreSlots(old(ip.din.size), off + |src|) > files.store.sb.size
    ensures !r.Done? ==> unchanged(log) && unchanged(log.cache)
    ensures r.Done? ==>
      && u.Updated? && files.AtRest() && files.Holds(ip) && Mounted(log, files)
      && Contents(files.store.disk, ip.din) == Splice(old(Contents(files.store.disk, ip.din)), off, src)
    ensures r.Done? ==>
      Atomic(log.g, old(log.cache.disk), files.store.writes, old(log.cache.writes), log.cache.writes, homes,
             files.store.disk)
  {
    ghost var d, size, more := files.store.disk, ip.din.size, 0;
    r, more := WriteOp(files, ip, src, off);
    u, homes := Log.Panicked, [];
    assert GainsIs(size, off + |src|, more, 0);
    if r.Done? {
      assert CountsAt(size, off, |src|, |Bio.Addrs(files.store.writes)|, 0);
      u, homes := Through(log, files, d);
    }
  }

  // ---------- two chunks are more than the log holds ----------

  lemma NotYet(lh: seq<Word>, us: seq<Bio.Write>, n: nat)
    requires Log.Spent(lh, us, n) && |lh| < |Bio.Addrs(us)|
    ensures n < |us|
  {
    assert Log.SpentAt(lh, us, n, 0);
    assert us[..|us|] == us;
  }

  /** Updates of more than LOGSIZE blocks before the next commit panic the kernel, whatever the log region. */
  method Overrun(log: Log.Log, us: seq<Bio.Write>) returns (u: Log.UpdateResult)
    requires log.Ready() && |log.ops| == log.outstanding > 0 && log.readers == {} && log.lh == []
    requires |Bio.Addrs(us)| > Crash.LOGSIZE && forall w | w in us :: w.a < |log.cache.disk| && !log.g.InLog(w.a)
    modifies log`lh, log`ops, log.cache
    ensures u.Panicked? && (|log.lh| >= Crash.LOGSIZE || |log.lh| + 1 >= log.g.size)
    ensures log.cache.writes == old(log.cache.writes)
  {
    var n := 0;
    assert us[..0] == [];
    while true
      invariant log.Ready() && |log.ops| == log.outstanding > 0 && log.cache.disk == old(log.cache.disk)
      invariant log.cache.writes == old(log.cache.writes)
      invariant n < |us| && Log.Spent(log.lh, us, n) && |log.lh| <= Crash.LOGSIZE
      decreases |us| - n
    {
      u := OneMore(log, us, n);
      if u.Panicked? {
        return;
      }
      n := n + 1;
    }
  }

  method OneMore(log: Log.Log, us: seq<Bio.Write>, n: nat) returns (u: Log.UpdateResult)
    requires log.Ready() && |log.ops| == log.outstanding > 0 && log.readers == {}
    requires |Bio.Addrs(us)| > Crash.LOGSIZE && forall w | w in us :: w.a < |log.cache.disk| && !log.g.InLog(w.a)
    requires n < |us| && Log.Spent(log.lh, us, n) && |log.lh| <= Crash.LOGSIZE
    modifies log`lh, log`ops, log.cache
    ensures log.cache.writes == old(log.cache.writes) && log.cache.disk == old(log.cache.disk) && !u.Waits?
    ensures u.Panicked? ==> |log.lh| >= Crash.LOGSIZE || |log.lh| + 1 >= log.g.size
    ensures u.Updated? ==>
      && log.Ready() && |log.ops| == log.outstanding && n + 1 < |us| && Log.Spent(log.lh, us, n + 1)
      && |log.lh| <= Crash.LOGSIZE
  {
    assert us[n] in us;
    Log.SpentNext(log.lh, us, n);
    u := log.Update(us[n].a, us[n].data, 0);
    if u.Updated? { NotYet(log.lh, us, n + 1); }
  }

  method TwoCalls(log: Log.Log)
    requires log.Ready() && log.View() == Reservation.INIT && log.outstanding == 0
    modifies log`outstanding, log`ops
    ensures log.Ready() && |log.ops| == log.outstanding == 2 && log.lh == []
  {
    Reservation.FirstBegins(log.g.size);
    var first := log.BeginOp();
    ghost var v := log.View();
    assert Reservation.Next(log.g.size, v, Reservation.Begin,
                            v.(ops := v.ops + [Reservation.Op(Reservation.MAXOPBLOCKS, false)]));
    var second := log.BeginOp();
  }

  /** A chunk for each of two files that end just before their direct blocks do. */
  method TwoChunks(files: Files, ip: Inode, jp: Inode, src: seq<Byte>) returns (us: seq<Bio.Write>)
    requires files.AtRest() && files.Holds(ip) && files.Holds(jp) && ip != jp && ip.inum != jp.inum && Small(files)
    requires ip.din.size == jp.din.size == NDIRECT * BSIZE - 1 && |src| == CHUNK
    requires |files.store.used| + 2 * MoreSlots(NDIRECT * BSIZE - 1, NDIRECT * BSIZE - 1 + CHUNK) <= files.store.sb.size
    modifies files, ip, jp, files.store
    ensures |Bio.Addrs(us)| >= 32 && forall w | w in us :: files.store.sb.inodestart <= w.a < files.store.sb.size
  {
    var off: Word := NDIRECT * BSIZE - 1;
    ghost var more;
    var r;
    r, more := WriteOp(files, ip, src, off);
    assert GainsIs(off, off + |src|, more, 0);
    assert SameFile(old(files.store.disk), old(files.nodes), files.store.disk, files.nodes, jp.inum);
    us := files.store.writes;
    ghost var l1 := files.l;
    r, more := WriteOp(files, jp, src, off);
    assert GainsIs(off, off + |src|, more, 0);
    var vs := files.store.writes;
    FullChunks(us, vs);
    LayoutFacts(files);
    TwoWrites(l1, files.l, ip.inum, jp.inum, Bio.Addrs(us), Bio.Addrs(vs), files.store.sb.nmeta);
    Bio.AddrsConcat(us, vs);
    us := us + vs;
  }

  lemma FullChunks(us: seq<Bio.Write>, vs: seq<Bio.Write>)
    requires var off: nat := NDIRECT * BSIZE - 1;
      Counts(off, off, CHUNK, |Bio.Addrs(us)|) && Counts(off, off, CHUNK, |Bio.Addrs(vs)|)
    ensures |Bio.Addrs(us)| == |Bio.Addrs(vs)| == 17
  {
    ChunkOverruns();
    var off: nat := NDIRECT * BSIZE - 1;
    assert CountsAt(off, off, CHUNK, |Bio.Addrs(us)|, 0) && CountsAt(off, off, CHUNK, |Bio.Addrs(vs)|, 0);
  }

  /** Two filewrites of one chunk each: both pass begin_op, and before either leaves, the kernel panics. */
  method TwoFilewrites(log: Log.Log, files: Files, ip: Inode, jp: Inode, src: seq<Byte>) returns (u: Log.UpdateResult)
    requires files.AtRest() && files.Holds(ip) && files.Holds(jp) && ip != jp && ip.inum != jp.inum && Small(files)
    requires Mounted(log, files)
    requires ip.din.size == jp.din.size == NDIRECT * BSIZE - 1 && |src| == CHUNK
    requires |files.store.used| + 2 * MoreSlots(NDIRECT * BSIZE - 1, NDIRECT * BSIZE - 1 + CHUNK) <= files.store.sb.size
    requires {log, log.cache} !! {files, ip, jp, files.store}
    modifies files, ip, jp, files.store, log`lh, log`outstanding, log`ops, log.cache
    ensures u.Panicked? && log.outstanding == 2 && log.cache.writes == old(log.cache.writes)
    ensures |log.lh| >= Crash.LOGSIZE || |log.lh| + 1 >= log.g.size
  {
    TwoCalls(log);
    LayoutFacts(files);
    var us := TwoChunks(files, ip, jp, src);
    u := Overrun(log, us);
  }
}
