/** mkfs.c: the program that writes a file-system image, from the same format as fs.c but by code of
    its own: blocks are handed out in order, and the bitmap is written once at the end. */
module Mkfs {
  import opened Params
  import opened Blocks
  import opened FsFormat
  import opened FsStore
  import opened Owner
  import opened Files
  import Bio
  import Crash
  import Log
  import Reservation

  const NINODES: nat := 200
  const NLOG: nat := 30
  const NINODEBLOCKS: nat := NINODES / IPB + 1
  const NBITMAP: nat := FSSIZE / BPB + 1
  const NMETA: nat := 2 + NLOG + NINODEBLOCKS + NBITMAP
  const ROOTINO: nat := 1

  /** The superblock mkfs writes: boot, super, log, inode and bitmap blocks, then data. */
  const SB: Super := Super(FSSIZE, NMETA, NINODES, 2 + NLOG, 2 + NLOG + NINODEBLOCKS)

  ghost predicate AllZero(b: Block) {
    forall k | 0 <= k < BSIZE :: b[k] == 0
  }

  lemma NoEntriesInZero(b: Block)
    requires AllZero(b)
    ensures NoEntries(b)
  {
    assert b == ZERO_BLOCK;
    forall k: nat | k < NINDIRECT ensures WordAt(b, k) == 0 { ZeroWords(k); }
  }

  ghost function Below(n: nat): (s: set<nat>)
    ensures forall b: nat :: b in s <==> b < n
  {
    if n == 0 then {} else Below(n - 1) + {n - 1}
  }

  /** The blocks from `fb` on have not been handed out and are as they were written first. */
  ghost predicate FreeZero(d: Disk, fb: nat) {
    forall b | fb <= b < |d| :: AllZero(d[b])
  }

  const SUPER_WORDS: seq<Word> := [FSSIZE, FSSIZE - NMETA, NINODES, NLOG, 2, SB.inodestart, SB.bmapstart]

  /** readsb, of the file system and of the log, reads back what main stores into block 1. */
  lemma SuperBlockSays(b: Block)
    ensures var sb := PutWords(b, 0, SUPER_WORDS); SuperOf(sb) == SB && Log.LogOf(sb) == Crash.Geometry(2, NLOG)
  {
    var sb := PutWords(b, 0, SUPER_WORDS);
    forall j: nat | j < |SUPER_WORDS| ensures WordAt(sb, j) == SUPER_WORDS[j] {
      WordAfterPut(b, 0, SUPER_WORDS, j);
    }
  }

  ghost predicate FrontAt(super: Block, head: Block, k: nat) {
    SuperOf(super) == SB && Log.LogOf(super) == Crash.Geometry(2, NLOG) && Crash.HeaderCount(head) == 0
  }

  /** The superblock, and a log that is empty. Folded; see Bio.Bcache.Valid. */
  ghost predicate Front(super: Block, head: Block) {
    forall k: nat {:trigger FrontAt(super, head, k)} :: FrontAt(super, head, k)
  }

  /** A machine that boots finds the log where the superblock says, with nothing to recover. */
  lemma NothingToRecover(d: Disk)
    requires |d| == FSSIZE && Front(d[1], d[2])
    ensures SuperIs(d[1], SB) && Log.LogOf(d[1]) == Crash.Geometry(2, NLOG)
    ensures Crash.GoodLog(d, Crash.Geometry(2, NLOG)) && Crash.HeaderCount(d[2]) == 0
  {
    assert FrontAt(d[1], d[2], 0);
  }

  lemma ZeroHead(super: Block, head: Block)
    requires SuperOf(super) == SB && Log.LogOf(super) == Crash.Geometry(2, NLOG) && AllZero(head)
    ensures Front(super, head)
  {
    assert head == ZERO_BLOCK;
    ZeroWords(0);
  }

  /** The superblock, over zeroes. */
  method SuperBlock(ghost head: Block) returns (b: Block)
    requires AllZero(head)
    ensures Front(b, head)
  {
    b := PutWords(ZERO_BLOCK, 0, SUPER_WORDS);
    SuperBlockSays(ZERO_BLOCK);
    ZeroHead(b, head);
  }

  /** main's first writes: zeroes everywhere, then the superblock into block 1. */
  method Zeroed() returns (d: Disk)
    ensures |d| == FSSIZE && Front(d[1], d[2]) && forall b | 2 <= b < FSSIZE :: AllZero(d[b])
  {
    d := seq(FSSIZE, _ => ZERO_BLOCK);
    var buf := SuperBlock(d[2]);
    d := d[1 := buf];
  }

  ghost predicate Table(d: Disk, table: seq<Node>) {
    && SB.Fits(d) && |table| == NINODES
    && forall i: nat | i < NINODES :: NodeAt(d, SB, i) == table[i]
  }

  lemma SuperFits(d: Disk)
    requires |d| == FSSIZE
    ensures SB.Fits(d)
  {
  }

  lemma TableStays(d: Disk, d': Disk, table: seq<Node>)
    requires Table(d, table) && |d'| == |d| && forall a | SB.inodestart <= a < SB.bmapstart :: d'[a] == d[a]
    ensures Table(d', table)
  {
    forall i: nat | i < NINODES ensures NodeAt(d', SB, i) == table[i] { NodeOutside(d, d', SB, i); }
  }

  /** Block `b`, the first free one, goes into an entry of the indirect block. */
  lemma EntryFilled(d: Disk, nodes: seq<Node>, table: seq<Node>, l: Layout, b: nat, i: nat, s: nat)
    returns (ind: nat, d': Disk)
    requires Owned(SB, d, nodes, Below(b), l, {}) && FreeZero(d, b) && Table(d, table)
    requires NMETA <= b < FSSIZE == |d| && i < |nodes| && NDIRECT <= s < INDIRECT
    requires Slot(i, s) !in l && Slot(i, INDIRECT) in l
    ensures NMETA <= ind == l[Slot(i, INDIRECT)] < b && d' == d[ind := WithWord(d[ind], s - NDIRECT, b)]
    ensures
      && Owned(SB, d', nodes, Below(b + 1), l[Slot(i, s) := b], {})
      && FreeZero(d', b + 1) && Table(d', table) && SameData(d, d', l, i) && AllZero(d'[b])
      && d'[1] == d[1] && d'[2] == d[2]
  {
    ind := l[Slot(i, INDIRECT)];
    AllocKeeps(SB, d, nodes, Below(b), l, {}, b, d);
    assert Below(b) + {b} == Below(b + 1) && {b} - {b} == {} && {} + {b} == {b};
    EntryKeeps(SB, d, nodes, Below(b + 1), l, {b}, i, s, b);
    assert ind in l.Values;
    var blk := WithWord(d[ind], s - NDIRECT, b);
    IndirectAlone(d, l, i, blk);
    d' := d[ind := blk];
    TableStays(d, d', table);
  }

  // --- a file is the bytes appended to it, and zeroes up to the end of its last block ---

  ghost function Zeros(n: nat): (z: seq<Byte>)
    ensures |z| == n && forall k | 0 <= k < n :: z[k] == 0
  {
    if n == 0 then [] else Zeros(n - 1) + [0]
  }

  ghost function Padded(data: seq<Byte>): (c: seq<Byte>)
    ensures |c| == BlockCount(|data|) * BSIZE && data <= c
  {
    data + Zeros(BlockCount(|data|) * BSIZE - |data|)
  }

  ghost predicate FileOk(d: Disk, l: Layout, i: nat, data: seq<Byte>) {
    && |data| <= MAXFILE * BSIZE
    && MapsUpTo(l, i, BlockCount(|data|))
    && HasBytes(d, l, i, Padded(data))
  }

  lemma BlockCountBound(n: nat)
    requires n <= MAXFILE * BSIZE
    ensures BlockCount(n) <= MAXFILE && BlockCount(n) * BSIZE <= MAXFILE * BSIZE
  {
  }

  /** Where the next byte goes: into the last block, or right after it. */
  lemma NextBlock(n: nat)
    ensures n % BSIZE == 0 ==> n / BSIZE == BlockCount(n) && n == BlockCount(n) * BSIZE
    ensures n % BSIZE != 0 ==> n / BSIZE + 1 == BlockCount(n)
  {
  }

  lemma NewBlockZero(d: Disk, l: Layout, i: nat, c: seq<Byte>, m: nat)
    requires HasBytes(d, l, i, c) && |c| == m * BSIZE && Slot(i, m) in l
    requires l[Slot(i, m)] < |d| && AllZero(d[l[Slot(i, m)]])
    ensures HasBytes(d, l, i, c + Zeros(BSIZE))
  {
    var c' := c + Zeros(BSIZE);
    forall k | 0 <= k < |c'| ensures HasByte(d, l, i, k, c'[k]) {
      if k < |c| {
        assert HasByte(d, l, i, k, c[k]);
      } else {
        InBlock(k, m);
      }
    }
  }

  lemma InBlock(k: nat, m: nat)
    requires m * BSIZE <= k < (m + 1) * BSIZE
    ensures k / BSIZE == m
  {
  }

  lemma SplicePads(data: seq<Byte>, c: seq<Byte>, x: seq<Byte>)
    requires data <= c && |data| + |x| <= |c| == BlockCount(|data| + |x|) * BSIZE
    requires forall k | |data| <= k < |c| :: c[k] == 0
    ensures Splice(c, |data|, x) == Padded(data + x)
  {
    var s, t := Splice(c, |data|, x), Padded(data + x);
    assert |s| == |t|;
    forall k | 0 <= k < |s| ensures s[k] == t[k] {}
  }

  /** The bytes of file `i`, after the block for the next one was handed out if need be. */
  lemma WithBlock(d0: Disk, l0: Layout, d: Disk, l: Layout, i: nat, data: seq<Byte>, fbn: nat) returns (c: seq<Byte>)
    requires FileOk(d0, l0, i, data) && fbn == |data| / BSIZE < MAXFILE
    requires Extends(l0, l, i, fbn) && SameData(d0, d, l0, i)
    requires l[Slot(i, fbn)] < |d| && (Slot(i, fbn) in l0 || AllZero(d[l[Slot(i, fbn)]]))
    ensures HasBytes(d, l, i, c) && data <= c && |c| == (fbn + 1) * BSIZE && forall k | |data| <= k < |c| :: c[k] == 0
    ensures MapsUpTo(l, i, fbn + 1)
  {
    var m, pad := BlockCount(|data|), Padded(data);
    BlockCountBound(|data|);
    NextBlock(|data|);
    MapsFurther(l0, l, i, m, fbn);
    BytesKept(d0, d, l0, l, i, pad);
    assert SlotMapped(l0, i, m, fbn);
    if fbn < m {
      c := pad;
    } else {
      NewBlockZero(d, l, i, pad, m);
      c := pad + Zeros(BSIZE);
    }
  }

  /** One chunk more in file `i`. */
  lemma Appended(d0: Disk, l0: Layout, d: Disk, l: Layout, i: nat, data: seq<Byte>, x: seq<Byte>)
    requires FileOk(d0, l0, i, data) && 0 < |x| <= BSIZE - |data| % BSIZE && |data| + |x| <= MAXFILE * BSIZE
    requires Extends(l0, l, i, |data| / BSIZE) && SameData(d0, d, l0, i) && Injective(l)
    requires l[Slot(i, |data| / BSIZE)] < |d|
    requires Slot(i, |data| / BSIZE) in l0 || AllZero(d[l[Slot(i, |data| / BSIZE)]])
    ensures var a := l[Slot(i, |data| / BSIZE)]; FileOk(d[a := Patch(d[a], |data| % BSIZE, x)], l, i, data + x)
  {
    ChunkBlocks(|data|, |data|, |x|);
    NextBlock(|data|);
    var c := WithBlock(d0, l0, d, l, i, data, |data| / BSIZE);
    ChunkWritten(d, l, i, c, |data|, x);
    SplicePads(data, c, x);
  }

  /** The other files are as they were. */
  lemma OtherOk(d0: Disk, l0: Layout, d: Disk, l: Layout, i: nat, bn: nat, b: Block, j: nat, data: seq<Byte>)
    requires FileOk(d0, l0, j, data) && j != i && Extends(l0, l, i, bn) && SameData(d0, d, l0, i) && Injective(l)
    requires bn <= INDIRECT && l[Slot(i, bn)] < |d|
    ensures FileOk(d[l[Slot(i, bn)] := b], l, j, data)
  {
    var a := l[Slot(i, bn)];
    var d', m := d[a := b], BlockCount(|data|);
    forall s: nat ensures SlotMapped(l, j, m, s) { assert SlotMapped(l0, j, m, s); }
    BlockCountBound(|data|);
    forall x | x in l0 && x.i == j && x.s < MAXFILE
      ensures x in l && l[x] == l0[x] && (l0[x] < |d0| ==> d'[l0[x]] == d0[l0[x]])
    {
      if l[x] == a { assert x == Slot(i, bn); }
    }
    BytesKept(d0, d', l0, l, j, Padded(data));
  }

  ghost predicate AllFiles(d: Disk, l: Layout, data: seq<seq<Byte>>) {
    forall i: nat {:trigger FileOk(d, l, i, data[i])} | i < |data| :: FileOk(d, l, i, data[i])
  }

  lemma GainsStep(size: nat, o: nat, k: int, end: nat, k': int)
    requires size <= o <= end && Gains(size, o, k) && Gains(size, end, k')
    ensures Gains(o, end, k' - k)
  {
    assert GainsIs(size, o, k, 0) && GainsIs(size, end, k', 0);
    var g := k' - k;
    forall q: nat ensures GainsIs(o, end, g, q) {}
  }

  lemma ChunkLacks(l: Layout, i: nat, off: nat, n: nat, k: int)
    requires MapsUpTo(l, i, BlockCount(off)) && 0 < n <= BSIZE - off % BSIZE && off + n <= MAXFILE * BSIZE
    requires Gains(off, off + n, k)
    ensures off / BSIZE < MAXFILE && Lacking(l, i, off / BSIZE) == k
  {
    assert GainsIs(off, off + n, k, 0);
    ChunkBlocks(off, off, n);
    LackingIs(l, i, BlockCount(off), off / BSIZE);
  }

  lemma ChunkStep(d0: Disk, l0: Layout, d: Disk, l: Layout, i: nat, data: seq<seq<Byte>>, chunk: seq<Byte>,
                  a: nat, d': Disk, data': seq<seq<Byte>>)
    requires AllFiles(d0, l0, data) && i < |data|
    requires 0 < |chunk| <= BSIZE - |data[i]| % BSIZE && |data[i]| + |chunk| <= MAXFILE * BSIZE
    requires Extends(l0, l, i, |data[i]| / BSIZE) && SameData(d0, d, l0, i) && Injective(l)
    requires a == l[Slot(i, |data[i]| / BSIZE)] && a < |d|
    requires Slot(i, |data[i]| / BSIZE) in l0 || AllZero(d[a])
    requires d' == d[a := Patch(d[a], |data[i]| % BSIZE, chunk)] && data' == data[i := data[i] + chunk]
    ensures AllFiles(d', l, data')
  {
    assert FileOk(d0, l0, i, data[i]);
    Appended(d0, l0, d, l, i, data[i], chunk);
    var bn := |data[i]| / BSIZE;
    assert bn < MAXFILE;
    forall j: nat | j < |data'| ensures FileOk(d', l, j, data'[j]) {
      if j != i {
        assert FileOk(d0, l0, j, data[j]);
        OtherOk(d0, l0, d, l, i, bn, d'[a], j, data[j]);
      }
    }
  }

  ghost predicate NoAddrs(n: Node) {
    forall k | 0 <= k < |n.addrs| :: n.addrs[k] == 0
  }

  lemma WordsFromAt(b: Block, w: nat, n: nat, k: nat)
    requires w + n <= WORDS && k < n
    ensures WordsFrom(b, w, n)[k] == WordAt(b, w + k)
  {
  }

  lemma ZeroWordsFrom(b: Block, w: nat)
    requires AllZero(b) && w + NODEWORDS <= WORDS
    ensures forall k | 0 <= k < NODEWORDS :: WordsFrom(b, w, NODEWORDS)[k] == 0
  {
    NoEntriesInZero(b);
    var ws := WordsFrom(b, w, NODEWORDS);
    forall k: nat | k < NODEWORDS ensures ws[k] == 0 {
      WordsFromAt(b, w, NODEWORDS, k);
    }
  }

  lemma FromZeroWords(ws: seq<Word>)
    requires |ws| == NODEWORDS && forall k | 0 <= k < NODEWORDS :: ws[k] == 0
    ensures NoAddrs(FromWords(ws)) && FromWords(ws).size == 0
  {
  }

  lemma ZeroNode(b: Block, j: nat)
    requires AllZero(b) && j < IPB
    ensures NoAddrs(NodeIn(b, j)) && NodeIn(b, j).size == 0
  {
    ZeroWordsFrom(b, NODEWORDS * j);
    FromZeroWords(WordsFrom(b, NODEWORDS * j, NODEWORDS));
  }

  /** An image of zeroes after the superblock: nothing is owned and every file is empty. */
  lemma Blank(d: Disk, table: seq<Node>)
    requires |d| == FSSIZE && (forall b | 2 <= b < FSSIZE :: AllZero(d[b])) && |table| == NINODES
    requires SB.Fits(d) && forall i: nat | i < NINODES :: table[i] == NodeAt(d, SB, i)
    ensures Owned(SB, d, table, Below(NMETA), map[], {}) && FreeZero(d, NMETA)
    ensures forall i | 0 <= i < NINODES :: NoAddrs(table[i]) && table[i].size == 0
  {
    forall i: nat | i < NINODES ensures NoAddrs(table[i]) && table[i].size == 0 {
      ZeroNode(d[InodeBlock(SB, i)], i % IPB);
    }
  }

  lemma EmptyFile(d: Disk, i: nat)
    ensures FileOk(d, map[], i, [])
  {
    var m := BlockCount(0);
    forall s: nat ensures SlotMapped(map[], i, m, s) {}
  }

  // --- the bitmap ---

  lemma {:induction false} ZeroBit(k: nat)
    ensures !BitOf(0, k)
  {
    if k > 0 { ZeroBit(k - 1); }
  }

  /** The bitmap block in which the first `used` bits are set. */
  method Bitmap(used: nat) returns (buf: Block)
    requires used < BPB
    ensures forall j: nat | j < BPB :: BlockBit(buf, j) <==> j < used
  {
    buf := ZERO_BLOCK;
    forall j: nat | j < BPB ensures !BlockBit(buf, j) { ZeroBit(j % 8); }
    var i := 0;
    while i < used
      invariant i <= used
      invariant forall j: nat | j < BPB :: BlockBit(buf, j) <==> j < i
    {
      var next := WithBlockBit(buf, i, true);
      forall j: nat | j < BPB ensures BlockBit(next, j) <==> j < i + 1 { BlockBitAfter(buf, i, true, j); }
      buf := next;
      i := i + 1;
    }
  }

  lemma BitmapSays(d: Disk, used: nat, table: seq<Node>)
    requires |d| == FSSIZE && used <= FSSIZE && Table(d, table)
    requires forall j: nat | j < BPB :: BlockBit(d[SB.bmapstart], j) <==> j < used
    ensures Says(d, SB, Below(used), table)
  {
    forall b: nat | b < SB.size ensures b in Below(used) <==> Bit(d, SB, b) { OneBitmapBlock(d, b); }
  }

  lemma OneBitmapBlock(d: Disk, b: nat)
    requires SB.Fits(d) && b < FSSIZE
    ensures Bit(d, SB, b) == BlockBit(d[SB.bmapstart], b)
  {
    assert b / BPB == 0 && b % BPB == b;
    assert BitmapBlock(SB, b) == SB.bmapstart;
  }

  // --- what the kernel makes of the image ---

  lemma ContentsFrom(d: Disk, nodes: seq<Node>, used: set<nat>, l: Layout, i: nat, c: seq<Byte>)
    requires Owned(SB, d, nodes, used, l, {}) && i < |nodes|
    requires HasBytes(d, l, i, c) && nodes[i].size == |c| <= MAXFILE * BSIZE
    ensures Contents(d, nodes[i]) == c
  {
    forall k: nat | k < |c| ensures Contents(d, nodes[i])[k] == c[k] {
      assert HasByte(d, l, i, k, c[k]);
      assert Agrees(d, nodes[i], l, i, k / BSIZE);
    }
  }

  /** A file that was appended to is covered, and reads as what was appended. */
  lemma FileReads(d: Disk, nodes: seq<Node>, used: set<nat>, l: Layout, i: nat, data: seq<Byte>)
    requires Owned(SB, d, nodes, used, l, {}) && i < |nodes| && FileOk(d, l, i, data) && nodes[i].size == |data|
    ensures Covers(l, i, nodes[i]) && Contents(d, nodes[i]) == data
  {
    assert forall k | 0 <= k < |data| :: Padded(data)[k] == data[k];
    forall k | 0 <= k < |data| ensures HasByte(d, l, i, k, data[k]) { assert HasByte(d, l, i, k, Padded(data)[k]); }
    ContentsFrom(d, nodes, used, l, i, data);
  }

  /** The root directory, whose size was rounded up to the next multiple of BSIZE, is covered exactly
      if its entries did not fill its last block already. */
  lemma RootReads(d: Disk, nodes: seq<Node>, used: set<nat>, l: Layout, i: nat, data: seq<Byte>)
    requires Owned(SB, d, nodes, used, l, {}) && i < |nodes| && FileOk(d, l, i, data)
    requires nodes[i].size == (|data| / BSIZE + 1) * BSIZE
    ensures Covers(l, i, nodes[i]) <==> |data| % BSIZE != 0
    ensures |data| % BSIZE != 0 ==> Contents(d, nodes[i]) == Padded(data)
  {
    var m := BlockCount(|data|);
    NextBlock(|data|);
    BlockCountBound(|data|);
    assert BlockCount(nodes[i].size) == |data| / BSIZE + 1;
    if |data| % BSIZE != 0 {
      ContentsFrom(d, nodes, used, l, i, Padded(data));
    } else {
      assert SlotMapped(l, i, m, m);
      assert m + 1 <= MAXFILE ==> !SlotMapped(l, i, m + 1, m);
    }
  }

  class Image {
    var disk: Disk
    var freeinode: nat
    var freeblock: nat
    ghost var nodes: seq<Node>   // the inodes, as last changed in memory
    ghost var table: seq<Node>   // the inodes, as written
    ghost var l: Layout
    ghost var data: seq<seq<Byte>>   // what has been appended to each inode

    ghost predicate Valid()
      reads `disk, `freeblock, `nodes, `table, `l
    {
      && |disk| == FSSIZE && NMETA <= freeblock && |nodes| == |table| == NINODES
      && forall k: nat {:trigger Unfolded(k)} :: Unfolded(k)
    }

    ghost predicate Unfolded(k: nat)
      reads `disk, `freeblock, `nodes, `table, `l
      requires |disk| == FSSIZE
    {
      && (freeblock <= FSSIZE ==> Owned(SB, disk, nodes, Below(freeblock), l, {}))
      && FreeZero(disk, freeblock)
      && Table(disk, table)
      && Front(disk[1], disk[2])
    }

    /** `freeblock++`, for the address of a direct block or the indirect block. False if the image
        has no such block: the sector cannot be read. */
    method FillAddr(i: nat, din: Node, s: nat) returns (ok: bool, din': Node)
      requires Valid() && freeblock <= FSSIZE && i < NINODES && nodes[i] == din
      requires (s < NDIRECT || s == INDIRECT) && Slot(i, s) !in l
      modifies `freeblock, `nodes, `l
      ensures (ok <==> old(freeblock) < FSSIZE) && freeblock == old(freeblock) + 1
      ensures ok ==>
        && Valid() && freeblock == old(freeblock) + 1
        && din' == din.(addrs := din.addrs[if s < NDIRECT then s else NDIRECT := old(freeblock)])
        && nodes == old(nodes)[i := din'] && l == old(l)[Slot(i, s) := old(freeblock)]
        && AllZero(disk[old(freeblock)])
    {
      assert Unfolded(0);
      var b := freeblock;
      freeblock := freeblock + 1;
      if b >= FSSIZE {
        return false, din;
      }
      AllocKeeps(SB, disk, nodes, Below(b), l, {}, b, disk);
      assert Below(b) + {b} == Below(freeblock) && {b} - {b} == {};
      assert {} + {b} == {b};
      if s < NDIRECT {
        DirectKeeps(SB, disk, nodes, Below(freeblock), l, {b}, i, s, b);
      } else {
        NoEntriesInZero(disk[b]);
        IndirectKeeps(SB, disk, nodes, Below(freeblock), l, {b}, i, b);
      }
      din' := din.(addrs := din.addrs[if s < NDIRECT then s else NDIRECT := b]);
      nodes := nodes[i := din'];
      l := l[Slot(i, s) := b];
      ok := true;
    }

    /** `freeblock++`, for an entry of the indirect block `ind`. */
    method FillEntry(i: nat, ind: nat, s: nat) returns (ok: bool)
      requires Valid() && freeblock <= FSSIZE && i < NINODES
      requires NDIRECT <= s < INDIRECT && Slot(i, s) !in l && Slot(i, INDIRECT) in l && ind == l[Slot(i, INDIRECT)]
      modifies `freeblock, `disk, `l
      ensures (ok <==> old(freeblock) < FSSIZE) && freeblock == old(freeblock) + 1
      ensures ok ==>
        && Valid() && freeblock == old(freeblock) + 1 && l == old(l)[Slot(i, s) := old(freeblock)]
        && SameData(old(disk), disk, old(l), i) && AllZero(disk[old(freeblock)])
    {
      assert Unfolded(0);
      var b := freeblock;
      freeblock := freeblock + 1;
      if b >= FSSIZE {
        return false;
      }
      ghost var ind', d' := EntryFilled(disk, nodes, table, l, b, i, s);
      disk := disk[ind := WithWord(disk[ind], s - NDIRECT, b)];
      assert disk == d';
      l := l[Slot(i, s) := b];
      ok := true;
    }

    lemma AddrIs(i: nat, s: nat)
      requires Valid() && freeblock <= FSSIZE && i < NINODES && s <= INDIRECT
      ensures Addr(disk, nodes[i], s) == if Slot(i, s) in l then l[Slot(i, s)] else 0
      ensures Slot(i, s) in l ==> NMETA <= l[Slot(i, s)] < freeblock
      ensures NDIRECT <= s < INDIRECT && Slot(i, s) in l ==> Slot(i, INDIRECT) in l
      ensures Slot(i, INDIRECT) in l ==>
        NMETA <= l[Slot(i, INDIRECT)] < freeblock && nodes[i].addrs[NDIRECT] == l[Slot(i, INDIRECT)]
      ensures Slot(i, INDIRECT) !in l ==> nodes[i].addrs[NDIRECT] == 0
    {
      assert Unfolded(0);
      assert Agrees(disk, nodes[i], l, i, s) && Agrees(disk, nodes[i], l, i, INDIRECT);
      assert forall x | x in l :: l[x] in l.Values;
    }

    /** The block for block `fbn` of a file, handed out if need be. */
    method BlockFor(i: nat, din: Node, fbn: nat) returns (ok: bool, x: nat, din': Node)
      requires Valid() && freeblock <= FSSIZE && i < NINODES && nodes[i] == din && fbn < MAXFILE
      modifies `disk, `freeblock, `nodes, `l
      ensures ok <==> old(freeblock) + Lacking(old(l), i, fbn) <= FSSIZE
      ensures ok ==>
        && Valid() && freeblock == old(freeblock) + Lacking(old(l), i, fbn)
        && din' == din.(addrs := din'.addrs) && nodes == old(nodes)[i := din']
        && Extends(old(l), l, i, fbn) && x == l[Slot(i, fbn)] && NMETA <= x < freeblock
        && SameData(old(disk), disk, old(l), i)
        && (Slot(i, fbn) in old(l) || AllZero(disk[x]))
    {
      if fbn < NDIRECT {
        ok, x, din' := DirectBlock(i, din, fbn);
      } else {
        ok, din' := true, din;
        AddrIs(i, fbn);
        ghost var l0 := l;
        if din.addrs[NDIRECT] == 0 {
          ok, din' := FillAddr(i, din, INDIRECT);
          if !ok {
            return false, 0, din;
          }
        }
        ok, x := EntryBlock(i, din'.addrs[NDIRECT], fbn);
      }
    }

    method DirectBlock(i: nat, din: Node, fbn: nat) returns (ok: bool, x: nat, din': Node)
      requires Valid() && freeblock <= FSSIZE && i < NINODES && nodes[i] == din && fbn < NDIRECT
      modifies `freeblock, `nodes, `l
      ensures ok <==> old(freeblock) + Lacking(old(l), i, fbn) <= FSSIZE
      ensures ok ==>
        && Valid() && freeblock == old(freeblock) + Lacking(old(l), i, fbn)
        && din' == din.(addrs := din'.addrs) && nodes == old(nodes)[i := din']
        && Extends(old(l), l, i, fbn) && x == l[Slot(i, fbn)] && NMETA <= x < freeblock
        && SameData(old(disk), disk, old(l), i)
        && (Slot(i, fbn) in old(l) || AllZero(disk[x]))
    {
      AddrIs(i, fbn);
      ok, din' := true, din;
      if din.addrs[fbn] == 0 {
        ok, din' := FillAddr(i, din, fbn);
        if !ok {
          return false, 0, din;
        }
      }
      x := din'.addrs[fbn];
    }

    method EntryBlock(i: nat, ind: nat, fbn: nat) returns (ok: bool, x: nat)
      requires Valid() && freeblock <= FSSIZE && i < NINODES && NDIRECT <= fbn < MAXFILE
      requires Slot(i, INDIRECT) in l && l[Slot(i, INDIRECT)] == ind
      modifies `disk, `freeblock, `l
      ensures ok <==> old(freeblock) + (if Slot(i, fbn) in old(l) then 0 else 1) <= FSSIZE
      ensures ok ==>
        && Valid() && freeblock == old(freeblock) + (if Slot(i, fbn) in old(l) then 0 else 1)
        && Extends(old(l), l, i, fbn) && x == l[Slot(i, fbn)] && NMETA <= x < freeblock
        && SameData(old(disk), disk, old(l), i)
        && (Slot(i, fbn) in old(l) || AllZero(disk[x]))
    {
      AddrIs(i, fbn);
      ok, x := true, WordAt(disk[ind], fbn - NDIRECT);
      if x == 0 {
        x := freeblock;
        ok := FillEntry(i, ind, fbn);
      }
    }

    /** Between calls: every inode is written, and every file is what was appended to it. */
    ghost predicate AtRest()
      reads this
    {
      && Valid() && freeblock <= FSSIZE && nodes == table && |data| == NINODES
      && AllFiles(disk, l, data) && freeinode <= NINODES
      && (forall i | 0 <= i < NINODES :: nodes[i].size == |data[i]|)
      && (forall i | freeinode <= i < NINODES :: data[i] == [] && NoAddrs(nodes[i]))
    }

    method Rinode(i: nat) returns (din: Node)
      requires Valid() && i < NINODES
      ensures din == table[i]
    {
      assert Unfolded(0);
      din := NodeAt(disk, SB, i);
    }

    method Winode(i: nat, din: Node)
      requires Valid() && freeblock <= FSSIZE && i < NINODES && din.addrs == nodes[i].addrs
      modifies `disk, `nodes, `table
      ensures Valid() && nodes == old(nodes)[i := din] && table == old(table)[i := din]
      ensures forall a | NMETA <= a < FSSIZE :: disk[a] == old(disk)[a]
    {
      assert Unfolded(0);
      ghost var d := disk;
      FieldsKeep(SB, d, nodes, Below(freeblock), l, {}, i, din);
      PutNodeOutside(d, SB, i, din);
      disk := PutNode(disk, SB, i, din);
      nodes, table := nodes[i := din], table[i := din];
      DataKeeps(SB, d, nodes, Below(freeblock), l, {}, disk);
      forall j: nat | j < NINODES ensures NodeAt(disk, SB, j) == table[j] { NodeAfter(d, SB, i, din, j); }
    }

    /** A store into data block `bn` of inode `i`. */
    method Wsect(ghost i: nat, ghost bn: nat, x: nat, b: Block)
      requires Valid() && freeblock <= FSSIZE && bn < MAXFILE && Slot(i, bn) in l
      requires l[Slot(i, bn)] == x && NMETA <= x < freeblock
      modifies `disk
      ensures Valid() && disk == old(disk)[x := b] && Injective(l)
    {
      assert Unfolded(0);
      ghost var d := disk;
      disk := disk[x := b];
      forall y | y in l && y.s == INDIRECT ensures disk[l[y]] == d[l[y]] {
        assert l[y] != x;
      }
      DataKeeps(SB, d, nodes, Below(freeblock), l, {}, disk);
      TableStays(d, disk, table);
    }

    /** A chunk that fits into one block, at the end of the file. */
    method AppendChunk(i: nat, din: Node, off: nat, chunk: seq<Byte>, ghost k: int) returns (ok: bool, din': Node)
      requires Valid() && freeblock <= FSSIZE && i < NINODES && nodes[i] == din && |data| == NINODES
      requires AllFiles(disk, l, data) && off == |data[i]| && off + |chunk| <= MAXFILE * BSIZE
      requires 0 < |chunk| <= BSIZE - off % BSIZE && Gains(off, off + |chunk|, k)
      modifies `disk, `freeblock, `nodes, `l, `data
      ensures ok <==> old(freeblock) + k <= FSSIZE
      ensures ok ==> freeblock == old(freeblock) + k
      ensures ok ==>
        && Valid() && din' == din.(addrs := din'.addrs) && nodes == old(nodes)[i := din']
        && data == old(data)[i := old(data)[i] + chunk] && AllFiles(disk, l, data)
    {
      ghost var d0, l0 := disk, l;
      assert FileOk(disk, l, i, data[i]);
      ChunkLacks(l, i, off, |chunk|, k);
      var x;
      ok, x, din' := BlockFor(i, din, off / BSIZE);
      if !ok {
        return;
      }
      ghost var d := disk;
      Wsect(i, off / BSIZE, x, Patch(disk[x], off % BSIZE, chunk));
      data := data[i := data[i] + chunk];
      ChunkStep(d0, l0, d, l, i, old(data), chunk, x, disk, data);
    }

    /** The image before the first inode: zeroes and the superblock. */
    constructor ()
      ensures AtRest() && freeinode == 1 && freeblock == NMETA && forall i | 0 <= i < NINODES :: data[i] == []
    {
      var d := Zeroed();
      disk, freeinode, freeblock := d, 1, NMETA;
      SuperFits(d);
      ghost var t := seq<Node>(NINODES, i requires 0 <= i < NINODES => NodeAt(d, SB, i));
      nodes, table, l, data := t, t, map[], seq(NINODES, _ => []);
      new;
      Blank(disk, table);
      forall i: nat | i < |data| ensures FileOk(disk, l, i, data[i]) { EmptyFile(disk, i); }
    }

    method Ialloc(typ: Half) returns (inum: nat)
      requires AtRest() && freeinode < NINODES
      modifies `disk, `freeinode, `nodes, `table
      ensures AtRest() && inum == old(freeinode) && freeinode == inum + 1
      ensures table[inum] == Dinode(typ, 0, 0, 1, 0, seq(NDIRECT + 1, _ => 0)) && data[inum] == []
      ensures forall j | 0 <= j < NINODES && j != inum :: table[j] == old(table)[j]
    {
      inum := freeinode;
      freeinode := freeinode + 1;
      var din: Node := Dinode(typ, 0, 0, 1, 0, seq(NDIRECT + 1, _ => 0));
      assert din.addrs == nodes[inum].addrs;
      ghost var d := disk;
      Winode(inum, din);
      FilesStay(d);
    }

    /** Writing inodes and bitmap leaves the files alone. */
    lemma FilesStay(d: Disk)
      requires Valid() && freeblock <= FSSIZE && |d| == FSSIZE && AllFiles(d, l, data)
      requires forall a | NMETA <= a < FSSIZE :: disk[a] == d[a]
      ensures AllFiles(disk, l, data)
    {
      assert Unfolded(0);
      assert forall x | x in l :: NMETA <= l[x] < FSSIZE;
      forall i: nat | i < |data| ensures FileOk(disk, l, i, data[i]) {
        assert FileOk(d, l, i, data[i]);
        BlockCountBound(|data[i]|);
        BytesKept(d, disk, l, l, i, Padded(data[i]));
      }
    }

    /** The bytes of `p` at the end of file `i`. False where the program stops: the file would be
        larger than MAXFILE blocks, or the image is full. */
    method Iappend(i: nat, p: seq<Byte>) returns (ok: bool)
      requires AtRest() && i < freeinode
      modifies this
      ensures ok ==> AtRest() && freeinode == old(freeinode) && data == old(data)[i := old(data)[i] + p]
      ensures ok ==> forall j | 0 <= j < NINODES && j != i :: table[j] == old(table)[j]
      ensures ok <==>
        && |old(data)[i]| + |p| <= MAXFILE * BSIZE
        && old(freeblock) + MoreSlots(|old(data)[i]|, |old(data)[i]| + |p|) <= FSSIZE
      ensures ok ==> freeblock == old(freeblock) + MoreSlots(|old(data)[i]|, |old(data)[i]| + |p|)
    {
      var din := Rinode(i);
      assert FileOk(disk, l, i, data[i]);
      var off;
      ghost var k := GainsOf(din.size, din.size + |p|);
      ok, din, off := AppendLoop(i, din, din.size, p, k);
      if !ok {
        return;
      }
      ghost var d := disk;
      Winode(i, din.(size := off));
      FilesStay(d);
    }

    /** How many of the next `n` bytes go into the block of byte `off`: none if the file cannot have it. */
    method FirstPart(off: nat, n: nat) returns (n1: nat)
      requires off <= MAXFILE * BSIZE && n > 0
      ensures n1 <= n && n1 <= BSIZE - off % BSIZE && off + n1 <= MAXFILE * BSIZE
      ensures (n1 == 0 ==> off == MAXFILE * BSIZE)
      ensures 0 < n1 < n ==> (off + n1) % BSIZE == 0
    {
      var fbn := off / BSIZE;
      if fbn >= MAXFILE {
        return 0;
      }
      n1 := if n < (fbn + 1) * BSIZE - off then n else (fbn + 1) * BSIZE - off;
    }

    /** One turn of the loop: as much of `p` as fits into the block. */
    method AppendStep(i: nat, din: Node, off: nat, p: seq<Byte>, ghost off0: nat, ghost k: int)
      returns (ok: bool, din': Node, n1: nat, ghost k': int)
      requires Valid() && freeblock <= FSSIZE && i < NINODES && nodes[i] == din && |data| == NINODES
      requires AllFiles(disk, l, data) && off0 <= off == |data[i]| <= MAXFILE * BSIZE && p != [] && Gains(off0, off, k)
      modifies `disk, `freeblock, `nodes, `l, `data
      ensures n1 <= |p| && Gains(off0, off + n1, k')
      ensures !ok ==> off + |p| > MAXFILE * BSIZE || old(freeblock) + k' - k > FSSIZE
      ensures ok ==>
        && 0 < n1 && off + n1 <= MAXFILE * BSIZE && Valid() && freeblock == old(freeblock) + k' - k <= FSSIZE
        && din' == din.(addrs := din'.addrs) && nodes == old(nodes)[i := din']
        && data == old(data)[i := old(data)[i] + p[..n1]] && AllFiles(disk, l, data)
    {
      n1 := FirstPart(off, |p|);
      if n1 == 0 {
        return false, din, 0, k;
      }
      k' := SomeGains(off0, off + n1);
      GainsStep(off0, off, k, off + n1, k');
      ok, din' := AppendChunk(i, din, off, p[..n1], k' - k);
    }

    method AppendLoop(i: nat, din0: Node, off0: nat, p: seq<Byte>, ghost all: int)
      returns (ok: bool, din: Node, off: nat)
      requires Valid() && freeblock <= FSSIZE && i < NINODES && nodes[i] == din0 && |data| == NINODES
      requires AllFiles(disk, l, data) && off0 == |data[i]| <= MAXFILE * BSIZE
      requires Gains(off0, off0 + |p|, all)
      modifies `disk, `freeblock, `nodes, `l, `data
      ensures ok <==> off0 + |p| <= MAXFILE * BSIZE && old(freeblock) + all <= FSSIZE
      ensures ok ==>
        && Valid() && freeblock == old(freeblock) + all && off == off0 + |p|
        && din == din0.(addrs := din.addrs) && nodes == old(nodes)[i := din]
        && data == old(data)[i := old(data)[i] + p] && AllFiles(disk, l, data)
    {
      var n := 0;
      din, off := din0, off0;
      ghost var k := SomeGains(off0, off0);
      GainsMonotone(off0, off0, k, off0 + |p|, all);
      assert old(data)[i] + p[..0] == old(data)[i];
      while n < |p|
        invariant n <= |p| && Valid() && freeblock <= FSSIZE && |data| == NINODES
        invariant din == din0.(addrs := din.addrs) && nodes == old(nodes)[i := din]
        invariant data == old(data)[i := old(data)[i] + p[..n]] && AllFiles(disk, l, data)
        invariant off == off0 + n <= MAXFILE * BSIZE && Gains(off0, off, k) && freeblock == old(freeblock) + k
      {
        var n1;
        ok, din, n1, k := AppendStep(i, din, off, p[n..], off0, k);
        GainsMonotone(off0, off + n1, k, off0 + |p|, all);
        if !ok {
          return;
        }
        assert p[..n + n1] == p[..n] + p[n..][..n1];
        assert old(data)[i] + p[..n] + p[n..][..n1] == old(data)[i] + p[..n + n1];
        n, off := n + n1, off + n1;
      }
      assert p[..n] == p;
      GainsMonotone(off0, off, k, off0 + |p|, all);
      ok := true;
    }

    /** The image as the program leaves it. */
    ghost predicate Finished()
      reads this
    {
      && |disk| == FSSIZE && freeblock <= FSSIZE && |data| == |table| == NINODES
      && Says(disk, SB, Below(freeblock), table)
      && Owned(SB, disk, table, Below(freeblock), l, {})
      && AllFiles(disk, l, data)
      && (forall i | 0 <= i < NINODES && i != ROOTINO :: table[i].size == |data[i]|)
      && table[ROOTINO].size == (|data[ROOTINO]| / BSIZE + 1) * BSIZE
      && NMETA <= freeblock && Front(disk[1], disk[2])
    }

    /** The end of main: the root directory's size is rounded up, and the bitmap is written. */
    method Finish()
      requires AtRest() && ROOTINO < freeinode
      modifies `disk, `nodes, `table
      ensures Finished()
      ensures forall i | 0 <= i < NINODES && i != ROOTINO :: table[i] == old(table)[i]
    {
      var din := Rinode(ROOTINO);
      assert FileOk(disk, l, ROOTINO, data[ROOTINO]);
      var off := (din.size / BSIZE + 1) * BSIZE;
      ghost var d := disk;
      Winode(ROOTINO, din.(size := off));
      FilesStay(d);
      WriteBitmap();
    }

    /** balloc(freeblock) */
    method WriteBitmap()
      requires Valid() && freeblock <= FSSIZE && nodes == table && |data| == NINODES && AllFiles(disk, l, data)
      modifies `disk
      ensures |disk| == FSSIZE && Front(disk[1], disk[2]) && AllFiles(disk, l, data)
      ensures Says(disk, SB, Below(freeblock), table) && Owned(SB, disk, table, Below(freeblock), l, {})
    {
      ghost var d := disk;
      var buf := Bitmap(freeblock);
      assert Unfolded(0);
      disk := disk[SB.bmapstart := buf];
      TableStays(d, disk, table);
      DataKeeps(SB, d, nodes, Below(freeblock), l, {}, disk);
      BitmapSays(disk, freeblock, table);
      assert forall k: nat :: Unfolded(k);
      FilesStay(d);
    }
  }

  /** The kernel boots from the image: initlog finds an empty log and changes no block outside it. */
  method Boot(img: Image) returns (log: Log.Log)
    requires img.Finished()
    ensures fresh(log) && fresh(log.cache) && log.Ready() && log.g == Crash.Geometry(2, NLOG)
    ensures log.View() == Reservation.INIT && log.outstanding == 0 && log.readers == {}
    ensures log.cache.disk == log.cache.logical && |log.cache.disk| == FSSIZE
    ensures forall a | 0 <= a < FSSIZE && !log.g.InLog(a) :: log.cache.disk[a] == img.disk[a]
  {
    var cache := new Bio.Bcache(img.disk);
    NothingToRecover(img.disk);
    log := new Log.Log(cache);
  }

  /** mkfs gives the log LOGSIZE blocks, one of which is the header. A run of log.c on its images, with
      nobody logging more than it reserved, stops in "too big a transaction". */
  lemma LogTooSmall()
    ensures exists s, n, i :: Reservation.Reach(NLOG, s, n) && Reservation.Panics(NLOG, s, i)
  {
    Reservation.SafeIffLarger(NLOG);
  }

  /** The kernel mounts the image: between system calls of fs.c all is as its invariants want, and each
      file reads as what mkfs appended. */
  method Mount(img: Image) returns (files: Files)
    requires img.Finished() && |img.data[ROOTINO]| % BSIZE != 0
    ensures fresh(files) && fresh(files.store) && files.AtRest()
    ensures files.store.sb == SB && files.store.disk == img.disk
    ensures files.nodes == img.table && files.l == img.l
    ensures forall i: nat | i < NINODES ::
      Contents(img.disk, img.table[i]) == if i == ROOTINO then Padded(img.data[i]) else img.data[i]
  {
    NothingToRecover(img.disk);
    var store := new Store(img.disk, SB);
    assert store.Unfolded(0);
    assert store.used == Below(img.freeblock);
    assert store.inodes == img.table;
    files := new Files(store, img.l);
    forall i: nat | i < NINODES
      ensures Covers(img.l, i, img.table[i])
      ensures Contents(img.disk, img.table[i]) == if i == ROOTINO then Padded(img.data[i]) else img.data[i]
    {
      assert FileOk(img.disk, img.l, i, img.data[i]);
      if i == ROOTINO {
        RootReads(img.disk, img.table, store.used, img.l, i, img.data[i]);
      } else {
        FileReads(img.disk, img.table, store.used, img.l, i, img.data[i]);
      }
    }
  }

  /** An image on which the rounding fails: a root directory whose entries fill one block. */
  method FullRoot(entries: seq<Byte>) returns (img: Image)
    requires |entries| == BSIZE
    ensures fresh(img) && img.Finished() && img.data[ROOTINO] == entries
    ensures !Covers(img.l, ROOTINO, img.table[ROOTINO])
  {
    img := new Image();
    var root := img.Ialloc(T_DIR);
    assert MoreSlots(0, BSIZE) == 1;
    var ok := img.Iappend(root, entries);
    assert [] + entries == entries;
    img.Finish();
    RootReads(img.disk, img.table, Below(img.freeblock), img.l, ROOTINO, entries);
  }
}
