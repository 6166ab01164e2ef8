/** The on-disk format of fs.h as fs.c reads and writes it: bitmap bits, disk
    inodes and the addresses of a file's blocks. */
module FsFormat {
  import opened Params
  import opened Blocks

  const NDIRECT: nat := 12
  const NINDIRECT: nat := WORDS
  const MAXFILE: nat := NDIRECT + NINDIRECT
  const INDIRECT: nat := MAXFILE  // the slot of the indirect block itself
  const IPB: nat := 8             // BSIZE / sizeof(struct dinode)
  const BPB: nat := BSIZE * 8

  type Half = h: int | 0 <= h < 0x1_0000

  /** struct dinode; also the cached copy in struct inode. */
  datatype Dinode = Dinode(typ: Half, major: Half, minor: Half, nlink: Half, size: Word, addrs: seq<Word>)

  type Node = n: Dinode | |n.addrs| == NDIRECT + 1 witness Dinode(0, 0, 0, 0, 0, seq(NDIRECT + 1, _ => 0))

  /** The part of struct superblock that fs.c uses. Blocks below `nmeta` (boot,
      super, log, inode and bitmap blocks) are never handed out. */
  datatype Super = Super(size: nat, nmeta: nat, ninodes: nat, inodestart: nat, bmapstart: nat) {
    ghost predicate Fits(d: Disk) {
      && 0 < ninodes
      && inodestart + (ninodes - 1) / IPB < bmapstart
      && 0 < size
      && bmapstart + (size - 1) / BPB < nmeta <= size <= |d| < 0x1_0000_0000
    }
  }

  /** struct superblock as readsb copies it out of block 1. The superblock counts the data blocks; the
      blocks before them are the rest. */
  function SuperOf(b: Block): Super {
    var size, nblocks := WordAt(b, 0), WordAt(b, 1);
    Super(size, if nblocks <= size then size - nblocks else 0, WordAt(b, 2), WordAt(b, 5), WordAt(b, 6))
  }

  ghost predicate SuperAt(b: Block, sb: Super, k: nat) { sb == SuperOf(b) }

  /** `sb` is what the superblock in `b` says. Folded; see Bio.Bcache.Valid. */
  ghost predicate SuperIs(b: Block, sb: Super) {
    forall k: nat {:trigger SuperAt(b, sb, k)} :: SuperAt(b, sb, k)
  }

  method Readsb(b: Block, ghost sb: Super) returns (r: Super)
    requires SuperIs(b, sb)
    ensures r == sb
  {
    assert SuperAt(b, sb, 0);
    r := SuperOf(b);
  }

  // ---------- the free bitmap ----------

  function Pow2(w: nat): (p: nat)
    ensures p > 0
  {
    if w == 0 then 1 else 2 * Pow2(w - 1)
  }

  /** x & (1 << k) */
  predicate BitOf(x: nat, k: nat) {
    if k == 0 then x % 2 == 1 else BitOf(x / 2, k - 1)
  }

  /** x | (1 << k) or x & ~(1 << k), for a w-bit x. */
  function WithBit(x: nat, k: nat, v: bool, w: nat): (r: nat)
    requires k < w && x < Pow2(w)
    ensures r < Pow2(w)
    decreases k
  {
    if k == 0 then x / 2 * 2 + (if v then 1 else 0)
    else 2 * WithBit(x / 2, k - 1, v, w - 1) + x % 2
  }

  lemma {:induction false} BitAfterWith(x: nat, k: nat, v: bool, w: nat, j: nat)
    requires k < w && x < Pow2(w)
    ensures BitOf(WithBit(x, k, v, w), j) == if j == k then v else BitOf(x, j)
    decreases k
  {
    if j > 0 && k > 0 {
      BitAfterWith(x / 2, k - 1, v, w - 1, j - 1);
    }
  }

  /** Bit `bi` of a bitmap block. */
  predicate BlockBit(bm: Block, bi: nat)
    requires bi < BPB
  {
    BitOf(bm[bi / 8], bi % 8)
  }

  function WithBlockBit(bm: Block, bi: nat, v: bool): (r: Block)
    requires bi < BPB
  {
    assert Pow2(8) == 256;
    bm[bi / 8 := WithBit(bm[bi / 8], bi % 8, v, 8)]
  }

  lemma BlockBitAfter(bm: Block, bi: nat, v: bool, bj: nat)
    requires bi < BPB && bj < BPB
    ensures BlockBit(WithBlockBit(bm, bi, v), bj) == if bj == bi then v else BlockBit(bm, bj)
  {
    assert Pow2(8) == 256;
    BitAfterWith(bm[bi / 8], bi % 8, v, 8, bj % 8);
  }

  /** BBLOCK */
  function BitmapBlock(sb: Super, b: nat): (bn: nat)
    requires b < sb.size
    ensures sb.bmapstart <= bn <= sb.bmapstart + (sb.size - 1) / BPB
  {
    sb.bmapstart + b / BPB
  }

  /** The first block after those of the bitmap that are in use. */
  function BitsEnd(sb: Super): nat { sb.bmapstart + (sb.size + BPB - 1) / BPB }

  /** The bitmap's bit for block `b`. */
  predicate Bit(d: Disk, sb: Super, b: nat)
    requires sb.Fits(d) && b < sb.size
  {
    BlockBit(d[BitmapBlock(sb, b)], b % BPB)
  }

  function SetBit(d: Disk, sb: Super, b: nat, v: bool): (r: Disk)
    requires sb.Fits(d) && b < sb.size
    ensures |r| == |d|
  {
    var bn := BitmapBlock(sb, b);
    d[bn := WithBlockBit(d[bn], b % BPB, v)]
  }

  lemma SameBit(b: nat, c: nat)
    requires b / BPB == c / BPB && b % BPB == c % BPB
    ensures b == c
  {
    assert b == BPB * (b / BPB) + b % BPB && c == BPB * (c / BPB) + c % BPB;
  }

  lemma BitAfterAt(d: Disk, bn: nat, bm': Block, cn: nat, bi: nat, v: bool, ci: nat)
    requires bn < |d| && cn < |d| && bi < BPB && ci < BPB
    requires BlockBit(bm', ci) == if ci == bi then v else BlockBit(d[bn], ci)
    ensures BlockBit(d[bn := bm'][cn], ci) == if cn == bn && ci == bi then v else BlockBit(d[cn], ci)
  {
  }

  lemma BitAfter(d: Disk, sb: Super, b: nat, v: bool, c: nat)
    requires sb.Fits(d) && b < sb.size && c < sb.size
    ensures Bit(SetBit(d, sb, b, v), sb, c) == if c == b then v else Bit(d, sb, c)
  {
    var bn, cn := BitmapBlock(sb, b), BitmapBlock(sb, c);
    var bm' := WithBlockBit(d[bn], b % BPB, v);
    BlockBitAfter(d[bn], b % BPB, v, c % BPB);
    BitAfterAt(d, bn, bm', cn, b % BPB, v, c % BPB);
    if cn == bn && b % BPB == c % BPB { SameBit(b, c); }
  }

  // ---------- disk inodes ----------

  const NODEWORDS: nat := 16  // sizeof(struct dinode) / 4

  function NodeWords(n: Node): (ws: seq<Word>)
    ensures |ws| == NODEWORDS
  {
    var w0: int, w1: int := n.typ + 0x1_0000 * (n.major as int), n.minor + 0x1_0000 * (n.nlink as int);
    [w0, w1, n.size] + n.addrs
  }

  function FromWords(ws: seq<Word>): Node
    requires |ws| == NODEWORDS
  {
    Dinode(ws[0] % 0x1_0000, ws[0] / 0x1_0000, ws[1] % 0x1_0000, ws[1] / 0x1_0000, ws[2], ws[3..])
  }

  lemma NodeRoundTrip(n: Node)
    ensures FromWords(NodeWords(n)) == n
  {
    assert NodeWords(n)[3..] == n.addrs;
  }

  function WordsFrom(b: Block, w: nat, n: nat): (ws: seq<Word>)
    requires w + n <= WORDS
    ensures |ws| == n
  {
    seq<Word>(n, k requires 0 <= k < n => WordAt(b, w + k))
  }

  /** IBLOCK */
  function InodeBlock(sb: Super, i: nat): (bn: nat)
    requires i < sb.ninodes
    ensures sb.inodestart <= bn <= sb.inodestart + (sb.ninodes - 1) / IPB
  {
    sb.inodestart + i / IPB
  }

  /** Inode number `i` of inode block `b`, and the block with it replaced. */
  function NodeIn(b: Block, i: nat): Node
    requires i < IPB
  {
    FromWords(WordsFrom(b, NODEWORDS * i, NODEWORDS))
  }

  function WithNode(b: Block, i: nat, n: Node): Block
    requires i < IPB
  {
    PutWords(b, NODEWORDS * i, NodeWords(n))
  }

  function NodeAt(d: Disk, sb: Super, i: nat): Node
    requires sb.Fits(d) && i < sb.ninodes
  {
    NodeIn(d[InodeBlock(sb, i)], i % IPB)
  }

  function PutNode(d: Disk, sb: Super, i: nat, n: Node): (r: Disk)
    requires sb.Fits(d) && i < sb.ninodes
    ensures |r| == |d|
  {
    var bn := InodeBlock(sb, i);
    d[bn := WithNode(d[bn], i % IPB, n)]
  }

  lemma WordsAfter(b: Block, i: nat, ws: seq<Word>, j: nat)
    requires i < IPB && j < IPB && |ws| == NODEWORDS
    ensures WordsFrom(PutWords(b, NODEWORDS * i, ws), NODEWORDS * j, NODEWORDS) ==
            if j == i then ws else WordsFrom(b, NODEWORDS * j, NODEWORDS)
  {
    var p, q := NODEWORDS * i, NODEWORDS * j;
    assert j == i || q + NODEWORDS <= p || p + NODEWORDS <= q;
    var r := PutWords(b, p, ws);
    var t := if j == i then ws else WordsFrom(b, q, NODEWORDS);
    forall k: nat | k < NODEWORDS ensures WordsFrom(r, q, NODEWORDS)[k] == t[k] {
      WordAfterPut(b, p, ws, q + k);
    }
  }

  lemma NodeInAfter(b: Block, i: nat, n: Node, j: nat)
    requires i < IPB && j < IPB
    ensures NodeIn(WithNode(b, i, n), j) == if j == i then n else NodeIn(b, j)
  {
    NodeRoundTrip(n);
    WordsAfter(b, i, NodeWords(n), j);
  }

  lemma NodeAfterAt(d: Disk, bn: nat, cn: nat, i: nat, n: Node, j: nat)
    requires bn < |d| && cn < |d| && i < IPB && j < IPB
    ensures NodeIn(d[bn := WithNode(d[bn], i, n)][cn], j) == if cn == bn && j == i then n else NodeIn(d[cn], j)
  {
    NodeInAfter(d[bn], i, n, j);
  }

  lemma SameNode(i: nat, j: nat)
    ensures i / IPB == j / IPB && i % IPB == j % IPB <==> i == j
  {
    assert i == IPB * (i / IPB) + i % IPB && j == IPB * (j / IPB) + j % IPB;
  }

  lemma NodeAfter(d: Disk, sb: Super, i: nat, n: Node, j: nat)
    requires sb.Fits(d) && i < sb.ninodes && j < sb.ninodes
    ensures NodeAt(PutNode(d, sb, i, n), sb, j) == if j == i then n else NodeAt(d, sb, j)
  {
    var bn, cn := InodeBlock(sb, i), InodeBlock(sb, j);
    SameNode(i, j);
    NodeAfterAt(d, bn, cn, i % IPB, n, j % IPB);
  }

  // ---------- the regions do not overlap ----------

  lemma Elsewhere(d: Disk, bn: nat, b: Block, a: nat)
    requires bn < |d| && a < |d| && a != bn
    ensures d[bn := b][a] == d[a]
  {
  }

  /** A change outside the bitmap leaves every bit alone, and likewise for inodes. */
  lemma BitOutside(d: Disk, d': Disk, sb: Super, b: nat)
    requires sb.Fits(d) && |d'| == |d| && b < sb.size
    requires forall a | sb.bmapstart <= a < sb.nmeta :: d'[a] == d[a]
    ensures Bit(d', sb, b) == Bit(d, sb, b)
  {
    assert d'[BitmapBlock(sb, b)] == d[BitmapBlock(sb, b)];
  }

  lemma NodeOutside(d: Disk, d': Disk, sb: Super, i: nat)
    requires sb.Fits(d) && |d'| == |d| && i < sb.ninodes
    requires forall a | sb.inodestart <= a < sb.bmapstart :: d'[a] == d[a]
    ensures NodeAt(d', sb, i) == NodeAt(d, sb, i)
  {
    assert d'[InodeBlock(sb, i)] == d[InodeBlock(sb, i)];
  }

  /** Setting a bit changes bitmap blocks only, and storing an inode inode blocks only. */
  lemma SetBitInside(d: Disk, sb: Super, b: nat, v: bool, a: nat)
    requires sb.Fits(d) && b < sb.size && a < |d| && !(sb.bmapstart <= a < sb.nmeta)
    ensures SetBit(d, sb, b, v)[a] == d[a]
  {
    var bn := BitmapBlock(sb, b);
    Elsewhere(d, bn, WithBlockBit(d[bn], b % BPB, v), a);
  }

  lemma PutNodeInside(d: Disk, sb: Super, i: nat, n: Node, a: nat)
    requires sb.Fits(d) && i < sb.ninodes && a < |d| && !(sb.inodestart <= a < sb.bmapstart)
    ensures PutNode(d, sb, i, n)[a] == d[a]
  {
    var bn := InodeBlock(sb, i);
    Elsewhere(d, bn, WithNode(d[bn], i % IPB, n), a);
  }
}
