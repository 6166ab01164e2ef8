/** The lower half of fs.c: the block allocator and the inode table, over the
    logical disk that the block cache and the log present (modules Bio and Log).
    bread is a read of `disk`; a change followed by log_write is an update of it. */
module FsStore {
  import opened Params
  import opened Blocks
  import opened FsFormat
  import Bio

  /** The bitmap marks exactly `used`, and the inode blocks hold `inodes`. */
  ghost predicate Says(d: Disk, sb: Super, used: set<nat>, inodes: seq<Node>) {
    && sb.Fits(d)
    && |inodes| == sb.ninodes
    && (forall b: nat | b < sb.size :: b in used <==> Bit(d, sb, b))
    && (forall i: nat | i < sb.ninodes :: inodes[i] == NodeAt(d, sb, i))
  }

  lemma WhatItSays(d: Disk, sb: Super) returns (used: set<nat>, inodes: seq<Node>)
    requires sb.Fits(d)
    ensures Says(d, sb, used, inodes) && forall b | b in used :: b < sb.size
  {
    used := set b: nat | b < sb.size && Bit(d, sb, b);
    inodes := seq<Node>(sb.ninodes, i requires 0 <= i < sb.ninodes => NodeAt(d, sb, i));
  }

  lemma SaysAfterData(d: Disk, sb: Super, used: set<nat>, inodes: seq<Node>, a: nat, data: Block)
    requires Says(d, sb, used, inodes) && sb.nmeta <= a < |d|
    ensures Says(d[a := data], sb, used, inodes)
  {
    var d' := d[a := data];
    forall b: nat | b < sb.size ensures Bit(d', sb, b) == Bit(d, sb, b) { BitOutside(d, d', sb, b); }
    forall i: nat | i < sb.ninodes ensures NodeAt(d', sb, i) == NodeAt(d, sb, i) { NodeOutside(d, d', sb, i); }
  }

  lemma SaysAfterBit(d: Disk, sb: Super, used: set<nat>, inodes: seq<Node>, b: nat, v: bool)
    requires Says(d, sb, used, inodes) && b < sb.size
    ensures Says(SetBit(d, sb, b, v), sb, if v then used + {b} else used - {b}, inodes)
    ensures forall a | sb.nmeta <= a < |d| :: SetBit(d, sb, b, v)[a] == d[a]
  {
    var d' := SetBit(d, sb, b, v);
    forall a: nat | a < |d| && !(sb.bmapstart <= a < sb.nmeta) ensures d'[a] == d[a] { SetBitInside(d, sb, b, v, a); }
    forall c: nat | c < sb.size ensures Bit(d', sb, c) == if c == b then v else Bit(d, sb, c) {
      BitAfter(d, sb, b, v, c);
    }
    forall i: nat | i < sb.ninodes ensures NodeAt(d', sb, i) == NodeAt(d, sb, i) { NodeOutside(d, d', sb, i); }
  }

  lemma BitsOutside(d: Disk, d': Disk, sb: Super)
    requires sb.Fits(d) && |d'| == |d|
    requires forall a | sb.bmapstart <= a < sb.nmeta :: d'[a] == d[a]
    ensures forall b: nat | b < sb.size :: Bit(d', sb, b) == Bit(d, sb, b)
  {
    forall b: nat | b < sb.size ensures Bit(d', sb, b) == Bit(d, sb, b) { BitOutside(d, d', sb, b); }
  }

  lemma PutNodeOutside(d: Disk, sb: Super, i: nat, n: Node)
    requires sb.Fits(d) && i < sb.ninodes
    ensures forall a: nat | a < |d| && !(sb.inodestart <= a < sb.bmapstart) :: PutNode(d, sb, i, n)[a] == d[a]
  {
    forall a: nat | a < |d| && !(sb.inodestart <= a < sb.bmapstart) ensures PutNode(d, sb, i, n)[a] == d[a] {
      PutNodeInside(d, sb, i, n, a);
    }
  }

  lemma SaysAfterNode(d: Disk, sb: Super, used: set<nat>, inodes: seq<Node>, i: nat, n: Node)
    requires Says(d, sb, used, inodes) && i < sb.ninodes
    ensures Says(PutNode(d, sb, i, n), sb, used, inodes[i := n])
    ensures forall a | sb.nmeta <= a < |d| :: PutNode(d, sb, i, n)[a] == d[a]
  {
    var d' := PutNode(d, sb, i, n);
    PutNodeOutside(d, sb, i, n);
    BitsOutside(d, d', sb);
    NodesAfter(d, sb, inodes, i, n);
  }

  lemma NodesAfter(d: Disk, sb: Super, inodes: seq<Node>, i: nat, n: Node)
    requires sb.Fits(d) && |inodes| == sb.ninodes && i < sb.ninodes
    requires forall j: nat | j < sb.ninodes :: inodes[j] == NodeAt(d, sb, j)
    ensures forall j: nat | j < sb.ninodes :: inodes[i := n][j] == NodeAt(PutNode(d, sb, i, n), sb, j)
  {
    forall j: nat | j < sb.ninodes ensures inodes[i := n][j] == NodeAt(PutNode(d, sb, i, n), sb, j) {
      NodeAfter(d, sb, i, n, j);
    }
  }

  lemma SameBlock(sb: Super, b: nat, bi: nat)
    requires b % BPB == 0 && bi < BPB && b + bi < sb.size
    ensures BitmapBlock(sb, b + bi) == BitmapBlock(sb, b) && (b + bi) % BPB == bi
  {
  }

  /** Blocks run out when as many are used as there are. */
  lemma {:induction false} FullIff(used: set<nat>, size: nat)
    requires forall b | b in used :: b < size
    ensures |used| <= size && (|used| == size <==> forall b: nat | b < size :: b in used)
  {
    if size > 0 {
      var rest := used - {size - 1};
      FullIff(rest, size - 1);
      if size - 1 in used { assert used == rest + {size - 1}; } else { assert used == rest; }
      assert (forall b: nat | b < size :: b in used) <==> size - 1 in used && forall b: nat | b < size - 1 :: b in rest;
    } else {
      assert used == {};
    }
  }

  lemma UsedFits(used: set<nat>, size: nat)
    requires forall b | b in used :: b < size
    ensures |used| <= size
  {
    FullIff(used, size);
  }

  class Store {
    const sb: Super
    var disk: Disk
    ghost var used: set<nat>      // blocks whose bitmap bit is set
    ghost var inodes: seq<Node>   // the disk inodes
    var writes: seq<Bio.Write>    // the updates logged since the last begin_op
    ghost var base: Disk          // the disk as it was then
    ghost var homes: set<nat>     // the blocks that the updates go to

    ghost predicate Unfolded(k: nat)
      reads this
    {
      Says(disk, sb, used, inodes)
    }

    /** The disk is what the logged updates make of `base`. Folded, too. */
    ghost predicate Recorded()
      reads this`disk, this`base, this`writes, this`homes
    {
      forall k: nat {:trigger RecordedAt(k)} :: RecordedAt(k)
    }

    ghost predicate RecordedAt(k: nat)
      reads this`disk, this`base, this`writes, this`homes
    {
      && disk == Bio.Apply(base, writes) && homes == Bio.Addrs(writes)
      && forall a | a in homes :: sb.inodestart <= a < |base|
    }

    /** The ghost fields are what the disk says. Folded; see Bio.Bcache.Valid. */
    ghost predicate Valid()
      reads this
    {
      && 0 < sb.nmeta <= sb.size <= |disk| < 0x1_0000_0000
      && |inodes| == sb.ninodes
      && (forall b | b in used :: b < sb.size)
      && (forall b: nat | b < sb.nmeta :: b in used)
      && Recorded()
      && forall k: nat {:trigger Unfolded(k)} :: Unfolded(k)
    }

    constructor (d: Disk, ghost super: Super)
      requires 1 < |d| && SuperIs(d[1], super) && super.Fits(d) && forall b: nat | b < super.nmeta :: Bit(d, super, b)
      ensures Valid() && sb == super && disk == base == d && writes == [] && homes == {}
    {
      var sb := Readsb(d[1], super);
      this.sb, disk, base, writes, homes := sb, d, d, [], {};
      ghost var u, ns := WhatItSays(d, sb);
      used, inodes := u, ns;
    }

    /** begin_op: what is logged from here on is one transaction. */
    method Begin()
      requires Valid()
      modifies this`base, this`writes, this`homes
      ensures Valid() && base == disk && writes == [] && homes == {}
    {
      assert Unfolded(0);
      base, writes, homes := disk, [], {};
    }

    /** Change a block and log it. */
    method Update(a: nat, data: Block)
      requires Recorded() && sb.inodestart <= a < |disk|
      modifies this`disk, this`writes, this`homes
      ensures Recorded() && disk == old(disk)[a := data] && homes == old(homes) + {a}
    {
      assert RecordedAt(0);
      var w := Bio.Write(a, data);
      Bio.ApplySplit(base, writes, w);
      Bio.AddrsSnoc(writes, w);
      disk, writes, homes := disk[a := data], writes + [w], homes + {a};
    }

    /** Change a data block. */
    method Write(a: nat, data: Block)
      requires Valid() && sb.nmeta <= a < |disk|
      modifies this`disk, this`writes, this`homes
      ensures Valid() && disk == old(disk)[a := data] && homes == old(homes) + {a}
    {
      assert Unfolded(0);
      SaysAfterData(disk, sb, used, inodes, a, data);
      Update(a, data);
    }

    /** balloc's inner loop: the first clear bit of the bitmap block that begins with block `b`. */
    method FindInBlock(b: nat) returns (bi: nat)
      requires Valid() && b % BPB == 0 && b < sb.size
      ensures bi <= BPB && (bi < BPB && b + bi < sb.size ==> b + bi !in used)
      ensures forall c: nat | b <= c < b + bi && c < sb.size :: c in used
      ensures bi == BPB || b + bi <= sb.size
    {
      assert Unfolded(0);
      var bp := disk[BitmapBlock(sb, b)];
      bi := 0;
      while bi < BPB && b + bi < sb.size
        invariant 0 <= bi <= BPB && (bi == BPB || b + bi <= sb.size)
        invariant forall c: nat | b <= c < b + bi && c < sb.size :: c in used
      {
        SameBlock(sb, b, bi);
        assert Bit(disk, sb, b + bi) == BlockBit(bp, bi);
        if !BlockBit(bp, bi) {
          return;
        }
        bi := bi + 1;
      }
    }

    /** balloc's search: the lowest free block. */
    method FindFree() returns (r: Option<nat>)
      requires Valid()
      ensures r.None? ==> forall b: nat | b < sb.size :: b in used
      ensures r.Some? ==> r.value < sb.size && r.value !in used && forall b: nat | b < r.value :: b in used
    {
      var b := 0;
      while b < sb.size
        invariant b % BPB == 0
        invariant forall c: nat | c < b && c < sb.size :: c in used
      {
        var bi := FindInBlock(b);
        if bi < BPB && b + bi < sb.size {
          return Some(b + bi);
        }
        b := b + BPB;
      }
      return None;
    }

    method UpdateBit(b: nat, v: bool)
      requires Recorded() && sb.Fits(disk) && b < sb.size
      modifies this`disk, this`writes, this`homes
      ensures Recorded() && disk == SetBit(old(disk), sb, b, v) && homes == old(homes) + {BitmapBlock(sb, b)}
    {
      var bn := BitmapBlock(sb, b);
      Update(bn, WithBlockBit(disk[bn], b % BPB, v));
    }

    /** Set a block's bit. */
    method Mark(b: nat)
      requires Valid() && b < sb.size
      modifies this`disk, this`used, this`writes, this`homes
      ensures Valid() && |disk| == |old(disk)| && used == old(used) + {b}
      ensures homes == old(homes) + {BitmapBlock(sb, b)}
      ensures forall a | sb.nmeta <= a < |disk| :: disk[a] == old(disk)[a]
    {
      assert Unfolded(0);
      SaysAfterBit(disk, sb, used, inodes, b, true);
      UpdateBit(b, true);
      used := used + {b};
    }

    /** balloc: the lowest free block, marked and zeroed; None where it panics. */
    method Balloc() returns (r: Option<nat>)
      requires Valid()
      modifies this`disk, this`used, this`writes, this`homes
      ensures Valid() && |disk| == |old(disk)|
      ensures r.None? <==> forall b: nat | b < sb.size :: b in old(used)
      ensures |old(used)| <= sb.size && (r.None? <==> |old(used)| == sb.size)
      ensures r.None? ==> disk == old(disk) && used == old(used) && homes == old(homes)
      ensures r.Some? ==>
        && sb.nmeta <= r.value < sb.size && r.value !in old(used)
        && (forall b: nat | b < r.value :: b in old(used))
        && used == old(used) + {r.value}
        && homes == old(homes) + {BitmapBlock(sb, r.value), r.value}
        && disk[r.value] == ZERO_BLOCK
        && forall a | sb.nmeta <= a < |disk| && a != r.value :: disk[a] == old(disk)[a]
    {
      FullIff(used, sb.size);
      r := FindFree();
      if r.Some? {
        Mark(r.value);
        Write(r.value, ZERO_BLOCK);
      }
    }

    /** bfree; false where it panics with "freeing free block". */
    method Bfree(b: nat) returns (ok: bool)
      requires Valid() && sb.nmeta <= b < sb.size
      modifies this`disk, this`used, this`writes, this`homes
      ensures Valid() && |disk| == |old(disk)|
      ensures homes == if ok then old(homes) + {BitmapBlock(sb, b)} else old(homes)
      ensures sb.bmapstart <= BitmapBlock(sb, b) < BitsEnd(sb)
      ensures ok <==> b in old(used)
      ensures used == old(used) - {b}
      ensures forall a | sb.nmeta <= a < |disk| :: disk[a] == old(disk)[a]
    {
      assert Unfolded(0);
      var bp := disk[BitmapBlock(sb, b)];
      var bi := b % BPB;
      if !BlockBit(bp, bi) {
        return false;
      }
      SaysAfterBit(disk, sb, used, inodes, b, false);
      UpdateBit(b, false);
      used := used - {b};
      return true;
    }

    method UpdateNode(i: nat, n: Node)
      requires Recorded() && sb.Fits(disk) && i < sb.ninodes
      modifies this`disk, this`writes, this`homes
      ensures Recorded() && disk == PutNode(old(disk), sb, i, n) && homes == old(homes) + {InodeBlock(sb, i)}
    {
      var bn := InodeBlock(sb, i);
      Update(bn, WithNode(disk[bn], i % IPB, n));
    }

    /** iupdate */
    method Iupdate(i: nat, n: Node)
      requires Valid() && i < sb.ninodes
      modifies this`disk, this`inodes, this`writes, this`homes
      ensures Valid() && |disk| == |old(disk)| && homes == old(homes) + {InodeBlock(sb, i)}
      ensures inodes == old(inodes)[i := n]
      ensures forall a | sb.nmeta <= a < |disk| :: disk[a] == old(disk)[a]
    {
      assert Unfolded(0);
      SaysAfterNode(disk, sb, used, inodes, i, n);
      UpdateNode(i, n);
      inodes := inodes[i := n];
    }

    /** ilock's read of the disk inode. */
    method Iread(i: nat) returns (n: Node)
      requires Valid() && i < sb.ninodes
      ensures n == inodes[i]
    {
      assert Unfolded(0);
      n := NodeAt(disk, sb, i);
    }
  }
}
