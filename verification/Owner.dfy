/** Who owns which data block. A slot is one place where an inode can name a
    block: its data blocks 0..139, and its indirect block. */
module Owner {
  import opened Params
  import opened Blocks
  import opened FsFormat

  datatype Slot = Slot(i: nat, s: nat)

  type Layout = map<Slot, nat>

  /** The block that inode `n` names in slot `s`, or 0. */
  function Addr(d: Disk, n: Node, s: nat): Word
    requires s <= INDIRECT
  {
    if s < NDIRECT then n.addrs[s]
    else if s == INDIRECT then n.addrs[NDIRECT]
    else if n.addrs[NDIRECT] == 0 || n.addrs[NDIRECT] >= |d| then 0
    else WordAt(d[n.addrs[NDIRECT]], s - NDIRECT)
  }

  /** Slot `s` of inode `i` says on disk what the layout says. */
  ghost predicate Agrees(d: Disk, n: Node, l: Layout, i: nat, s: nat)
    requires s <= INDIRECT
  {
    Addr(d, n, s) == if Slot(i, s) in l then l[Slot(i, s)] else 0
  }

  ghost predicate InRange(sb: Super, n: nat, l: Layout) {
    forall x | x in l :: x.i < n && x.s <= INDIRECT && sb.nmeta <= l[x] < sb.size
  }

  ghost predicate Injective(l: Layout) {
    forall x, y | x in l && y in l && l[x] == l[y] :: x == y
  }

  /** The used blocks are exactly the metadata, the owned blocks and the blocks
      just allocated (or about to be freed) but in no slot. */
  ghost predicate Accounted(sb: Super, used: set<nat>, l: Layout, pend: set<nat>) {
    && (forall b: nat :: b in used <==> b < sb.nmeta || b in pend || b in l.Values)
    && (forall b | b in pend :: sb.nmeta <= b < sb.size && b !in l.Values)
  }

  /** Block ownership: `l` is what the inodes `nodes` name on disk `d`, every block
      has at most one owner, and the bitmap agrees. */
  ghost predicate Owned(sb: Super, d: Disk, nodes: seq<Node>, used: set<nat>, l: Layout, pend: set<nat>) {
    && sb.nmeta <= sb.size <= |d| < 0x1_0000_0000
    && 0 < sb.nmeta
    && InRange(sb, |nodes|, l)
    && Injective(l)
    && Accounted(sb, used, l, pend)
    && forall i, s | 0 <= i < |nodes| && 0 <= s <= INDIRECT :: Agrees(d, nodes[i], l, i, s)
  }

  ghost predicate NoEntries(b: Block) {
    forall k: nat | k < NINDIRECT :: WordAt(b, k) == 0
  }

  // ---------- what each change does to ownership ----------

  /** A data block changes (or one that nobody owns): nobody's slots do. */
  lemma DataKeeps(sb: Super, d: Disk, nodes: seq<Node>, used: set<nat>, l: Layout, pend: set<nat>, d': Disk)
    requires Owned(sb, d, nodes, used, l, pend) && |d'| == |d|
    requires forall x | x in l && x.s == INDIRECT :: d'[l[x]] == d[l[x]]
    ensures Owned(sb, d', nodes, used, l, pend)
  {
    forall i, s | 0 <= i < |nodes| && 0 <= s <= INDIRECT ensures Agrees(d', nodes[i], l, i, s) {
      assert Agrees(d, nodes[i], l, i, s);
      assert Agrees(d, nodes[i], l, i, INDIRECT);
    }
  }

  /** balloc takes a block. */
  lemma AllocKeeps(sb: Super, d: Disk, nodes: seq<Node>, used: set<nat>, l: Layout, pend: set<nat>, b: nat, d': Disk)
    requires Owned(sb, d, nodes, used, l, pend) && |d'| == |d|
    requires sb.nmeta <= b < sb.size && b !in used
    requires forall a | sb.nmeta <= a < |d| && a != b :: d'[a] == d[a]
    ensures Owned(sb, d', nodes, used + {b}, l, pend + {b})
  {
    assert forall x | x in l :: l[x] in l.Values;
    DataKeeps(sb, d, nodes, used, l, pend, d');
  }

  lemma ValuesAfter(l: Layout, x: Slot, b: nat)
    requires x !in l
    ensures l[x := b].Values == l.Values + {b}
  {
    var l' := l[x := b];
    forall v | v in l.Values ensures v in l'.Values {
      var y :| y in l && l[y] == v;
      assert y in l' && l'[y] == v;
    }
    assert l'[x] == b;
  }

  /** The books after a pending block went into an empty slot. */
  lemma LinkBooks(sb: Super, n: nat, used: set<nat>, l: Layout, pend: set<nat>, x: Slot, b: nat)
    requires InRange(sb, n, l) && Injective(l) && Accounted(sb, used, l, pend)
    requires x !in l && x.i < n && x.s <= INDIRECT && b in pend
    ensures InRange(sb, n, l[x := b]) && Injective(l[x := b]) && Accounted(sb, used, l[x := b], pend - {b})
  {
    ValuesAfter(l, x, b);
    assert forall y | y in l :: l[y] in l.Values;
  }

  /** A pending block goes into a direct slot. */
  lemma DirectKeeps(sb: Super, d: Disk, nodes: seq<Node>, used: set<nat>, l: Layout, pend: set<nat>, i: nat,
                    s: nat, b: Word)
    requires Owned(sb, d, nodes, used, l, pend)
    requires i < |nodes| && s < NDIRECT && Slot(i, s) !in l && b in pend
    ensures var n := nodes[i].(addrs := nodes[i].addrs[s := b]);
            Owned(sb, d, nodes[i := n], used, l[Slot(i, s) := b], pend - {b})
  {
    var nodes' := nodes[i := nodes[i].(addrs := nodes[i].addrs[s := b])];
    var l' := l[Slot(i, s) := b];
    LinkBooks(sb, |nodes|, used, l, pend, Slot(i, s), b);
    forall j, t | 0 <= j < |nodes'| && 0 <= t <= INDIRECT ensures Agrees(d, nodes'[j], l', j, t) {
      assert Agrees(d, nodes[j], l, j, t);
    }
  }

  /** A pending, zeroed block becomes the indirect block. */
  lemma IndirectKeeps(sb: Super, d: Disk, nodes: seq<Node>, used: set<nat>, l: Layout, pend: set<nat>, i: nat, b: Word)
    requires Owned(sb, d, nodes, used, l, pend)
    requires i < |nodes| && Slot(i, INDIRECT) !in l && b in pend && NoEntries(d[b])
    ensures var n := nodes[i].(addrs := nodes[i].addrs[NDIRECT := b]);
            Owned(sb, d, nodes[i := n], used, l[Slot(i, INDIRECT) := b], pend - {b})
  {
    var nodes' := nodes[i := nodes[i].(addrs := nodes[i].addrs[NDIRECT := b])];
    var l' := l[Slot(i, INDIRECT) := b];
    LinkBooks(sb, |nodes|, used, l, pend, Slot(i, INDIRECT), b);
    assert Agrees(d, nodes[i], l, i, INDIRECT);
    forall j, t | 0 <= j < |nodes'| && 0 <= t <= INDIRECT ensures Agrees(d, nodes'[j], l', j, t) {
      assert Agrees(d, nodes[j], l, j, t);
    }
  }

  /** A pending block goes into an entry of the indirect block. */
  lemma EntryKeeps(sb: Super, d: Disk, nodes: seq<Node>, used: set<nat>, l: Layout, pend: set<nat>, i: nat,
                   s: nat, b: Word)
    requires Owned(sb, d, nodes, used, l, pend)
    requires i < |nodes| && NDIRECT <= s < INDIRECT && Slot(i, s) !in l && Slot(i, INDIRECT) in l && b in pend
    ensures var ind := l[Slot(i, INDIRECT)];
            Owned(sb, d[ind := WithWord(d[ind], s - NDIRECT, b)], nodes, used, l[Slot(i, s) := b], pend - {b})
  {
    var ind := l[Slot(i, INDIRECT)];
    var d' := d[ind := WithWord(d[ind], s - NDIRECT, b)];
    var l' := l[Slot(i, s) := b];
    LinkBooks(sb, |nodes|, used, l, pend, Slot(i, s), b);
    forall j, t | 0 <= j < |nodes| && 0 <= t <= INDIRECT ensures Agrees(d', nodes[j], l', j, t) {
      assert Agrees(d, nodes[j], l, j, t);
      assert Agrees(d, nodes[j], l, j, INDIRECT);
      if NDIRECT <= t < INDIRECT { WordAfter(d[ind], s - NDIRECT, b, t - NDIRECT); }
      if Slot(j, INDIRECT) in l && l[Slot(j, INDIRECT)] == ind { assert Slot(j, INDIRECT) == Slot(i, INDIRECT); }
    }
  }

  lemma ValuesWithout(l: Layout, xs: set<Slot>)
    requires Injective(l) && xs <= l.Keys
    ensures (l - xs).Values == l.Values - (set x | x in xs :: l[x])
  {
    var l' := l - xs;
    forall v | v in l'.Values ensures v in l.Values && v !in (set x | x in xs :: l[x]) {
      var y :| y in l' && l'[y] == v;
      assert y in l && l[y] == v;
    }
    forall v | v in l.Values && v !in (set x | x in xs :: l[x]) ensures v in l'.Values {
      var y :| y in l && l[y] == v;
      assert y in l' && l'[y] == v;
    }
  }

  /** The books after the blocks of some slots became pending again. */
  lemma UnlinkBooks(sb: Super, n: nat, used: set<nat>, l: Layout, pend: set<nat>, xs: set<Slot>)
    requires InRange(sb, n, l) && Injective(l) && Accounted(sb, used, l, pend) && xs <= l.Keys
    ensures InRange(sb, n, l - xs) && Injective(l - xs)
    ensures Accounted(sb, used, l - xs, pend + (set x | x in xs :: l[x]))
  {
    ValuesWithout(l, xs);
    assert forall y | y in l :: l[y] in l.Values;
  }

  /** itrunc clears a direct slot; its block is pending until bfree. */
  lemma ClearDirectKeeps(sb: Super, d: Disk, nodes: seq<Node>, used: set<nat>, l: Layout, pend: set<nat>,
                         i: nat, s: nat)
    requires Owned(sb, d, nodes, used, l, pend)
    requires i < |nodes| && s < NDIRECT && Slot(i, s) in l
    ensures var n := nodes[i].(addrs := nodes[i].addrs[s := 0]);
            Owned(sb, d, nodes[i := n], used, l - {Slot(i, s)}, pend + {l[Slot(i, s)]})
  {
    var nodes' := nodes[i := nodes[i].(addrs := nodes[i].addrs[s := 0])];
    var xs := {Slot(i, s)};
    UnlinkBooks(sb, |nodes|, used, l, pend, xs);
    assert (set x | x in xs :: l[x]) == {l[Slot(i, s)]};
    forall j, t | 0 <= j < |nodes'| && 0 <= t <= INDIRECT ensures Agrees(d, nodes'[j], l - xs, j, t) {
      assert Agrees(d, nodes[j], l, j, t);
    }
  }

  /** The slots of inode `i` that live in or under its indirect block. */
  ghost function Upper(l: Layout, i: nat): set<Slot> {
    set x | x in l && x.i == i && x.s >= NDIRECT
  }

  /** itrunc drops the indirect block with all its entries. */
  lemma ClearIndirectKeeps(sb: Super, d: Disk, nodes: seq<Node>, used: set<nat>, l: Layout, pend: set<nat>, i: nat)
    requires Owned(sb, d, nodes, used, l, pend) && i < |nodes|
    ensures var n := nodes[i].(addrs := nodes[i].addrs[NDIRECT := 0]);
            Owned(sb, d, nodes[i := n], used, l - Upper(l, i), pend + (set x | x in Upper(l, i) :: l[x]))
  {
    var nodes' := nodes[i := nodes[i].(addrs := nodes[i].addrs[NDIRECT := 0])];
    var xs := Upper(l, i);
    UnlinkBooks(sb, |nodes|, used, l, pend, xs);
    forall j, t | 0 <= j < |nodes'| && 0 <= t <= INDIRECT ensures Agrees(d, nodes'[j], l - xs, j, t) {
      assert Agrees(d, nodes[j], l, j, t);
    }
  }

  /** bfree takes back a pending block. */
  lemma FreeKeeps(sb: Super, d: Disk, nodes: seq<Node>, used: set<nat>, l: Layout, pend: set<nat>, b: nat, d': Disk)
    requires Owned(sb, d, nodes, used, l, pend) && b in pend && |d'| == |d|
    requires forall a | sb.nmeta <= a < |d| :: d'[a] == d[a]
    ensures b in used && Owned(sb, d', nodes, used - {b}, l, pend - {b})
  {
    DataKeeps(sb, d, nodes, used, l, pend, d');
  }

  /** Changing other fields of an inode than its addresses. */
  lemma FieldsKeep(sb: Super, d: Disk, nodes: seq<Node>, used: set<nat>, l: Layout, pend: set<nat>, i: nat, n: Node)
    requires Owned(sb, d, nodes, used, l, pend) && i < |nodes| && n.addrs == nodes[i].addrs
    ensures Owned(sb, d, nodes[i := n], used, l, pend)
  {
    var nodes' := nodes[i := n];
    forall j, t | 0 <= j < |nodes'| && 0 <= t <= INDIRECT ensures Agrees(d, nodes'[j], l, j, t) {
      assert Agrees(d, nodes[j], l, j, t);
    }
  }
}
