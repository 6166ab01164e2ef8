/** Link counts and the directory tree: what create, unlink and link of sysfile.c, with dirlookup and
    dirlink of fs.c, do to the inodes. A directory's content is its sequence of entries. */
module Links {
  import opened Params

  const ROOT: nat := 1
  const DIRSIZ: nat := 14
  const MAXSLOTS: nat := FSSIZE * 512 / 16   // FSSIZE blocks of 16-byte entries

  type Name = s: string | |s| <= DIRSIZ
  datatype Dirent = Dirent(inum: nat, name: Name)   // inum 0: an unused slot
  datatype Inode = Inode(typ: nat, nlink: int, entries: seq<Dirent>)   // typ 0: a free inode

  /** What a C short holds after a sum. */
  function Short(x: int): int {
    (x + 0x8000) % 0x1_0000 - 0x8000
  }

  lemma ShortFits(x: int)
    requires -0x8000 <= x < 0x8000
    ensures Short(x) == x
  {
  }

  lemma ShortSum(x: int, k: int)
    ensures Short((x + k) % 0x1_0000) == Short(Short(x) + k) == Short(x + k)
  {
  }

  predicate LinkedDir(n: Inode) {
    n.typ == T_DIR && n.nlink > 0
  }

  // --- counting the entries that name an inode ---

  ghost function One(e: Dirent, i: nat): nat {
    if e.inum == i && e.name != "." then 1 else 0
  }

  ghost function Named(es: seq<Dirent>, i: nat): nat {
    if es == [] then 0 else Named(es[..|es| - 1], i) + One(es[|es| - 1], i)
  }

  ghost function Gives(n: Inode, i: nat): nat {
    if LinkedDir(n) then Named(n.entries, i) else 0
  }

  /** The entries, other than ".", of linked directories that name inode `i`. */
  ghost function Count(nodes: seq<Inode>, i: nat): nat {
    if nodes == [] then 0 else Count(nodes[..|nodes| - 1], i) + Gives(nodes[|nodes| - 1], i)
  }

  ghost function Slots(nodes: seq<Inode>): nat {
    if nodes == [] then 0 else Slots(nodes[..|nodes| - 1]) + |nodes[|nodes| - 1].entries|
  }

  lemma {:induction false} NamedUpdate(es: seq<Dirent>, k: nat, e: Dirent, i: nat)
    requires k < |es|
    ensures Named(es[k := e], i) + One(es[k], i) == Named(es, i) + One(e, i)
  {
    var es', n := es[k := e], |es| - 1;
    if k == n {
      assert es'[..n] == es[..n];
    } else {
      assert es'[..n] == es[..n][k := e];
      NamedUpdate(es[..n], k, e, i);
    }
  }

  lemma NamedAppend(es: seq<Dirent>, e: Dirent, i: nat)
    ensures Named(es + [e], i) == Named(es, i) + One(e, i)
  {
    assert (es + [e])[..|es|] == es;
  }

  lemma {:induction false} CountUpdate(nodes: seq<Inode>, d: nat, n: Inode, i: nat)
    requires d < |nodes|
    ensures Count(nodes[d := n], i) + Gives(nodes[d], i) == Count(nodes, i) + Gives(n, i)
    ensures Slots(nodes[d := n]) + |nodes[d].entries| == Slots(nodes) + |n.entries|
  {
    var nodes', m := nodes[d := n], |nodes| - 1;
    if d == m {
      assert nodes'[..m] == nodes[..m];
    } else {
      assert nodes'[..m] == nodes[..m][d := n];
      CountUpdate(nodes[..m], d, n, i);
    }
  }

  lemma {:induction false} NamedAtLeast(es: seq<Dirent>, k: nat, i: nat)
    requires k < |es| && One(es[k], i) == 1
    ensures Named(es, i) >= 1
  {
    if k < |es| - 1 { NamedAtLeast(es[..|es| - 1], k, i); }
  }

  lemma {:induction false} CountAtLeast(nodes: seq<Inode>, d: nat, i: nat)
    requires d < |nodes|
    ensures Count(nodes, i) >= Gives(nodes[d], i)
  {
    if d < |nodes| - 1 { CountAtLeast(nodes[..|nodes| - 1], d, i); }
  }

  lemma {:induction false} NamedWitness(es: seq<Dirent>, i: nat) returns (k: nat)
    requires Named(es, i) > 0
    ensures k < |es| && One(es[k], i) == 1
  {
    if One(es[|es| - 1], i) == 1 {
      k := |es| - 1;
    } else {
      k := NamedWitness(es[..|es| - 1], i);
    }
  }

  lemma {:induction false} CountWitness(nodes: seq<Inode>, i: nat) returns (d: nat, k: nat)
    requires Count(nodes, i) > 0
    ensures d < |nodes| && LinkedDir(nodes[d]) && k < |nodes[d].entries| && One(nodes[d].entries[k], i) == 1
  {
    var m := |nodes| - 1;
    if Gives(nodes[m], i) > 0 {
      d := m;
      k := NamedWitness(nodes[m].entries, i);
    } else {
      d, k := CountWitness(nodes[..m], i);
    }
  }

  lemma {:induction false} NamedBounded(es: seq<Dirent>, i: nat)
    ensures Named(es, i) <= |es|
  {
    if es != [] { NamedBounded(es[..|es| - 1], i); }
  }

  lemma {:induction false} CountBounded(nodes: seq<Inode>, i: nat)
    ensures Count(nodes, i) <= Slots(nodes)
  {
    if nodes != [] {
      CountBounded(nodes[..|nodes| - 1], i);
      NamedBounded(nodes[|nodes| - 1].entries, i);
    }
  }

  // --- the invariant ---

  /** An inode's link count: entries naming it, and calls of link that have counted but not yet written. */
  ghost predicate CountOk(nodes: seq<Inode>, pend: seq<nat>, i: nat) {
    0 < i < |nodes| == |pend| ==>
      && (if nodes[i].typ != 0 then nodes[i].nlink == Count(nodes, i) + pend[i]
          else Count(nodes, i) == 0 && pend[i] == 0)
      && (nodes[i].typ == T_DIR ==> pend[i] == 0)
      && pend[i] <= NPROC
  }

  ghost predicate HasName(nodes: seq<Inode>, p: nat, d: nat) {
    p < |nodes| && exists k :: 2 <= k < |nodes[p].entries| && nodes[p].entries[k].inum == d
  }

  /** A directory begins with "." and ".."; a linked one hangs in the tree, a removed one is empty. */
  ghost predicate DirOk(nodes: seq<Inode>, depth: seq<nat>, d: nat) {
    d < |nodes| == |depth| ==>
      if nodes[d].typ != T_DIR then nodes[d].entries == []
      else
        var es := nodes[d].entries;
        && d > 0 && |es| >= 2 && es[0] == Dirent(d, ".") && es[1].name == ".." && es[1].inum < |nodes|
        && (if nodes[d].nlink > 0 then
             var p := es[1].inum;
             && 0 < p < |nodes| && LinkedDir(nodes[p])
             && (if d == ROOT then p == ROOT else depth[p] < depth[d] && HasName(nodes, p, d))
           else d != ROOT && forall k | 2 <= k < |es| :: es[k].inum == 0)
  }

  /** A named directory is not the root, and its ".." is the directory that names it. */
  ghost predicate EntryOk(nodes: seq<Inode>, q: nat, k: nat) {
    q < |nodes| && LinkedDir(nodes[q]) && 2 <= k < |nodes[q].entries| ==>
      var c := nodes[q].entries[k].inum;
      && c < |nodes|
      && (nodes[c].typ == T_DIR ==> c != ROOT && |nodes[c].entries| >= 2 && nodes[c].entries[1].inum == q)
  }

  /** Names in a directory are different, and no directory has two names. */
  ghost predicate PairOk(nodes: seq<Inode>, q: nat, j: nat, k: nat) {
    q < |nodes| && LinkedDir(nodes[q]) && j < k < |nodes[q].entries| ==>
      var e, f := nodes[q].entries[j], nodes[q].entries[k];
      && (e.inum != 0 && f.inum != 0 ==> e.name != f.name)
      && (j >= 2 && e.inum == f.inum < |nodes| ==> nodes[e.inum].typ != T_DIR)
  }

  ghost predicate Inv(nodes: seq<Inode>, pend: seq<nat>, depth: seq<nat>) {
    && ROOT < |nodes| == |pend| == |depth| && LinkedDir(nodes[ROOT]) && nodes[0].typ == 0
    && Slots(nodes) <= MAXSLOTS
    && (forall i: nat {:trigger CountOk(nodes, pend, i)} :: CountOk(nodes, pend, i))
    && (forall d: nat {:trigger DirOk(nodes, depth, d)} :: DirOk(nodes, depth, d))
    && (forall q: nat, k: nat {:trigger EntryOk(nodes, q, k)} :: EntryOk(nodes, q, k))
    && (forall q: nat, j: nat, k: nat {:trigger PairOk(nodes, q, j, k)} :: PairOk(nodes, q, j, k))
  }

  // --- directories as values ---

  /** The first unused slot, or the end. */
  function FirstFree(es: seq<Dirent>): (k: nat)
    ensures k <= |es| && (k < |es| ==> es[k].inum == 0) && forall j | 0 <= j < k :: es[j].inum != 0
  {
    if es == [] then 0 else if es[0].inum == 0 then 0 else 1 + FirstFree(es[1..])
  }

  function WithEntry(es: seq<Dirent>, e: Dirent): seq<Dirent> {
    var k := FirstFree(es);
    if k < |es| then es[k := e] else es + [e]
  }

  ghost predicate Lacks(es: seq<Dirent>, name: Name) {
    forall k | 0 <= k < |es| && es[k].inum != 0 :: es[k].name != name
  }

  lemma NamedWith(es: seq<Dirent>, e: Dirent, i: nat)
    requires i > 0
    ensures Named(WithEntry(es, e), i) == Named(es, i) + One(e, i)
  {
    var k := FirstFree(es);
    if k < |es| { NamedUpdate(es, k, e, i); } else { NamedAppend(es, e, i); }
  }

  // --- link ---

  ghost function Relinked(nodes: seq<Inode>, i: nat, nlink: int): seq<Inode>
    requires i < |nodes|
  {
    nodes[i := nodes[i].(nlink := nlink)]
  }

  /** A link count never comes near the limits of its 16 bits: the disk has too few entries. */
  lemma NlinkFits(nodes: seq<Inode>, pend: seq<nat>, depth: seq<nat>, i: nat)
    requires Inv(nodes, pend, depth) && 0 < i < |nodes| && nodes[i].typ != 0
    ensures 0 <= nodes[i].nlink <= MAXSLOTS + NPROC
    ensures Short(nodes[i].nlink + 1) == nodes[i].nlink + 1 && Short(nodes[i].nlink - 1) == nodes[i].nlink - 1
  {
    assert CountOk(nodes, pend, i);
    CountBounded(nodes, i);
    ShortFits(nodes[i].nlink + 1);
    ShortFits(nodes[i].nlink - 1);
  }

  /** A call of link, or of create, counts a link it has not written yet. */
  lemma BeginKeeps(nodes: seq<Inode>, pend: seq<nat>, depth: seq<nat>, i: nat)
    requires Inv(nodes, pend, depth) && 0 < i < |nodes| && nodes[i].typ != 0 && nodes[i].typ != T_DIR && pend[i] < NPROC
    ensures Short(nodes[i].nlink + 1) == nodes[i].nlink + 1
    ensures Inv(Relinked(nodes, i, nodes[i].nlink + 1), pend[i := pend[i] + 1], depth)
  {
    NlinkFits(nodes, pend, depth, i);
    NlinkKeeps(nodes, pend, depth, i, nodes[i].nlink + 1, pend[i] + 1);
  }

  /** It gives up. */
  lemma AbortKeeps(nodes: seq<Inode>, pend: seq<nat>, depth: seq<nat>, i: nat)
    requires Inv(nodes, pend, depth) && 0 < i < |nodes| && nodes[i].typ != 0 && nodes[i].typ != T_DIR && pend[i] > 0
    ensures Short(nodes[i].nlink - 1) == nodes[i].nlink - 1
    ensures Inv(Relinked(nodes, i, nodes[i].nlink - 1), pend[i := pend[i] - 1], depth)
  {
    NlinkFits(nodes, pend, depth, i);
    assert CountOk(nodes, pend, i);
    NlinkKeeps(nodes, pend, depth, i, nodes[i].nlink - 1, pend[i] - 1);
  }

  lemma NlinkKeeps(nodes: seq<Inode>, pend: seq<nat>, depth: seq<nat>, i: nat, nlink: int, p: nat)
    requires Inv(nodes, pend, depth) && 0 < i < |nodes| && nodes[i].typ != 0 && nodes[i].typ != T_DIR
    requires nlink - p == nodes[i].nlink - pend[i] && p <= NPROC
    ensures Inv(Relinked(nodes, i, nlink), pend[i := p], depth)
  {
    var nodes', pend' := Relinked(nodes, i, nlink), pend[i := p];
    CountUpdate(nodes, i, nodes'[i], i);
    forall j: nat ensures CountOk(nodes', pend', j) {
      assert CountOk(nodes, pend, j);
      CountUpdate(nodes, i, nodes'[i], j);
    }
    forall d: nat ensures DirOk(nodes', depth, d) { assert DirOk(nodes, depth, d); }
    forall q: nat, k: nat ensures EntryOk(nodes', q, k) { assert EntryOk(nodes, q, k); }
    forall q: nat, j: nat, k: nat ensures PairOk(nodes', q, j, k) { assert PairOk(nodes, q, j, k); }
  }

  ghost function Entered(nodes: seq<Inode>, dp: nat, e: Dirent): seq<Inode>
    requires dp < |nodes|
  {
    nodes[dp := nodes[dp].(entries := WithEntry(nodes[dp].entries, e))]
  }

  lemma EnterCounts(nodes: seq<Inode>, pend: seq<nat>, dp: nat, e: Dirent, pend': seq<nat>)
    requires dp < |nodes| == |pend| && LinkedDir(nodes[dp]) && 0 < e.inum < |nodes| && e.name != "." && pend[e.inum] > 0
    requires forall j: nat :: CountOk(nodes, pend, j)
    requires pend' == pend[e.inum := pend[e.inum] - 1]
    ensures forall j: nat :: CountOk(Entered(nodes, dp, e), pend', j)
  {
    var nodes' := Entered(nodes, dp, e);
    forall j: nat ensures CountOk(nodes', pend', j) {
      assert CountOk(nodes, pend, j);
      CountUpdate(nodes, dp, nodes'[dp], j);
      if j > 0 { NamedWith(nodes[dp].entries, e, j); }
    }
  }

  lemma EnterPairs(nodes: seq<Inode>, dp: nat, e: Dirent)
    requires dp < |nodes| && LinkedDir(nodes[dp]) && Lacks(nodes[dp].entries, e.name)
    requires 0 < e.inum < |nodes| && nodes[e.inum].typ != T_DIR
    requires |nodes[dp].entries| >= 2 && nodes[dp].entries[0].inum != 0 && nodes[dp].entries[1].inum != 0
    requires (forall q: nat, k: nat :: EntryOk(nodes, q, k))
    requires (forall q: nat, j: nat, k: nat :: PairOk(nodes, q, j, k))
    ensures forall q: nat, k: nat :: EntryOk(Entered(nodes, dp, e), q, k)
    ensures forall q: nat, j: nat, k: nat :: PairOk(Entered(nodes, dp, e), q, j, k)
  {
    var nodes' := Entered(nodes, dp, e);
    forall q: nat, k: nat ensures EntryOk(nodes', q, k) { assert EntryOk(nodes, q, k); }
    forall q: nat, j: nat, k: nat ensures PairOk(nodes', q, j, k) { assert PairOk(nodes, q, j, k); }
  }

  /** It writes the entry. */
  lemma EnterKeeps(nodes: seq<Inode>, pend: seq<nat>, depth: seq<nat>, dp: nat, name: Name, i: nat)
    requires Inv(nodes, pend, depth) && dp < |nodes| && LinkedDir(nodes[dp]) && Lacks(nodes[dp].entries, name)
    requires 0 < i < |nodes| && nodes[i].typ != 0 && nodes[i].typ != T_DIR && pend[i] > 0
    requires FirstFree(nodes[dp].entries) == |nodes[dp].entries| ==> Slots(nodes) < MAXSLOTS
    ensures Inv(Entered(nodes, dp, Dirent(i, name)), pend[i := pend[i] - 1], depth)
  {
    var e := Dirent(i, name);
    var nodes' := Entered(nodes, dp, e);
    assert DirOk(nodes, depth, dp);
    CountUpdate(nodes, dp, nodes'[dp], i);
    EnterCounts(nodes, pend, dp, e, pend[i := pend[i] - 1]);
    EnterPairs(nodes, dp, e);
    forall d: nat ensures DirOk(nodes', depth, d) {
      assert DirOk(nodes, depth, d);
      if d < |nodes| && LinkedDir(nodes[d]) && d != ROOT { NameStays(nodes, dp, e, nodes[d].entries[1].inum, d); }
    }
  }

  lemma NameStays(nodes: seq<Inode>, dp: nat, e: Dirent, p: nat, d: nat)
    requires dp < |nodes| && HasName(nodes, p, d) && d > 0
    ensures HasName(Entered(nodes, dp, e), p, d)
  {
    var k :| 2 <= k < |nodes[p].entries| && nodes[p].entries[k].inum == d;
    assert Entered(nodes, dp, e)[p].entries[k].inum == d;
  }

  // --- create ---

  /** Nothing in the tree names an inode whose count is 0. */
  lemma NotNamed(nodes: seq<Inode>, pend: seq<nat>, depth: seq<nat>, i: nat, q: nat, k: nat)
    requires Inv(nodes, pend, depth) && 0 < i < |nodes| && Count(nodes, i) == 0
    requires q < |nodes| && LinkedDir(nodes[q]) && 1 <= k < |nodes[q].entries|
    ensures nodes[q].entries[k].inum != i
  {
    var es := nodes[q].entries;
    if es[k].inum == i {
      assert DirOk(nodes, depth, q) && PairOk(nodes, q, 0, k);
      NamedAtLeast(es, k, i);
      CountAtLeast(nodes, q, i);
    }
  }

  /** A new file or device, counted and about to be entered. */
  lemma AllocKeeps(nodes: seq<Inode>, pend: seq<nat>, depth: seq<nat>, i: nat, typ: nat)
    requires Inv(nodes, pend, depth) && 0 < i < |nodes| && nodes[i].typ == 0 && typ != 0 && typ != T_DIR
    ensures Inv(nodes[i := Inode(typ, 1, [])], pend[i := 1], depth)
  {
    var nodes', pend' := nodes[i := Inode(typ, 1, [])], pend[i := 1];
    assert CountOk(nodes, pend, i) && DirOk(nodes, depth, i);
    CountUpdate(nodes, i, nodes'[i], i);
    forall j: nat ensures CountOk(nodes', pend', j) {
      assert CountOk(nodes, pend, j);
      CountUpdate(nodes, i, nodes'[i], j);
    }
    forall d: nat ensures DirOk(nodes', depth, d) { assert DirOk(nodes, depth, d); }
    forall q: nat, k: nat ensures EntryOk(nodes', q, k) { assert EntryOk(nodes, q, k); }
    forall q: nat, j: nat, k: nat ensures PairOk(nodes', q, j, k) { assert PairOk(nodes, q, j, k); }
  }

  ghost function Dots(c: nat, dp: nat): seq<Dirent> {
    [Dirent(c, "."), Dirent(dp, "..")]
  }

  ghost function WithDir(nodes: seq<Inode>, dp: nat, name: Name, c: nat): seq<Inode>
    requires dp < |nodes| && c < |nodes|
  {
    nodes[c := Inode(T_DIR, 1, Dots(c, dp))]
         [dp := Inode(T_DIR, nodes[dp].nlink + 1, WithEntry(nodes[dp].entries, Dirent(c, name)))]
  }

  lemma NamedDots(c: nat, dp: nat, j: nat)
    ensures Named(Dots(c, dp), j) == if dp == j then 1 else 0
  {
    var es := Dots(c, dp);
    var h := es[..1];
    assert h == [Dirent(c, ".")] && h[..0] == [];
    assert Named(h, j) == 0;
    assert |es| == 2 && es[1] == Dirent(dp, "..");
  }

  lemma DirCounts(nodes: seq<Inode>, pend: seq<nat>, depth: seq<nat>, dp: nat, name: Name, c: nat, j: nat)
    requires Inv(nodes, pend, depth) && dp < |nodes| && LinkedDir(nodes[dp]) && Lacks(nodes[dp].entries, name)
    requires 0 < c < |nodes| && nodes[c].typ == 0
    ensures CountOk(WithDir(nodes, dp, name, c), pend, j)
  {
    var e := Dirent(c, name);
    assert DirOk(nodes, depth, dp) && CountOk(nodes, pend, j) && CountOk(nodes, pend, c);
    if 0 < j < |nodes| {
      var n1 := Inode(T_DIR, 1, Dots(c, dp));
      var n2 := Inode(T_DIR, nodes[dp].nlink + 1, WithEntry(nodes[dp].entries, e));
      var mid := nodes[c := n1];
      CountUpdate(nodes, c, n1, j);
      CountUpdate(mid, dp, n2, j);
      NamedWith(nodes[dp].entries, e, j);
      NamedDots(c, dp, j);
    }
  }

  lemma WithEntryAt(es: seq<Dirent>, e: Dirent, k: nat)
    requires |es| >= 2 && es[0].inum != 0 && es[1].inum != 0 && k < |WithEntry(es, e)|
    ensures FirstFree(es) >= 2 && WithEntry(es, e)[FirstFree(es)] == e
    ensures k != FirstFree(es) ==> k < |es| && WithEntry(es, e)[k] == es[k]
  {
  }

  /** A new directory: counted, entered, and counted in its parent for its "..". */
  lemma MkdirKeeps(nodes: seq<Inode>, pend: seq<nat>, depth: seq<nat>, dp: nat, name: Name, c: nat)
    requires Inv(nodes, pend, depth) && dp < |nodes| && LinkedDir(nodes[dp]) && Lacks(nodes[dp].entries, name)
    requires 0 < c < |nodes| && nodes[c].typ == 0
    requires Slots(nodes) + 3 <= MAXSLOTS
    ensures Short(nodes[dp].nlink + 1) == nodes[dp].nlink + 1
    ensures Inv(WithDir(nodes, dp, name, c), pend, depth[c := depth[dp] + 1])
  {
    var nodes', depth' := WithDir(nodes, dp, name, c), depth[c := depth[dp] + 1];
    MkdirSlots(nodes, pend, depth, dp, name, c);
    assert DirOk(nodes, depth, dp);
    NlinkFits(nodes, pend, depth, dp);
    assert nodes'[0].typ == 0 && LinkedDir(nodes'[ROOT]) by { assert DirOk(nodes, depth, dp); }
    forall j: nat ensures CountOk(nodes', pend, j) { DirCounts(nodes, pend, depth, dp, name, c, j); }
    forall d: nat ensures DirOk(nodes', depth', d) { MkdirDirs(nodes, pend, depth, dp, name, c, d); }
    forall q: nat, k: nat ensures EntryOk(nodes', q, k) { MkdirEntry(nodes, pend, depth, dp, name, c, q, k); }
    forall q: nat, j: nat, k: nat ensures PairOk(nodes', q, j, k) {
      MkdirPair(nodes, pend, depth, dp, name, c, q, j, k);
    }
  }

  lemma MkdirSlots(nodes: seq<Inode>, pend: seq<nat>, depth: seq<nat>, dp: nat, name: Name, c: nat)
    requires Inv(nodes, pend, depth) && dp < |nodes| && LinkedDir(nodes[dp])
    requires 0 < c < |nodes| && nodes[c].typ == 0
    ensures Slots(WithDir(nodes, dp, name, c)) <= Slots(nodes) + 3
  {
    var nodes' := WithDir(nodes, dp, name, c);
    assert DirOk(nodes, depth, dp);
    CountUpdate(nodes, c, nodes'[c], 0);
    CountUpdate(nodes[c := nodes'[c]], dp, nodes'[dp], 0);
  }

  lemma MkdirDirs(nodes: seq<Inode>, pend: seq<nat>, depth: seq<nat>, dp: nat, name: Name, c: nat, d: nat)
    requires Inv(nodes, pend, depth) && dp < |nodes| && LinkedDir(nodes[dp])
    requires 0 < c < |nodes| && nodes[c].typ == 0
    ensures DirOk(WithDir(nodes, dp, name, c), depth[c := depth[dp] + 1], d)
  {
    var nodes', e, es := WithDir(nodes, dp, name, c), Dirent(c, name), nodes[dp].entries;
    assert DirOk(nodes, depth, d) && DirOk(nodes, depth, dp) && DirOk(nodes, depth, c);
    WithEntryAt(es, e, 0);
    WithEntryAt(es, e, 1);
    if d == c {
      assert nodes'[dp].entries[FirstFree(es)].inum == c;
    } else if d < |nodes| && LinkedDir(nodes[d]) && d != ROOT {
      var p := nodes[d].entries[1].inum;
      var k :| 2 <= k < |nodes[p].entries| && nodes[p].entries[k].inum == d;
      assert nodes'[p].entries[k].inum == d;
    }
  }

  lemma MkdirEntry(nodes: seq<Inode>, pend: seq<nat>, depth: seq<nat>, dp: nat, name: Name, c: nat, q: nat, k: nat)
    requires Inv(nodes, pend, depth) && dp < |nodes| && LinkedDir(nodes[dp])
    requires 0 < c < |nodes| && nodes[c].typ == 0
    ensures EntryOk(WithDir(nodes, dp, name, c), q, k)
  {
    var nodes', e, es := WithDir(nodes, dp, name, c), Dirent(c, name), nodes[dp].entries;
    assert EntryOk(nodes, q, k) && DirOk(nodes, depth, dp) && CountOk(nodes, pend, c) && DirOk(nodes, depth, c);
    if q < |nodes| && LinkedDir(nodes'[q]) && 2 <= k < |nodes'[q].entries| {
      if q == dp { WithEntryAt(es, e, k); }
      WithEntryAt(es, e, 1);
      if !(q == dp && k == FirstFree(es)) {
        NotNamed(nodes, pend, depth, c, q, k);
      }
    }
  }

  lemma MkdirPair(nodes: seq<Inode>, pend: seq<nat>, depth: seq<nat>, dp: nat, name: Name, c: nat, q: nat,
                  j: nat, k: nat)
    requires Inv(nodes, pend, depth) && dp < |nodes| && LinkedDir(nodes[dp]) && Lacks(nodes[dp].entries, name)
    requires 0 < c < |nodes| && nodes[c].typ == 0
    ensures PairOk(WithDir(nodes, dp, name, c), q, j, k)
  {
    var nodes', e, es := WithDir(nodes, dp, name, c), Dirent(c, name), nodes[dp].entries;
    assert PairOk(nodes, q, j, k) && DirOk(nodes, depth, dp) && CountOk(nodes, pend, c) && DirOk(nodes, depth, c);
    if q < |nodes| && q != c && LinkedDir(nodes'[q]) && j < k < |nodes'[q].entries| {
      if q == dp {
        WithEntryAt(es, e, j);
        WithEntryAt(es, e, k);
      }
      if j >= 2 && !(q == dp && j == FirstFree(es)) { NotNamed(nodes, pend, depth, c, q, j); }
      if j >= 2 && !(q == dp && k == FirstFree(es)) { NotNamed(nodes, pend, depth, c, q, k); }
    }
  }

  // --- unlink ---

  const UNUSED: Dirent := Dirent(0, "")

  ghost predicate NamesAt(nodes: seq<Inode>, dp: nat, k: nat, i: nat) {
    && dp < |nodes| && LinkedDir(nodes[dp]) && 2 <= k < |nodes[dp].entries|
    && nodes[dp].entries[k].inum == i && 0 < i < |nodes|
  }

  /** What an entry of the tree names is in use and has a link: unlink cannot find nlink < 1. */
  lemma NamedIsLinked(nodes: seq<Inode>, pend: seq<nat>, depth: seq<nat>, dp: nat, k: nat, i: nat)
    requires Inv(nodes, pend, depth) && NamesAt(nodes, dp, k, i)
    ensures nodes[i].typ != 0 && nodes[i].nlink >= 1 && nodes[dp].entries[k].name != "."
  {
    assert DirOk(nodes, depth, dp) && PairOk(nodes, dp, 0, k) && CountOk(nodes, pend, i);
    NamedAtLeast(nodes[dp].entries, k, i);
    CountAtLeast(nodes, dp, i);
  }

  ghost function Without(nodes: seq<Inode>, dp: nat, k: nat): seq<Inode>
    requires dp < |nodes| && k < |nodes[dp].entries|
  {
    nodes[dp := nodes[dp].(entries := nodes[dp].entries[k := UNUSED])]
  }

  lemma WithoutCounts(nodes: seq<Inode>, dp: nat, k: nat, j: nat)
    requires dp < |nodes| && k < |nodes[dp].entries| && LinkedDir(nodes[dp]) && j > 0
    ensures Count(Without(nodes, dp, k), j) == Count(nodes, j) - One(nodes[dp].entries[k], j)
    ensures Slots(Without(nodes, dp, k)) == Slots(nodes)
  {
    CountUpdate(nodes, dp, Without(nodes, dp, k)[dp], j);
    NamedUpdate(nodes[dp].entries, k, UNUSED, j);
  }

  lemma WithoutDirs(nodes: seq<Inode>, pend: seq<nat>, depth: seq<nat>, dp: nat, k: nat, i: nat, d: nat)
    requires Inv(nodes, pend, depth) && NamesAt(nodes, dp, k, i) && nodes[i].typ != T_DIR
    ensures DirOk(Without(nodes, dp, k), depth, d)
  {
    var nodes' := Without(nodes, dp, k);
    assert DirOk(nodes, depth, d) && DirOk(nodes, depth, dp);
    if d < |nodes| && LinkedDir(nodes[d]) && d != ROOT {
      var p := nodes[d].entries[1].inum;
      var m :| 2 <= m < |nodes[p].entries| && nodes[p].entries[m].inum == d;
      assert nodes'[p].entries[m].inum == d;
    }
  }

  /** The entry of a file goes, before its count does: as if a link were pending. */
  lemma WithoutKeeps(nodes: seq<Inode>, pend: seq<nat>, depth: seq<nat>, dp: nat, k: nat, i: nat)
    requires Inv(nodes, pend, depth) && NamesAt(nodes, dp, k, i) && nodes[i].typ != T_DIR && pend[i] < NPROC
    ensures Inv(Without(nodes, dp, k), pend[i := pend[i] + 1], depth)
  {
    var nodes', pend' := Without(nodes, dp, k), pend[i := pend[i] + 1];
    NamedIsLinked(nodes, pend, depth, dp, k, i);
    WithoutCounts(nodes, dp, k, i);
    forall j: nat ensures CountOk(nodes', pend', j) {
      assert CountOk(nodes, pend, j);
      if j > 0 { WithoutCounts(nodes, dp, k, j); }
    }
    forall d: nat ensures DirOk(nodes', depth, d) { WithoutDirs(nodes, pend, depth, dp, k, i, d); }
    assert DirOk(nodes, depth, dp);
    forall q: nat, m: nat ensures EntryOk(nodes', q, m) { assert EntryOk(nodes, q, m); }
    forall q: nat, j: nat, m: nat ensures PairOk(nodes', q, j, m) { assert PairOk(nodes, q, j, m); }
  }

  // --- removing a directory ---

  ghost predicate EmptyDir(n: Inode) {
    n.typ == T_DIR && forall k | 2 <= k < |n.entries| :: n.entries[k].inum == 0
  }

  /** The named directory is linked, is not the root or the directory that names it, and points back. */
  lemma NamedDir(nodes: seq<Inode>, pend: seq<nat>, depth: seq<nat>, dp: nat, k: nat, i: nat)
    requires Inv(nodes, pend, depth) && NamesAt(nodes, dp, k, i) && nodes[i].typ == T_DIR
    ensures LinkedDir(nodes[i]) && i != ROOT && i != dp
    ensures |nodes[i].entries| >= 2 && nodes[i].entries[0] == Dirent(i, ".") && nodes[i].entries[1] == Dirent(dp, "..")
    ensures nodes[i].nlink == Count(nodes, i) && nodes[dp].nlink == Count(nodes, dp)
  {
    NamedIsLinked(nodes, pend, depth, dp, k, i);
    assert EntryOk(nodes, dp, k) && DirOk(nodes, depth, i) && DirOk(nodes, depth, dp);
    assert CountOk(nodes, pend, i) && CountOk(nodes, pend, dp);
  }

  /** An empty directory is nobody's parent. */
  lemma NoChild(nodes: seq<Inode>, pend: seq<nat>, depth: seq<nat>, i: nat, d: nat)
    requires Inv(nodes, pend, depth) && i < |nodes| && i != ROOT
    requires EmptyDir(nodes[i]) && d < |nodes| && LinkedDir(nodes[d])
    ensures |nodes[d].entries| >= 2 && nodes[d].entries[1].inum != i
  {
    assert DirOk(nodes, depth, d);
    assert !HasName(nodes, i, d);
  }

  lemma NotElsewhere(nodes: seq<Inode>, pend: seq<nat>, depth: seq<nat>, dp: nat, k: nat, i: nat, q: nat, m: nat)
    requires Inv(nodes, pend, depth) && NamesAt(nodes, dp, k, i) && EmptyDir(nodes[i])
    requires q < |nodes| && LinkedDir(nodes[q]) && m < |nodes[q].entries| && (q, m) != (dp, k)
    ensures One(nodes[q].entries[m], i) == 0
  {
    NamedDir(nodes, pend, depth, dp, k, i);
    NoChild(nodes, pend, depth, i, q);
    assert DirOk(nodes, depth, q) && EntryOk(nodes, q, m);
    assert PairOk(nodes, dp, k, m) && PairOk(nodes, dp, m, k);
  }

  /** An empty directory has one link, its name. */
  lemma OneLink(nodes: seq<Inode>, pend: seq<nat>, depth: seq<nat>, dp: nat, k: nat, i: nat)
    requires Inv(nodes, pend, depth) && NamesAt(nodes, dp, k, i) && EmptyDir(nodes[i])
    ensures Count(nodes, i) == 1
  {
    var mid := Without(nodes, dp, k);
    NamedIsLinked(nodes, pend, depth, dp, k, i);
    NamedDir(nodes, pend, depth, dp, k, i);
    WithoutCounts(nodes, dp, k, i);
    if Count(mid, i) > 0 {
      var q, m := CountWitness(mid, i);
      NotElsewhere(nodes, pend, depth, dp, k, i, q, m);
    }
  }

  lemma {:induction false} NamedHead(es: seq<Dirent>, j: nat)
    requires |es| >= 2 && j > 0 && forall k | 2 <= k < |es| :: es[k].inum == 0
    ensures Named(es, j) == One(es[0], j) + One(es[1], j)
  {
    if |es| == 2 {
      var h := es[..1];
      assert h[..0] == [];
      assert Named(h, j) == One(es[0], j);
    } else {
      NamedHead(es[..|es| - 1], j);
    }
  }

  ghost function WithoutDir(nodes: seq<Inode>, dp: nat, k: nat, i: nat): seq<Inode>
    requires dp < |nodes| && i < |nodes| && k < |nodes[dp].entries|
  {
    nodes[i := nodes[i].(nlink := nodes[i].nlink - 1)]
         [dp := Inode(nodes[dp].typ, nodes[dp].nlink - 1, nodes[dp].entries[k := UNUSED])]
  }

  /** The parent of an empty directory has another link beside that directory's "..". */
  lemma ParentStays(nodes: seq<Inode>, pend: seq<nat>, depth: seq<nat>, dp: nat, k: nat, i: nat)
    requires Inv(nodes, pend, depth) && NamesAt(nodes, dp, k, i) && EmptyDir(nodes[i])
    ensures nodes[i].nlink == 1 && nodes[dp].nlink >= 2
  {
    NamedDir(nodes, pend, depth, dp, k, i);
    OneLink(nodes, pend, depth, dp, k, i);
    var n := nodes[i].(nlink := 0);
    var y := nodes[i := n];
    CountUpdate(nodes, i, n, dp);
    NamedHead(nodes[i].entries, dp);
    assert DirOk(nodes, depth, dp);
    if dp == ROOT {
      NamedAtLeast(y[dp].entries, 1, dp);
      CountAtLeast(y, dp, dp);
    } else {
      var p := nodes[dp].entries[1].inum;
      var m :| 2 <= m < |nodes[p].entries| && nodes[p].entries[m].inum == dp;
      NamedIsLinked(nodes, pend, depth, p, m, dp);
      NamedAtLeast(y[p].entries, m, dp);
      CountAtLeast(y, p, dp);
    }
  }

  lemma RmdirCounts(nodes: seq<Inode>, pend: seq<nat>, depth: seq<nat>, dp: nat, k: nat, i: nat, j: nat)
    requires Inv(nodes, pend, depth) && NamesAt(nodes, dp, k, i) && EmptyDir(nodes[i])
    ensures CountOk(WithoutDir(nodes, dp, k, i), pend, j)
    ensures Slots(WithoutDir(nodes, dp, k, i)) == Slots(nodes)
  {
    var nodes' := WithoutDir(nodes, dp, k, i);
    NamedDir(nodes, pend, depth, dp, k, i);
    NamedIsLinked(nodes, pend, depth, dp, k, i);
    ParentStays(nodes, pend, depth, dp, k, i);
    var n := nodes[i].(nlink := nodes[i].nlink - 1);
    CountUpdate(nodes, i, n, j);
    CountUpdate(nodes[i := n], dp, nodes'[dp], j);
    assert CountOk(nodes, pend, j);
    if j > 0 {
      NamedHead(nodes[i].entries, j);
      NamedUpdate(nodes[dp].entries, k, UNUSED, j);
    }
  }

  lemma RmdirDirs(nodes: seq<Inode>, pend: seq<nat>, depth: seq<nat>, dp: nat, k: nat, i: nat, d: nat)
    requires Inv(nodes, pend, depth) && NamesAt(nodes, dp, k, i) && EmptyDir(nodes[i])
    ensures DirOk(WithoutDir(nodes, dp, k, i), depth, d)
  {
    var nodes' := WithoutDir(nodes, dp, k, i);
    NamedDir(nodes, pend, depth, dp, k, i);
    ParentStays(nodes, pend, depth, dp, k, i);
    assert DirOk(nodes, depth, d) && DirOk(nodes, depth, dp);
    if d < |nodes| && d != i && LinkedDir(nodes[d]) {
      NoChild(nodes, pend, depth, i, d);
      if d != ROOT {
        var p := nodes[d].entries[1].inum;
        var m :| 2 <= m < |nodes[p].entries| && nodes[p].entries[m].inum == d;
        assert nodes'[p].entries[m].inum == d;
      }
    }
  }

  /** An empty directory loses its name and its link, and its parent the link of its "..". */
  lemma RmdirKeeps(nodes: seq<Inode>, pend: seq<nat>, depth: seq<nat>, dp: nat, k: nat, i: nat)
    requires Inv(nodes, pend, depth) && NamesAt(nodes, dp, k, i) && EmptyDir(nodes[i])
    ensures Inv(WithoutDir(nodes, dp, k, i), pend, depth)
  {
    var nodes' := WithoutDir(nodes, dp, k, i);
    NamedDir(nodes, pend, depth, dp, k, i);
    ParentStays(nodes, pend, depth, dp, k, i);
    assert DirOk(nodes, depth, dp);
    RmdirCounts(nodes, pend, depth, dp, k, i, 0);
    forall j: nat ensures CountOk(nodes', pend, j) { RmdirCounts(nodes, pend, depth, dp, k, i, j); }
    forall d: nat ensures DirOk(nodes', depth, d) { RmdirDirs(nodes, pend, depth, dp, k, i, d); }
    forall q: nat, m: nat ensures EntryOk(nodes', q, m) { assert EntryOk(nodes, q, m); }
    forall q: nat, j: nat, m: nat ensures PairOk(nodes', q, j, m) { assert PairOk(nodes, q, j, m); }
  }

  // --- iput ---

  /** An inode without links is freed. */
  lemma FreeKeeps(nodes: seq<Inode>, pend: seq<nat>, depth: seq<nat>, i: nat)
    requires Inv(nodes, pend, depth) && 0 < i < |nodes| && nodes[i].typ != 0 && nodes[i].nlink == 0
    ensures Inv(nodes[i := Inode(0, 0, [])], pend, depth)
  {
    var nodes' := nodes[i := Inode(0, 0, [])];
    assert CountOk(nodes, pend, i);
    CountUpdate(nodes, i, nodes'[i], 0);
    forall j: nat ensures CountOk(nodes', pend, j) {
      assert CountOk(nodes, pend, j);
      CountUpdate(nodes, i, nodes'[i], j);
    }
    forall d: nat ensures DirOk(nodes', depth, d) { assert DirOk(nodes, depth, d); }
    forall q: nat, m: nat ensures EntryOk(nodes', q, m) { assert EntryOk(nodes, q, m); }
    forall q: nat, j: nat, m: nat ensures PairOk(nodes', q, j, m) { assert PairOk(nodes, q, j, m); }
  }

  // --- the tree ---

  /** The directories met by following ".." from `d`. */
  ghost predicate UpPath(nodes: seq<Inode>, path: seq<nat>) {
    && path != []
    && (forall m | 0 <= m < |path| :: path[m] < |nodes| && LinkedDir(nodes[path[m]]) && |nodes[path[m]].entries| >= 2)
    && (forall m | 0 <= m < |path| - 1 ::
          path[m + 1] == nodes[path[m]].entries[1].inum && HasName(nodes, path[m + 1], path[m]))
  }

  /** Every linked directory hangs under the root. */
  lemma {:induction false} ReachesRoot(nodes: seq<Inode>, pend: seq<nat>, depth: seq<nat>, d: nat)
    returns (path: seq<nat>)
    requires Inv(nodes, pend, depth) && d < |nodes| && LinkedDir(nodes[d])
    ensures UpPath(nodes, path) && path[0] == d && path[|path| - 1] == ROOT
    decreases depth[d]
  {
    assert DirOk(nodes, depth, d);
    if d == ROOT {
      path := [ROOT];
    } else {
      var up := ReachesRoot(nodes, pend, depth, nodes[d].entries[1].inum);
      path := [d] + up;
    }
  }
}
