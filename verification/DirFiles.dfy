/** Directories as they are stored: files of 16-byte entries, which dirlookup, dirlink and unlink read and
    write through readi and writei; and the blocks that the calls which change directories log. */
module DirFiles {
  import opened Params
  import opened Blocks
  import opened FsFormat
  import opened FsStore
  import opened Owner
  import opened Footprint
  import opened Files
  import Bio
  import Dirs
  import FileWrite
  import Links
  import Log
  import Reservation

  const ENTRY: nat := 16   // sizeof(struct dirent)

  // ---------- the format of an entry ----------

  /** The bytes of a C string of at most DIRSIZ characters. */
  predicate Plain(name: string) {
    |name| <= Links.DIRSIZ && forall k | 0 <= k < |name| :: 0 < name[k] as int < 0x100
  }

  predicate Storable(e: Links.Dirent) { e.inum < 0x1_0000 && Plain(e.name) }

  function NameByte(name: string, k: nat): Byte
    requires Plain(name)
  {
    if k < |name| then name[k] as int else 0
  }

  /** struct dirent: a 16-bit number, and the name with NULs up to DIRSIZ, as strncpy leaves it. */
  function Encode(e: Links.Dirent): (b: seq<Byte>)
    requires Storable(e)
    ensures |b| == ENTRY
  {
    [e.inum % 0x100, e.inum / 0x100] + seq(Links.DIRSIZ, k requires 0 <= k => NameByte(e.name, k))
  }

  /** strnlen. */
  function NameLength(b: seq<Byte>): (n: nat)
    ensures n <= |b| && (forall k | 0 <= k < n :: b[k] != 0) && (n < |b| ==> b[n] == 0)
  {
    if b == [] || b[0] == 0 then 0 else 1 + NameLength(b[1..])
  }

  function Decode(b: seq<Byte>): Links.Dirent
    requires |b| == ENTRY
  {
    var name := b[2..];
    var n := NameLength(name);
    Links.Dirent(b[0] as int + 0x100 * (b[1] as int), seq(n, k requires 0 <= k < n => name[k] as char))
  }

  lemma {:induction false} NameLengthIs(b: seq<Byte>, n: nat)
    requires n <= |b| && (forall k | 0 <= k < n :: b[k] != 0) && (n < |b| ==> b[n] == 0)
    ensures NameLength(b) == n
  {
    if n > 0 { NameLengthIs(b[1..], n - 1); }
  }

  /** An entry reads back as it was written. */
  lemma EntryRoundTrip(e: Links.Dirent)
    requires Storable(e)
    ensures Decode(Encode(e)) == e
  {
    var b := Encode(e);
    var name := b[2..];
    assert forall k | 0 <= k < Links.DIRSIZ :: name[k] == NameByte(e.name, k);
    NameLengthIs(name, |e.name|);
    assert Decode(b).name == e.name;
  }

  /** Whatever sixteen bytes hold can be written again. */
  lemma Decodes(b: seq<Byte>)
    requires |b| == ENTRY
    ensures Storable(Decode(b)) && Encode(Decode(b))[..2 + |Decode(b).name|] == b[..2 + |Decode(b).name|]
  {
    var e := Decode(b);
    assert forall k | 0 <= k < |e.name| :: e.name[k] as int == b[2..][k] && b[2..][k] == b[2 + k];
  }

  /** The entries of a directory that holds the bytes `c`. */
  function Entries(c: seq<Byte>): (es: seq<Links.Dirent>)
    requires |c| % ENTRY == 0
    ensures |es| == |c| / ENTRY
  {
    seq(|c| / ENTRY, k requires 0 <= k < |c| / ENTRY => Decode(c[ENTRY * k..ENTRY * k + ENTRY]))
  }

  lemma EntryAt(c: seq<Byte>, k: nat)
    requires |c| % ENTRY == 0 && k < |c| / ENTRY
    ensures ENTRY * k + ENTRY <= |c| && Entries(c)[k] == Decode(c[ENTRY * k..ENTRY * k + ENTRY])
  {
  }

  /** Writing an entry over the k-th, or at the end. */
  lemma EntrySpliced(c: seq<Byte>, k: nat, e: Links.Dirent)
    requires |c| % ENTRY == 0 && k <= |c| / ENTRY && Storable(e)
    ensures ENTRY * k <= |c| && |Splice(c, ENTRY * k, Encode(e))| % ENTRY == 0
    ensures Entries(Splice(c, ENTRY * k, Encode(e))) ==
      if k < |c| / ENTRY then Entries(c)[k := e] else Entries(c) + [e]
  {
    var c' := Splice(c, ENTRY * k, Encode(e));
    var es := if k < |c| / ENTRY then Entries(c)[k := e] else Entries(c) + [e];
    assert |c'| == if k < |c| / ENTRY then |c| else |c| + ENTRY;
    EntryRoundTrip(e);
    forall j: nat | j < |c'| / ENTRY ensures Entries(c')[j] == es[j] {
      SplicedAt(c, k, Encode(e), j);
      EntryAt(c', j);
      if j < |c| / ENTRY { EntryAt(c, j); }
    }
  }

  lemma SplicedAt(c: seq<Byte>, k: nat, b: seq<Byte>, j: nat)
    requires |c| % ENTRY == 0 && k <= |c| / ENTRY && |b| == ENTRY && ENTRY * k <= |c|
    requires j < |Splice(c, ENTRY * k, b)| / ENTRY && ENTRY * j + ENTRY <= |Splice(c, ENTRY * k, b)|
    ensures j != k ==> ENTRY * j + ENTRY <= |c|
    ensures Splice(c, ENTRY * k, b)[ENTRY * j..ENTRY * j + ENTRY] ==
      if j == k then b else c[ENTRY * j..ENTRY * j + ENTRY]
  {
  }

  // ---------- dirlookup and dirlink ----------

  /** `ip` is a directory of this file system. */
  ghost predicate IsDir(files: Files, ip: Inode)
    reads files, files.store, ip
  {
    files.AtRest() && files.Holds(ip) && ip.din.size % ENTRY == 0
  }

  ghost function EntriesOf(files: Files, ip: Inode): seq<Links.Dirent>
    requires ip.din.size % ENTRY == 0
    reads files, files.store, ip
  {
    Entries(Contents(files.store.disk, ip.din))
  }

  /** Nothing has changed. */
  twostate predicate Same(files: Files, ip: Inode)
    reads files, files.store, ip
  {
    && ip.din == old(ip.din) && files.nodes == old(files.nodes) && files.l == old(files.l)
    && files.pend == old(files.pend) && files.store.disk == old(files.store.disk)
    && files.store.used == old(files.store.used) && files.store.inodes == old(files.store.inodes)
    && files.store.writes == old(files.store.writes) && files.store.homes == old(files.store.homes)
  }

  // ---------- the tree that the disk holds ----------

  /** An inode of the disk as one of Links: its link count is a short, a directory's bytes are entries. */
  ghost function Stored(d: Disk, n: Node): Links.Inode {
    Links.Inode(n.typ, Links.Short(n.nlink),
                if n.typ == T_DIR && n.size % ENTRY == 0 then Entries(Contents(d, n)) else [])
  }

  ghost predicate StoresAt(d: Disk, n: Node, x: Links.Inode, q: nat) { Stored(d, n) == x }

  ghost predicate Stores(d: Disk, n: Node, x: Links.Inode) {
    forall q: nat {:trigger StoresAt(d, n, x, q)} :: StoresAt(d, n, x, q)
  }

  ghost predicate IsTreeAt(d: Disk, nodes: seq<Node>, t: seq<Links.Inode>, q: nat) {
    |t| == |nodes| && forall i | 0 <= i < |t| :: Stores(d, nodes[i], t[i])
  }

  /** The inodes `nodes` of the disk `d` are those of `t`. Folded (see Bio.Bcache.Valid). */
  ghost predicate IsTree(d: Disk, nodes: seq<Node>, t: seq<Links.Inode>) {
    forall q: nat {:trigger IsTreeAt(d, nodes, t, q)} :: IsTreeAt(d, nodes, t, q)
  }

  ghost predicate HoldsTree(files: Files, t: seq<Links.Inode>)
    reads files, files.store
  {
    IsTree(files.store.disk, files.nodes, t)
  }

  lemma StoresStored(d: Disk, n: Node)
    ensures Stores(d, n, Stored(d, n))
  {
    assert forall q: nat :: StoresAt(d, n, Stored(d, n), q);
  }

  /** A disk holds one tree, and no other. */
  lemma OneTree(d: Disk, nodes: seq<Node>) returns (t: seq<Links.Inode>)
    ensures IsTree(d, nodes, t) && forall t' | IsTree(d, nodes, t') :: t' == t
  {
    t := seq<Links.Inode>(|nodes|, i requires 0 <= i < |nodes| => Stored(d, nodes[i]));
    forall i | 0 <= i < |nodes| ensures Stores(d, nodes[i], t[i]) { StoresStored(d, nodes[i]); }
    assert forall q: nat :: IsTreeAt(d, nodes, t, q);
    forall t' | IsTree(d, nodes, t') ensures t' == t {
      assert IsTreeAt(d, nodes, t', 0);
      assert forall i | 0 <= i < |t| :: StoresAt(d, nodes[i], t'[i], 0);
    }
  }

  lemma TreeNode(d: Disk, nodes: seq<Node>, t: seq<Links.Inode>, i: nat)
    requires IsTree(d, nodes, t) && i < |nodes|
    ensures |t| == |nodes| && Stores(d, nodes[i], t[i])
  {
    assert IsTreeAt(d, nodes, t, 0);
  }

  /** No file but those of the inodes `i` and `j` has changed. */
  ghost predicate OnlyTwo(d0: Disk, nodes0: seq<Node>, d: Disk, nodes: seq<Node>, i: nat, j: nat) {
    && |nodes| == |nodes0|
    && forall k: nat {:trigger FileWrite.SameFile(d0, nodes0, d, nodes, k)} | k < |nodes| && k != i && k != j ::
         FileWrite.SameFile(d0, nodes0, d, nodes, k)
  }

  lemma OnlyOne(d0: Disk, nodes0: seq<Node>, d: Disk, nodes: seq<Node>, i: nat, j: nat)
    requires FileWrite.SameFiles(d0, nodes0, d, nodes, i)
    ensures OnlyTwo(d0, nodes0, d, nodes, i, j) && OnlyTwo(d0, nodes0, d, nodes, j, i)
  {
  }

  lemma OnlyTwice(d0: Disk, nodes0: seq<Node>, d1: Disk, nodes1: seq<Node>, d: Disk, nodes: seq<Node>, i: nat, j: nat)
    requires OnlyTwo(d0, nodes0, d1, nodes1, i, j) && OnlyTwo(d1, nodes1, d, nodes, i, j)
    ensures OnlyTwo(d0, nodes0, d, nodes, i, j)
  {
    forall k: nat | k < |nodes| && k != i && k != j ensures FileWrite.SameFile(d0, nodes0, d, nodes, k) {
      assert FileWrite.SameFile(d0, nodes0, d1, nodes1, k) && FileWrite.SameFile(d1, nodes1, d, nodes, k);
    }
  }

  lemma OnlyTwoMore(d0: Disk, nodes0: seq<Node>, d1: Disk, nodes1: seq<Node>, d: Disk, nodes: seq<Node>,
                    i: nat, j: nat)
    requires OnlyTwo(d0, nodes0, d1, nodes1, i, j)
    requires FileWrite.SameFiles(d1, nodes1, d, nodes, i) || FileWrite.SameFiles(d1, nodes1, d, nodes, j)
    ensures OnlyTwo(d0, nodes0, d, nodes, i, j)
  {
    if FileWrite.SameFiles(d1, nodes1, d, nodes, i) {
      OnlyOne(d1, nodes1, d, nodes, i, j);
    } else {
      OnlyOne(d1, nodes1, d, nodes, j, i);
    }
    OnlyTwice(d0, nodes0, d1, nodes1, d, nodes, i, j);
  }

  lemma StoresSame(d0: Disk, nodes0: seq<Node>, d: Disk, nodes: seq<Node>, k: nat, x: Links.Inode)
    requires k < |nodes| == |nodes0| && Stores(d0, nodes0[k], x) && FileWrite.SameFile(d0, nodes0, d, nodes, k)
    ensures Stores(d, nodes[k], x)
  {
    assert StoresAt(d0, nodes0[k], x, 0);
    assert forall q: nat :: StoresAt(d, nodes[k], x, q);
  }

  lemma TwoChanged(d0: Disk, nodes0: seq<Node>, d: Disk, nodes: seq<Node>, t: seq<Links.Inode>,
                   i: nat, x: Links.Inode, j: nat, y: Links.Inode)
    requires IsTree(d0, nodes0, t) && i < |nodes| && j < |nodes| && i != j && OnlyTwo(d0, nodes0, d, nodes, i, j)
    requires Stores(d, nodes[i], x) && Stores(d, nodes[j], y)
    ensures |t| == |nodes| && IsTree(d, nodes, t[i := x][j := y])
  {
    assert IsTreeAt(d0, nodes0, t, 0);
    var t' := t[i := x][j := y];
    forall k: nat | k < |nodes| ensures Stores(d, nodes[k], t'[k]) {
      if k != i && k != j { StoresSame(d0, nodes0, d, nodes, k, t[k]); }
    }
    assert forall q: nat :: IsTreeAt(d, nodes, t', q);
  }

  lemma SameTree(d0: Disk, nodes0: seq<Node>, d: Disk, nodes: seq<Node>, t: seq<Links.Inode>, i: nat)
    requires IsTree(d0, nodes0, t) && i < |nodes| && FileWrite.SameFiles(d0, nodes0, d, nodes, i)
    requires FileWrite.SameFile(d0, nodes0, d, nodes, i)
    ensures IsTree(d, nodes, t)
  {
    assert IsTreeAt(d0, nodes0, t, 0);
    forall k: nat | k < |nodes| ensures Stores(d, nodes[k], t[k]) {
      StoresSame(d0, nodes0, d, nodes, k, t[k]);
    }
    assert forall q: nat :: IsTreeAt(d, nodes, t, q);
  }

  ghost predicate ListsAt(d: Disk, n: Node, es: seq<Links.Dirent>, q: nat) {
    n.size % ENTRY == 0 && Entries(Contents(d, n)) == es
  }

  /** The file of inode `n` holds the entries `es`. Folded. */
  ghost predicate Lists(d: Disk, n: Node, es: seq<Links.Dirent>) {
    forall q: nat {:trigger ListsAt(d, n, es, q)} :: ListsAt(d, n, es, q)
  }

  lemma IsLists(d: Disk, n: Node, es: seq<Links.Dirent>)
    requires n.size % ENTRY == 0 && Entries(Contents(d, n)) == es
    ensures Lists(d, n, es)
  {
    assert forall q: nat :: ListsAt(d, n, es, q);
  }

  lemma DirStores(d: Disk, n: Node, es: seq<Links.Dirent>)
    requires Lists(d, n, es) && n.typ == T_DIR
    ensures Stores(d, n, Links.Inode(T_DIR, Links.Short(n.nlink), es))
  {
    assert ListsAt(d, n, es, 0);
    StoresStored(d, n);
  }

  lemma FileStores(d: Disk, n: Node)
    requires n.typ != T_DIR
    ensures Stores(d, n, Links.Inode(n.typ, Links.Short(n.nlink), []))
  {
    StoresStored(d, n);
  }

  lemma CountStores(d0: Disk, n0: Node, x: Links.Inode, d: Disk, n: Node)
    requires Stores(d0, n0, x) && n == n0.(nlink := n.nlink) && Contents(d, n) == Contents(d0, n0)
    ensures Stores(d, n, x.(nlink := Links.Short(n.nlink))) && x.nlink == Links.Short(n0.nlink) && x.typ == n.typ
  {
    assert StoresAt(d0, n0, x, 0);
    StoresStored(d, n);
  }

  lemma StoresOne(d: Disk, n: Node, x: Links.Inode, y: Links.Inode)
    requires Stores(d, n, x) && Stores(d, n, y)
    ensures x == y
  {
    assert StoresAt(d, n, x, 0) && StoresAt(d, n, y, 0);
  }

  /** What is stored for a directory, before and after. */
  lemma DirNode(d0: Disk, nodes0: seq<Node>, t: seq<Links.Inode>, d: Disk, n: Node, dp: nat,
                es: seq<Links.Dirent>, es': seq<Links.Dirent>)
    requires IsTree(d0, nodes0, t) && dp < |nodes0| && nodes0[dp].typ == T_DIR && n.typ == T_DIR
    requires Lists(d0, nodes0[dp], es) && Lists(d, n, es')
    ensures |t| == |nodes0| && t[dp] == Links.Inode(T_DIR, Links.Short(nodes0[dp].nlink), es)
    ensures Stores(d, n, Links.Inode(T_DIR, Links.Short(n.nlink), es'))
  {
    TreeNode(d0, nodes0, t, dp);
    DirStores(d0, nodes0[dp], es);
    StoresOne(d0, nodes0[dp], t[dp], Links.Inode(T_DIR, Links.Short(nodes0[dp].nlink), es));
    DirStores(d, n, es');
  }

  /** A file or a device has been made. */
  lemma CreatedTree(d0: Disk, nodes0: seq<Node>, d: Disk, nodes: seq<Node>, t: seq<Links.Inode>, dp: nat,
                    e: Links.Dirent, es: seq<Links.Dirent>)
    requires IsTree(d0, nodes0, t) && dp < |nodes| && e.inum < |nodes| && dp != e.inum
    requires OnlyTwo(d0, nodes0, d, nodes, e.inum, dp)
    requires nodes[e.inum].typ != T_DIR && nodes[e.inum].nlink == 1
    requires nodes0[dp].typ == T_DIR && nodes[dp].typ == T_DIR && nodes[dp].nlink == nodes0[dp].nlink
    requires Lists(d0, nodes0[dp], es) && Lists(d, nodes[dp], Links.WithEntry(es, e))
    ensures |t| == |nodes| && IsTree(d, nodes, Dirs.AfterCreate(t, dp, e.name, e.inum, nodes[e.inum].typ))
  {
    var es' := Links.WithEntry(es, e);
    DirNode(d0, nodes0, t, d, nodes[dp], dp, es, es');
    FileStores(d, nodes[e.inum]);
    TwoChanged(d0, nodes0, d, nodes, t, e.inum, Links.Inode(nodes[e.inum].typ, 1, []), dp, t[dp].(entries := es'));
  }

  /** A file has a second name. */
  lemma LinkedTree(d0: Disk, nodes0: seq<Node>, d: Disk, nodes: seq<Node>, t: seq<Links.Inode>, dp: nat,
                   e: Links.Dirent, es: seq<Links.Dirent>)
    requires IsTree(d0, nodes0, t) && dp < |nodes| && e.inum < |nodes| && dp != e.inum
    requires OnlyTwo(d0, nodes0, d, nodes, e.inum, dp)
    requires nodes[e.inum] == nodes0[e.inum].(nlink := (nodes0[e.inum].nlink + 1) % 0x1_0000)
    requires Contents(d, nodes[e.inum]) == Contents(d0, nodes0[e.inum])
    requires nodes0[dp].typ == T_DIR && nodes[dp].typ == T_DIR && nodes[dp].nlink == nodes0[dp].nlink
    requires Lists(d0, nodes0[dp], es) && Lists(d, nodes[dp], Links.WithEntry(es, e))
    ensures |t| == |nodes| &&
      IsTree(d, nodes, Dirs.AfterLink(t, dp, e.name, e.inum))
  {
    var es' := Links.WithEntry(es, e);
    DirNode(d0, nodes0, t, d, nodes[dp], dp, es, es');
    TreeNode(d0, nodes0, t, e.inum);
    CountStores(d0, nodes0[e.inum], t[e.inum], d, nodes[e.inum]);
    Links.ShortSum(nodes0[e.inum].nlink, 1);
    TwoChanged(d0, nodes0, d, nodes, t, e.inum, t[e.inum].(nlink := Links.Short(t[e.inum].nlink + 1)),
               dp, t[dp].(entries := es'));
  }

  /** A directory has been made. */
  lemma MadeTree(d0: Disk, nodes0: seq<Node>, d: Disk, nodes: seq<Node>, t: seq<Links.Inode>, dp: nat,
                 e: Links.Dirent, es: seq<Links.Dirent>)
    requires IsTree(d0, nodes0, t) && dp < |nodes| && e.inum < |nodes| && dp != e.inum
    requires OnlyTwo(d0, nodes0, d, nodes, e.inum, dp)
    requires nodes[e.inum].typ == T_DIR && nodes[e.inum].nlink == 1
    requires nodes0[dp].typ == T_DIR && nodes[dp].typ == T_DIR
    requires nodes[dp].nlink == (nodes0[dp].nlink + 1) % 0x1_0000
    requires Lists(d, nodes[e.inum], Links.Dots(e.inum, dp))
    requires Lists(d0, nodes0[dp], es) && Lists(d, nodes[dp], Links.WithEntry(es, e))
    ensures |t| == |nodes| && IsTree(d, nodes, Dirs.AfterMkdir(t, dp, e.name, e.inum))
  {
    var es', c := Links.WithEntry(es, e), Links.Inode(T_DIR, 1, Links.Dots(e.inum, dp));
    DirNode(d0, nodes0, t, d, nodes[dp], dp, es, es');
    DirStores(d, nodes[e.inum], Links.Dots(e.inum, dp));
    Links.ShortSum(nodes0[dp].nlink, 1);
    var up := Links.Short(t[dp].nlink + 1);
    TwoChanged(d0, nodes0, d, nodes, t, e.inum, c, dp, Links.Inode(T_DIR, up, es'));
    assert Dirs.AfterMkdir(t, dp, e.name, e.inum) == t[e.inum := c][dp := Links.Inode(T_DIR, up, es')];
  }

  /** An entry has been removed, and with it perhaps what it named. */
  lemma UnlinkedTree(d0: Disk, nodes0: seq<Node>, d: Disk, nodes: seq<Node>, t: seq<Links.Inode>, dp: nat,
                     i: nat, es: seq<Links.Dirent>, k: nat, last: bool)
    requires IsTree(d0, nodes0, t) && dp < |nodes| && i < |nodes| && dp != i && OnlyTwo(d0, nodes0, d, nodes, dp, i)
    requires nodes[i].nlink == nodes0[i].nlink - 1
    requires last && nodes[i].nlink == 0 ==> nodes[i].typ == 0
    requires !(last && nodes[i].nlink == 0) ==>
      nodes[i] == nodes0[i].(nlink := nodes[i].nlink) && Contents(d, nodes[i]) == Contents(d0, nodes0[i])
    requires nodes0[dp].typ == T_DIR && nodes[dp].typ == T_DIR
    requires nodes[dp].nlink == (nodes0[dp].nlink - if nodes0[i].typ == T_DIR then 1 else 0) % 0x1_0000
    requires k < |es| && Lists(d0, nodes0[dp], es) && Lists(d, nodes[dp], es[k := Links.UNUSED])
    ensures |t| == |nodes| && |t[dp].entries| == |es| && IsTree(d, nodes, Dirs.AfterUnlink(t, dp, k, i, last))
  {
    DirNode(d0, nodes0, t, d, nodes[dp], dp, es, es[k := Links.UNUSED]);
    TreeNode(d0, nodes0, t, i);
    CountStores(d0, nodes0[i], t[i], d0, nodes0[i]);
    Links.ShortSum(nodes0[dp].nlink, -1);
    Links.ShortSum(nodes0[dp].nlink, 0);
    Links.ShortSum(nodes0[i].nlink, -1);
    var up, n := Links.Short(nodes[dp].nlink), Links.Short(nodes[i].nlink);
    var x := if last && n == 0 then Links.Inode(0, 0, []) else t[i].(nlink := n);
    if last && nodes[i].nlink == 0 {
      FileStores(d, nodes[i]);
    } else {
      CountStores(d0, nodes0[i], t[i], d, nodes[i]);
    }
    TwoChanged(d0, nodes0, d, nodes, t, dp, Links.Inode(T_DIR, up, es[k := Links.UNUSED]), i, x);
  }

  // ---------- one entry ----------

  /** readi of one entry. */
  method ReadEntry(files: Files, ip: Inode, k: nat) returns (e: Links.Dirent)
    requires IsDir(files, ip) && k < ip.din.size / ENTRY
    modifies files, ip, files.store`disk, files.store`writes, files.store`homes, files.store`used
    ensures Same(files, ip) && IsDir(files, ip)
    ensures e == EntriesOf(files, ip)[k]
  {
    ghost var c := Contents(files.store.disk, ip.din);
    assert Covers(files.l, ip.inum, files.nodes[ip.inum]);
    EntryAt(c, k);
    var r, b := files.Readi(ip, ENTRY * k, ENTRY);
    e := Decode(b);
  }

  /** dirlookup: the first used entry of that name, or the end. */
  method Dirlookup(files: Files, ip: Inode, name: string) returns (k: nat)
    requires IsDir(files, ip) && Plain(name)
    modifies files, ip, files.store`disk, files.store`writes, files.store`homes, files.store`used
    ensures Same(files, ip) && IsDir(files, ip)
    ensures var es := EntriesOf(files, ip);
      && k <= |es| && (forall j | 0 <= j < k && es[j].inum != 0 :: es[j].name != name)
      && (k < |es| ==> es[k].inum != 0 && es[k].name == name)
  {
    ghost var es := EntriesOf(files, ip);
    k := 0;
    while k < ip.din.size / ENTRY
      invariant IsDir(files, ip) && Same(files, ip)
      invariant k <= |es| && forall j | 0 <= j < k && es[j].inum != 0 :: es[j].name != name
    {
      var e := ReadEntry(files, ip, k);
      if e.inum != 0 && e.name == name {
        return;
      }
      k := k + 1;
    }
  }

  /** dirlink's search for an entry that is free. */
  method FindFree(files: Files, ip: Inode) returns (k: nat)
    requires IsDir(files, ip)
    modifies files, ip, files.store`disk, files.store`writes, files.store`homes, files.store`used
    ensures Same(files, ip) && IsDir(files, ip)
    ensures k == Links.FirstFree(EntriesOf(files, ip))
  {
    ghost var es := EntriesOf(files, ip);
    k := 0;
    while k < ip.din.size / ENTRY
      invariant IsDir(files, ip) && Same(files, ip)
      invariant k <= |es| && forall j | 0 <= j < k :: es[j].inum != 0
    {
      var e := ReadEntry(files, ip, k);
      if e.inum == 0 {
        return;
      }
      k := k + 1;
    }
  }

  lemma FirstMapBlock(sb: Super, b: nat)
    requires b < sb.size <= BPB
    ensures MapBlock(sb, b) == sb.bmapstart
  {
  }

  lemma FillsIs(sb: Super, l0: Layout, l: Layout, i: nat, lo: nat, a: nat, data: nat, ind: nat)
    requires Gained(l0, l, i, lo, lo + 1) && Fills(sb, l0, l, i, a)
    requires sb.size <= BPB && forall x | x in l :: l[x] < sb.size
    requires Slot(i, lo) in l && data == l[Slot(i, lo)]
    requires ind == if Slot(i, INDIRECT) in l then l[Slot(i, INDIRECT)] else data
    ensures a == sb.bmapstart || a == data || a == ind
  {
    var x :| x in l && x !in l0 && LogsFor(sb, l, i, x, a);
    FirstMapBlock(sb, l[x]);
    assert x == Slot(i, x.s);
  }

  /** What writing into one block of a file logs, on a disk with one bitmap block. */
  lemma OneBlock(sb: Super, t0: Track, t: Track, i: nat, lo: nat, meta: set<nat>) returns (data: nat, ind: nat)
    requires Wrote(sb, t0, t, i, lo, lo + 1, meta) && sb.size <= BPB && forall x | x in t.l :: t.l[x] < sb.size
    ensures t.h <= t0.h + meta + {sb.bmapstart, data, ind}
  {
    var hi := lo + 1;
    assert GainedAt(t0, t, i, lo, hi, 0);
    data := t.l[Slot(i, lo)];
    ind := if Slot(i, INDIRECT) in t.l then t.l[Slot(i, INDIRECT)] else data;
    forall a | a in t.h ensures a in t0.h || a in meta || a == sb.bmapstart || a == data || a == ind {
      assert WroteAt(sb, t0, t, i, lo, hi, meta, a);
      if Fills(sb, t0.l, t.l, i, a) { FillsIs(sb, t0.l, t.l, i, lo, a, data, ind); }
    }
  }

  /** A directory of `size` bytes can take one more entry on a disk of `total` blocks with `used` in use. */
  predicate Fits(size: nat, used: nat, total: nat) {
    size + ENTRY <= FileWrite.LIMIT && used + MoreSlots(size, size + ENTRY) <= total
  }

  ghost predicate Room(files: Files, size: nat)
    reads files.store
  {
    Fits(size, |files.store.used|, files.store.sb.size)
  }

  /** The sixteen bytes of an entry lie in one block. */
  lemma InOneBlock(k: nat) returns (off: nat, bn: nat)
    ensures off == ENTRY * k && bn == off / BSIZE && EndBlock(off, ENTRY) == bn + 1
  {
    off := ENTRY * k;
    bn := k / 32;
    var r := k % 32;
    assert off == 512 * bn + 16 * r && off + 15 < 512 * bn + 512;
    Quotient(off, bn);
    Quotient(off + 15, bn);
  }

  lemma Quotient(a: nat, q: nat)
    requires 512 * q <= a < 512 * q + 512
    ensures a / BSIZE == q
  {
  }

  /** An entry in place takes no block; one at the end lies at the end. */
  lemma SlotsForEntry(size: nat, k: nat, off: nat, more: int)
    requires size % ENTRY == 0 && k <= size / ENTRY && off == ENTRY * k && Gains(size, off + ENTRY, more)
    ensures k < size / ENTRY ==> off + ENTRY <= size && more == 0
    ensures k == size / ENTRY ==> off == size && more == MoreSlots(size, size + ENTRY)
  {
    assert GainsIs(size, off + ENTRY, more, 0);
  }

  lemma EntryFits(size: nat, k: nat, off: nat, more: int, used: nat, total: nat)
    requires size % ENTRY == 0 && k <= size / ENTRY && off == ENTRY * k && Gains(size, off + ENTRY, more)
    requires size <= FileWrite.LIMIT && used <= total
    ensures (k < size / ENTRY || Fits(size, used, total)) <==>
      (off <= size && off + ENTRY <= FileWrite.LIMIT && used + more <= total)
  {
    SlotsForEntry(size, k, off, more);
  }

  /** writei of the sixteen bytes `b`; what is logged are the inode's block, the bitmap, `data` and `ind`. */
  method WriteBytes(files: Files, ip: Inode, b: seq<Byte>, off: Word, ghost bn: nat)
    returns (r: IoResult, ghost more: int, ghost data: nat, ghost ind: nat)
    requires files.AtRest() && files.Holds(ip) && FileWrite.Small(files) && |b| == ENTRY
    requires bn == off / BSIZE && EndBlock(off, ENTRY) == bn + 1
    modifies files, ip, files.store`disk, files.store`used, files.store`inodes, files.store`writes, files.store`homes
    ensures Gains(old(ip.din.size), off + ENTRY, more) && |old(files.store.used)| <= files.store.sb.size
    ensures r.Error? <==> off > old(ip.din.size) || off + ENTRY > FileWrite.LIMIT
    ensures r.Panic? <==> !r.Error? && |old(files.store.used)| + more > files.store.sb.size
    ensures r.Done? ==>
      && files.AtRest() && files.Holds(ip) && |files.nodes| == |old(files.nodes)| == files.store.sb.ninodes
      && ip.din == old(ip.din).(addrs := ip.din.addrs, size := Max(old(ip.din.size), off + ENTRY))
      && (off + ENTRY <= old(ip.din.size) ==> ip.din == old(ip.din))
      && |files.store.used| == |old(files.store.used)| + more
      && Contents(files.store.disk, ip.din) == Splice(old(Contents(files.store.disk, ip.din)), off, b)
      && FileWrite.SameFiles(old(files.store.disk), old(files.nodes), files.store.disk, files.nodes, ip.inum)
      && files.store.homes <=
           old(files.store.homes) + {InodeBlock(files.store.sb, ip.inum), files.store.sb.bmapstart, data, ind}
  {
    ghost var size, t0 := ip.din.size, files.Now();
    UsedFits(files.store.used, files.store.sb.size);
    more := GainsOf(size, off + ENTRY);
    r := files.Writei(ip, b, off);
    data, ind := 0, 0;
    if r.Done? {
      FileWrite.LayoutFacts(files);
      ghost var meta := if off + ENTRY > size then {InodeBlock(files.store.sb, ip.inum)} else {};
      data, ind := OneBlock(files.store.sb, t0, files.Now(), ip.inum, bn, meta);
    }
  }

  /** writei of one entry, over the k-th or at the end; false where it panics. At most four blocks are
      logged: the inode's, the bitmap, `data` and `ind`. */
  method WriteEntry(files: Files, ip: Inode, k: nat, e: Links.Dirent)
    returns (ok: bool, ghost data: nat, ghost ind: nat)
    requires IsDir(files, ip) && k <= ip.din.size / ENTRY && Storable(e) && FileWrite.Small(files)
    modifies files, ip, files.store`disk, files.store`used, files.store`inodes, files.store`writes, files.store`homes
    ensures ok <==> k < old(ip.din.size) / ENTRY || old(Room(files, ip.din.size))
    ensures ok ==>
      && IsDir(files, ip) && |files.nodes| == |old(files.nodes)| == files.store.sb.ninodes
      && ip.din == old(ip.din).(addrs := ip.din.addrs, size := ip.din.size)
      && (k < old(ip.din.size) / ENTRY ==> ip.din == old(ip.din))
      && |files.store.used| == |old(files.store.used)| +
           (if k < old(ip.din.size) / ENTRY then 0 else MoreSlots(old(ip.din.size), old(ip.din.size) + ENTRY))
      && EntriesOf(files, ip) == (var es := old(EntriesOf(files, ip)); if k < |es| then es[k := e] else es + [e])
      && FileWrite.SameFiles(old(files.store.disk), old(files.nodes), files.store.disk, files.nodes, ip.inum)
      && files.store.homes <=
           old(files.store.homes) + {InodeBlock(files.store.sb, ip.inum), files.store.sb.bmapstart, data, ind}
  {
    ghost var c, size, used := Contents(files.store.disk, ip.din), ip.din.size, |files.store.used|;
    assert Covers(files.l, ip.inum, files.nodes[ip.inum]);
    ghost var off, bn := InOneBlock(k);
    var r;
    ghost var more;
    r, more, data, ind := WriteBytes(files, ip, Encode(e), ENTRY * k, bn);
    SlotsForEntry(size, k, off, more);
    EntryFits(size, k, off, more, used, files.store.sb.size);
    ok := r.Done?;
    if ok { EntrySpliced(c, k, e); }
  }

  /** dirlink does to the stored entries what Dirs.Tree.Dirlink does to a directory of Links, with `room`
      meaning that the largest file and the free blocks allow one more entry. */
  method Dirlink(files: Files, dp: Inode, e: Links.Dirent)
    returns (r: Dirs.LinkResult, ghost data: nat, ghost ind: nat)
    requires IsDir(files, dp) && Storable(e) && FileWrite.Small(files)
    modifies files, dp, files.store`disk, files.store`used, files.store`inodes, files.store`writes, files.store`homes
    ensures r.Exists? <==> !Links.Lacks(old(EntriesOf(files, dp)), e.name)
    ensures r.Full? <==>
      && !r.Exists? && !old(Room(files, dp.din.size))
      && Links.FirstFree(old(EntriesOf(files, dp))) == |old(EntriesOf(files, dp))|
    ensures r.Exists? ==> Same(files, dp) && IsDir(files, dp)
    ensures r.Done? ==>
      && IsDir(files, dp) && |files.nodes| == |old(files.nodes)| == files.store.sb.ninodes
      && dp.din == old(dp.din).(addrs := dp.din.addrs, size := dp.din.size)
      && EntriesOf(files, dp) == Links.WithEntry(old(EntriesOf(files, dp)), e)
      && |files.store.used| == |old(files.store.used)| +
           (if Links.FirstFree(old(EntriesOf(files, dp))) < old(dp.din.size) / ENTRY then 0
            else MoreSlots(old(dp.din.size), old(dp.din.size) + ENTRY))
      && FileWrite.SameFiles(old(files.store.disk), old(files.nodes), files.store.disk, files.nodes, dp.inum)
      && files.store.homes <=
           old(files.store.homes) + {InodeBlock(files.store.sb, dp.inum), files.store.sb.bmapstart, data, ind}
  {
    data, ind := 0, 0;
    var k := Dirlookup(files, dp, e.name);
    if k < dp.din.size / ENTRY {
      return Dirs.Exists, 0, 0;
    }
    k := FindFree(files, dp);
    var ok;
    ok, data, ind := WriteEntry(files, dp, k, e);
    r := if ok then Dirs.LinkResult.Done else Dirs.Full;
  }

  /** iupdate, between system calls: no file's bytes change. */
  method Touch(files: Files, ip: Inode, n: Node)
    requires files.AtRest() && files.Holds(ip)
    requires n == ip.din.(typ := n.typ, nlink := n.nlink, major := n.major, minor := n.minor)
    modifies files`nodes, ip, files.store`disk, files.store`writes, files.store`homes, files.store`inodes
    ensures files.AtRest() && files.Holds(ip) && ip.din == n && files.nodes == old(files.nodes)[ip.inum := n]
    ensures ip.inum < files.store.sb.ninodes == |files.nodes|
    ensures files.store.homes == old(files.store.homes) + {InodeBlock(files.store.sb, ip.inum)}
    ensures forall j | 0 <= j < |files.nodes| ::
      Contents(files.store.disk, files.nodes[j]) == old(Contents(files.store.disk, files.nodes[j]))
    ensures FileWrite.SameFiles(old(files.store.disk), old(files.nodes), files.store.disk, files.nodes, ip.inum)
  {
    ghost var d, nodes := files.store.disk, files.nodes;
    files.AllHeld();
    assert forall j | 0 <= j < |nodes| :: Covers(files.l, j, nodes[j]);
    files.UpdateInode(ip, n);
    forall j: nat | j < |nodes|
      ensures Contents(files.store.disk, files.nodes[j]) == Contents(d, nodes[j]) && Covers(files.l, j, files.nodes[j])
    {
      files.MetaOnly(d, j, Contents(d, nodes[j]));
      files.ContentsAre(j, Contents(d, nodes[j]));
    }
  }

  // ---------- what the calls log ----------

  lemma ThreeMore(q: set<nat>, x: nat, y: nat, z: nat)
    ensures |q + {x, y, z}| <= |q| + 3
  {
    assert q + {x, y, z} == q + {x} + {y} + {z};
  }

  lemma FiveAtMost(a: nat, b: nat, x: nat, y: nat, z: nat)
    ensures |{a, b, x, y, z}| <= 5
  {
    ThreeMore({a, b}, x, y, z);
    assert {a, b} + {x, y, z} == {a, b, x, y, z};
  }

  /** The updates since begin_op, when the disk was `d`, have been recorded and go to at most `n` blocks. */
  ghost predicate Logs(files: Files, d: Disk, n: nat)
    reads files.store
  {
    && files.store.Recorded() && files.store.base == d
    && files.store.disk == Bio.Apply(d, files.store.writes) && |Bio.Addrs(files.store.writes)| <= n
  }

  lemma Recorded(files: Files, d: Disk, q: set<nat>)
    requires files.store.Recorded() && files.store.base == d && files.store.homes <= q
    ensures Logs(files, d, |q|)
  {
    assert files.store.RecordedAt(0);
    Bio.Subset(files.store.homes, q);
  }

  /** Nothing but the number of links, the address and the size of a directory has changed. */
  predicate Regrown(n0: Node, n: Node, nlink: Half) {
    n == n0.(nlink := nlink, addrs := n.addrs, size := n.size)
  }

  /** create, for a file or a device: the name is looked up; a free inode becomes that of the new file, and
      its entry is written. Full is the panic. */
  method CreateOp(files: Files, dp: Inode, ip: Inode, name: string, typ: Half, major: Half, minor: Half,
                  ghost t: seq<Links.Inode>)
    returns (r: Dirs.LinkResult)
    requires IsDir(files, dp) && files.Holds(ip) && ip != dp && ip.inum != dp.inum && FileWrite.Small(files)
    requires Plain(name) && ip.inum < 0x1_0000 && ip.din.size == 0 && HoldsTree(files, t)
    modifies files, dp, ip, files.store
    ensures r.Exists? <==> !Links.Lacks(old(EntriesOf(files, dp)), name)
    ensures r.Full? <==>
      && !r.Exists? && !old(Room(files, dp.din.size))
      && Links.FirstFree(old(EntriesOf(files, dp))) == |old(EntriesOf(files, dp))|
    ensures r.Exists? ==> IsDir(files, dp) && HoldsTree(files, t) && files.store.writes == []
    ensures r.Done? ==>
      && EntriesIn(files, dp, Links.WithEntry(old(EntriesOf(files, dp)), Links.Dirent(ip.inum, name)))
      && Regrown(old(dp.din), dp.din, old(dp.din.nlink))
      && files.Holds(ip) && ip.din == old(ip.din).(typ := typ, major := major, minor := minor, nlink := 1)
      && Logs(files, old(files.store.disk), 5)
    ensures r.Done? && old(dp.din.typ) == T_DIR != typ ==>
      && ip.inum < |t| && dp.inum < |t|
      && HoldsTree(files, Dirs.AfterCreate(t, dp.inum, name, ip.inum, typ))
  {
    ghost var d := files.store.disk;
    files.Begin();
    var k := Dirlookup(files, dp, name);
    if k < dp.din.size / ENTRY {
      return Dirs.Exists;
    }
    ghost var nodes0, e, es := files.nodes, Links.Dirent(ip.inum, name), EntriesOf(files, dp);
    IsLists(d, dp.din, es);
    Touch(files, ip, ip.din.(typ := typ, major := major, minor := minor, nlink := 1));
    ghost var d1, nodes1 := files.store.disk, files.nodes;
    assert EntriesOf(files, dp) == old(EntriesOf(files, dp));
    ghost var data, ind;
    r, data, ind := Dirlink(files, dp, Links.Dirent(ip.inum, name));
    if r.Done? {
      var sb := files.store.sb;
      assert FileWrite.SameFile(d1, nodes1, files.store.disk, files.nodes, ip.inum);
      FiveAtMost(InodeBlock(sb, ip.inum), InodeBlock(sb, dp.inum), sb.bmapstart, data, ind);
      Recorded(files, d, {InodeBlock(sb, ip.inum), InodeBlock(sb, dp.inum), sb.bmapstart, data, ind});
      IsLists(files.store.disk, dp.din, Links.WithEntry(es, e));
      OnlyOne(d, nodes0, d1, nodes1, ip.inum, dp.inum);
      OnlyTwoMore(d, nodes0, d1, nodes1, files.store.disk, files.nodes, ip.inum, dp.inum);
      if old(dp.din.typ) == T_DIR != typ { CreatedTree(d, nodes0, files.store.disk, files.nodes, t, dp.inum, e, es); }
    }
  }

  /** The second half of sys_link, with the count taken back where the name exists. */
  method EnterOrUndo(files: Files, dp: Inode, ip: Inode, name: string, din: Node)
    returns (r: Dirs.LinkResult, ghost q: set<nat>)
    requires IsDir(files, dp) && files.Holds(ip) && ip != dp && ip.inum != dp.inum && FileWrite.Small(files)
    requires Plain(name) && ip.inum < 0x1_0000 && din == ip.din.(nlink := din.nlink)
    modifies files, dp, ip
    modifies files.store`disk, files.store`used, files.store`inodes, files.store`writes, files.store`homes
    ensures r.Exists? <==> !Links.Lacks(old(EntriesOf(files, dp)), name)
    ensures r.Full? <==>
      && !r.Exists? && !old(Room(files, dp.din.size))
      && Links.FirstFree(old(EntriesOf(files, dp))) == |old(EntriesOf(files, dp))|
    ensures r.Done? ==>
      EntriesIn(files, dp, Links.WithEntry(old(EntriesOf(files, dp)), Links.Dirent(ip.inum, name)))
    ensures r.Exists? ==> EntriesIn(files, dp, old(EntriesOf(files, dp))) && dp.din == old(dp.din)
    ensures !r.Full? ==>
      && files.Holds(ip) && ip.din == (if r.Done? then old(ip.din) else din)
      && Contents(files.store.disk, ip.din) == old(Contents(files.store.disk, ip.din))
      && Regrown(old(dp.din), dp.din, old(dp.din.nlink))
      && FileWrite.SameFiles(old(files.store.disk), old(files.nodes), files.store.disk, files.nodes,
                             if r.Done? then dp.inum else ip.inum)
    ensures !r.Full? ==>
      && ip.inum < files.store.sb.ninodes && |q| <= 5 && InodeBlock(files.store.sb, ip.inum) in q
      && files.store.homes <= old(files.store.homes) + q
  {
    ghost var d1, nodes1 := files.store.disk, files.nodes;
    ghost var data, ind;
    r, data, ind := Dirlink(files, dp, Links.Dirent(ip.inum, name));
    var sb := files.store.sb;
    q := {};
    if r.Done? {
      assert FileWrite.SameFile(d1, nodes1, files.store.disk, files.nodes, ip.inum);
      q := {InodeBlock(sb, ip.inum), InodeBlock(sb, dp.inum), sb.bmapstart, data, ind};
      FiveAtMost(InodeBlock(sb, ip.inum), InodeBlock(sb, dp.inum), sb.bmapstart, data, ind);
    } else if r.Exists? {
      Touch(files, ip, din);
      q := {InodeBlock(sb, ip.inum)};
    }
  }

  /** The first half: the count. */
  method CountLink(files: Files, dp: Inode, ip: Inode)
    requires IsDir(files, dp) && files.Holds(ip) && ip != dp && ip.inum != dp.inum
    modifies files, ip, files.store
    ensures EntriesIn(files, dp, old(EntriesOf(files, dp))) && files.Holds(ip)
    ensures ip.din == old(ip.din).(nlink := (old(ip.din.nlink) + 1) % 0x1_0000)
    ensures Contents(files.store.disk, ip.din) == old(Contents(files.store.disk, ip.din))
    ensures files.store.base == old(files.store.disk) && ip.inum < files.store.sb.ninodes
    ensures files.store.used == old(files.store.used)
    ensures files.store.homes == {InodeBlock(files.store.sb, ip.inum)}
    ensures FileWrite.SameFiles(old(files.store.disk), old(files.nodes), files.store.disk, files.nodes, ip.inum)
  {
    files.Begin();
    Touch(files, ip, ip.din.(nlink := (ip.din.nlink + 1) % 0x1_0000));
    assert EntriesOf(files, dp) == old(EntriesOf(files, dp));
  }

  /** sys_link. */
  method LinkOp(files: Files, dp: Inode, ip: Inode, name: string, ghost t: seq<Links.Inode>)
    returns (r: Dirs.LinkResult)
    requires IsDir(files, dp) && files.Holds(ip) && ip != dp && ip.inum != dp.inum && FileWrite.Small(files)
    requires Plain(name) && ip.inum < 0x1_0000 && HoldsTree(files, t)
    modifies files, dp, ip, files.store
    ensures r.Exists? <==> !Links.Lacks(old(EntriesOf(files, dp)), name)
    ensures r.Full? <==>
      && !r.Exists? && !old(Room(files, dp.din.size))
      && Links.FirstFree(old(EntriesOf(files, dp))) == |old(EntriesOf(files, dp))|
    ensures r.Done? ==>
      EntriesIn(files, dp, Links.WithEntry(old(EntriesOf(files, dp)), Links.Dirent(ip.inum, name)))
    ensures r.Exists? ==>
      EntriesIn(files, dp, old(EntriesOf(files, dp))) && ip.din == old(ip.din) && HoldsTree(files, t)
    ensures r.Done? ==> ip.din == old(ip.din).(nlink := (old(ip.din.nlink) + 1) % 0x1_0000)
    ensures !r.Full? ==>
      && Regrown(old(dp.din), dp.din, old(dp.din.nlink)) && files.Holds(ip)
      && Logs(files, old(files.store.disk), 5)
    ensures r.Done? && old(dp.din.typ) == T_DIR ==>
      && ip.inum < |t| && dp.inum < |t|
      && HoldsTree(files, Dirs.AfterLink(t, dp.inum, name, ip.inum))
  {
    ghost var d, nodes0, e, es := files.store.disk, files.nodes, Links.Dirent(ip.inum, name), EntriesOf(files, dp);
    IsLists(d, dp.din, es);
    ghost var c := Contents(d, ip.din);
    var din := ip.din;
    CountLink(files, dp, ip);
    ghost var d1, nodes1 := files.store.disk, files.nodes;
    ghost var q;
    r, q := EnterOrUndo(files, dp, ip, name, din);
    if r.Done? {
      Recorded(files, d, q);
      IsLists(files.store.disk, dp.din, Links.WithEntry(es, e));
      OnlyOne(d, nodes0, d1, nodes1, ip.inum, dp.inum);
      OnlyTwoMore(d, nodes0, d1, nodes1, files.store.disk, files.nodes, ip.inum, dp.inum);
      if old(dp.din.typ) == T_DIR { LinkedTree(d, nodes0, files.store.disk, files.nodes, t, dp.inum, e, es); }
    } else if r.Exists? {
      Recorded(files, d, q);
      FileWrite.SameFilesTwice(d, nodes0, d1, nodes1, files.store.disk, files.nodes, ip.inum);
      SameTree(d, nodes0, files.store.disk, files.nodes, t, ip.inum);
    }
  }

  ghost predicate EntriesIn(files: Files, ip: Inode, es: seq<Links.Dirent>)
    reads files, files.store, ip
  {
    IsDir(files, ip) && EntriesOf(files, ip) == es
  }

  lemma TwoDots(i: nat, parent: nat)
    requires i > 0
    ensures var es := [Links.Dirent(i, ".")];
      && Links.WithEntry([], es[0]) == es && Links.Lacks(es, "..")
      && Links.WithEntry(es, Links.Dirent(parent, "..")) == es + [Links.Dirent(parent, "..")]
  {
  }

  /** The dots lie in the new directory's first block. */
  lemma DotSlots()
    ensures MoreSlots(0, ENTRY) == 1 && MoreSlots(ENTRY, 2 * ENTRY) == 0 && 2 * ENTRY <= FileWrite.LIMIT
  {
    assert BlockCount(0) == 0 && BlockCount(16) == 1 && BlockCount(32) == 1;
  }

  /** The dots of a new directory; there must be a free block. */
  method Dots(files: Files, ip: Inode, parent: nat) returns (ok: bool, ghost q: set<nat>)
    requires IsDir(files, ip) && ip.din.size == 0 && 0 < ip.inum < 0x1_0000 && parent < 0x1_0000
    requires FileWrite.Small(files)
    modifies files, ip, files.store`disk, files.store`used, files.store`inodes, files.store`writes, files.store`homes
    ensures ok <==> |old(files.store.used)| < files.store.sb.size
    ensures ok ==> EntriesIn(files, ip, [Links.Dirent(ip.inum, "."), Links.Dirent(parent, "..")])
    ensures ok ==> |files.nodes| == |old(files.nodes)| == files.store.sb.ninodes
    ensures ok ==> |files.store.used| == |old(files.store.used)| + 1
    ensures ok ==> FileWrite.SameFiles(old(files.store.disk), old(files.nodes), files.store.disk, files.nodes, ip.inum)
    ensures ok ==> ip.din == old(ip.din).(addrs := ip.din.addrs, size := ip.din.size)
    ensures ok ==> |q| <= 6 && files.store.homes <= old(files.store.homes) + q
    ensures ok ==> {InodeBlock(files.store.sb, ip.inum), files.store.sb.bmapstart as nat} <= q
  {
    var r;
    ghost var data, ind, data', ind';
    q := {};
    DotSlots();
    r, data, ind := Dirlink(files, ip, Links.Dirent(ip.inum, "."));
    if !r.Done? {
      return false, {};
    }
    TwoDots(ip.inum, parent);
    ghost var d1, nodes1 := files.store.disk, files.nodes;
    ok, data', ind' := SecondDot(files, ip, parent);
    if ok {
      FileWrite.SameFilesTwice(old(files.store.disk), old(files.nodes), d1, nodes1, files.store.disk, files.nodes,
                               ip.inum);
      q := {InodeBlock(files.store.sb, ip.inum), files.store.sb.bmapstart, data} + {ind, data', ind'};
      ThreeMore({}, InodeBlock(files.store.sb, ip.inum), files.store.sb.bmapstart, data);
      ThreeMore({InodeBlock(files.store.sb, ip.inum), files.store.sb.bmapstart, data}, ind, data', ind');
    }
  }

  method SecondDot(files: Files, ip: Inode, parent: nat) returns (ok: bool, ghost data: nat, ghost ind: nat)
    requires EntriesIn(files, ip, [Links.Dirent(ip.inum, ".")]) && 0 < ip.inum && parent < 0x1_0000
    requires FileWrite.Small(files) && |files.store.used| <= files.store.sb.size
    modifies files, ip, files.store`disk, files.store`used, files.store`inodes, files.store`writes, files.store`homes
    ensures ok && EntriesIn(files, ip, [Links.Dirent(ip.inum, "."), Links.Dirent(parent, "..")])
    ensures |files.nodes| == |old(files.nodes)| == files.store.sb.ninodes
    ensures |files.store.used| == |old(files.store.used)|
    ensures FileWrite.SameFiles(old(files.store.disk), old(files.nodes), files.store.disk, files.nodes, ip.inum)
    ensures ip.din == old(ip.din).(addrs := ip.din.addrs, size := ip.din.size)
    ensures files.store.homes <=
      old(files.store.homes) + {InodeBlock(files.store.sb, ip.inum), files.store.sb.bmapstart, data, ind}
  {
    TwoDots(ip.inum, parent);
    DotSlots();
    assert |EntriesOf(files, ip)| == 1 && ip.din.size == ENTRY;
    var r;
    r, data, ind := Dirlink(files, ip, Links.Dirent(parent, ".."));
    ok := r.Done?;
  }

  /** The inode of a new directory, and its parent's count. */
  method NewDir(files: Files, dp: Inode, ip: Inode)
    requires IsDir(files, dp) && files.Holds(ip) && ip != dp && ip.inum != dp.inum && ip.din.size == 0
    modifies files, dp, ip, files.store
    ensures IsDir(files, ip) && EntriesIn(files, dp, old(EntriesOf(files, dp)))
    ensures ip.din == old(ip.din).(typ := T_DIR, major := 0, minor := 0, nlink := 1)
    ensures dp.din == old(dp.din).(nlink := (old(dp.din.nlink) + 1) % 0x1_0000)
    ensures files.store.base == old(files.store.disk) && files.store.used == old(files.store.used)
    ensures OnlyTwo(old(files.store.disk), old(files.nodes), files.store.disk, files.nodes, ip.inum, dp.inum)
    ensures ip.inum < files.store.sb.ninodes && dp.inum < files.store.sb.ninodes
    ensures files.store.homes == {InodeBlock(files.store.sb, ip.inum), InodeBlock(files.store.sb, dp.inum)}
  {
    ghost var d0, nodes0 := files.store.disk, files.nodes;
    files.Begin();
    Touch(files, ip, ip.din.(typ := T_DIR, major := 0, minor := 0, nlink := 1));
    ghost var d1, nodes1 := files.store.disk, files.nodes;
    assert EntriesOf(files, dp) == old(EntriesOf(files, dp));
    Touch(files, dp, dp.din.(nlink := (dp.din.nlink + 1) % 0x1_0000));
    OnlyOne(d0, nodes0, d1, nodes1, ip.inum, dp.inum);
    OnlyTwoMore(d0, nodes0, d1, nodes1, files.store.disk, files.nodes, ip.inum, dp.inum);
  }

  /** There is a block for the dots, and then room for one more entry in the directory `dp`. */
  ghost predicate RoomForDir(files: Files, dp: Inode)
    requires dp.din.size % ENTRY == 0
    reads files, files.store, dp
  {
    && |files.store.used| < files.store.sb.size
    && (|| Links.FirstFree(EntriesOf(files, dp)) < |EntriesOf(files, dp)|
        || Fits(dp.din.size, |files.store.used| + 1, files.store.sb.size))
  }

  /** create, for a directory. False where a dirlink panics. */
  method MkdirOp(files: Files, dp: Inode, ip: Inode, name: string, ghost t: seq<Links.Inode>) returns (ok: bool)
    requires IsDir(files, dp) && files.Holds(ip) && ip != dp && ip.inum != dp.inum && FileWrite.Small(files)
    requires Plain(name) && Links.Lacks(EntriesOf(files, dp), name) && ip.din.size == 0
    requires 0 < ip.inum < 0x1_0000 && dp.inum < 0x1_0000 && HoldsTree(files, t)
    modifies files, dp, ip, files.store
    ensures ok <==> old(RoomForDir(files, dp))
    ensures ok ==>
      && EntriesIn(files, ip, [Links.Dirent(ip.inum, "."), Links.Dirent(dp.inum, "..")])
      && EntriesIn(files, dp, Links.WithEntry(old(EntriesOf(files, dp)), Links.Dirent(ip.inum, name)))
      && ip.din == old(ip.din).(typ := T_DIR, major := 0, minor := 0, nlink := 1, addrs := ip.din.addrs,
                                size := 2 * ENTRY)
      && Regrown(old(dp.din), dp.din, (old(dp.din.nlink) + 1) % 0x1_0000)
      && Logs(files, old(files.store.disk), 9)
    ensures ok && old(dp.din.typ) == T_DIR ==>
      && ip.inum < |t| && dp.inum < |t| && HoldsTree(files, Dirs.AfterMkdir(t, dp.inum, name, ip.inum))
  {
    ghost var d, nodes0, e, es := files.store.disk, files.nodes, Links.Dirent(ip.inum, name), EntriesOf(files, dp);
    IsLists(d, dp.din, es);
    NewDir(files, dp, ip);
    ghost var d1, nodes1 := files.store.disk, files.nodes;
    ghost var q;
    ok, q := MakeDir(files, dp, ip, name);
    if ok {
      Recorded(files, d, q);
      assert |EntriesOf(files, ip)| == 2;
      IsLists(files.store.disk, ip.din, Links.Dots(ip.inum, dp.inum));
      IsLists(files.store.disk, dp.din, Links.WithEntry(es, e));
      OnlyTwice(d, nodes0, d1, nodes1, files.store.disk, files.nodes, ip.inum, dp.inum);
      if old(dp.din.typ) == T_DIR { MadeTree(d, nodes0, files.store.disk, files.nodes, t, dp.inum, e, es); }
    }
  }

  /** Its dots and its name. */
  method MakeDir(files: Files, dp: Inode, ip: Inode, name: string) returns (ok: bool, ghost q: set<nat>)
    requires IsDir(files, dp) && IsDir(files, ip) && ip != dp && ip.inum != dp.inum && FileWrite.Small(files)
    requires Plain(name) && Links.Lacks(EntriesOf(files, dp), name) && ip.din.size == 0
    requires 0 < ip.inum < 0x1_0000 && dp.inum < 0x1_0000
    modifies files, dp, ip
    modifies files.store`disk, files.store`used, files.store`inodes, files.store`writes, files.store`homes
    ensures ok <==> old(RoomForDir(files, dp))
    ensures ok ==>
      && EntriesIn(files, ip, [Links.Dirent(ip.inum, "."), Links.Dirent(dp.inum, "..")])
      && EntriesIn(files, dp, Links.WithEntry(old(EntriesOf(files, dp)), Links.Dirent(ip.inum, name)))
      && ip.din == old(ip.din).(addrs := ip.din.addrs, size := ip.din.size)
      && dp.din == old(dp.din).(addrs := dp.din.addrs, size := dp.din.size)
      && OnlyTwo(old(files.store.disk), old(files.nodes), files.store.disk, files.nodes, ip.inum, dp.inum)
    ensures ok ==>
      && ip.inum < files.store.sb.ninodes && dp.inum < files.store.sb.ninodes && |q| <= 9
      && InodeBlock(files.store.sb, ip.inum) in q && InodeBlock(files.store.sb, dp.inum) in q
      && files.store.homes <= old(files.store.homes) + q
  {
    ghost var es, q1, data, ind := EntriesOf(files, dp), {}, 0, 0;
    ghost var d1, nodes1 := files.store.disk, files.nodes;
    ok, q1 := Dots(files, ip, dp.inum);
    q := {};
    if !ok {
      return;
    }
    assert FileWrite.SameFile(d1, nodes1, files.store.disk, files.nodes, dp.inum);
    assert EntriesOf(files, dp) == es;
    ghost var d2, nodes2 := files.store.disk, files.nodes;
    var r;
    r, data, ind := Dirlink(files, dp, Links.Dirent(ip.inum, name));
    ok := r.Done?;
    if ok {
      assert FileWrite.SameFile(d2, nodes2, files.store.disk, files.nodes, ip.inum);
      q := q1 + {InodeBlock(files.store.sb, dp.inum), data, ind};
      ThreeMore(q1, InodeBlock(files.store.sb, dp.inum), data, ind);
      OnlyOne(d1, nodes1, d2, nodes2, ip.inum, dp.inum);
      OnlyTwoMore(d1, nodes1, d2, nodes2, files.store.disk, files.nodes, ip.inum, dp.inum);
    }
  }

  /** sys_unlink of the k-th entry, which names `ip`, and the iput of its end: `last` says that nobody else
      has a reference. */
  method UnlinkOp(files: Files, dp: Inode, ip: Inode, k: nat, last: bool, ghost t: seq<Links.Inode>)
    requires IsDir(files, dp) && files.Holds(ip) && ip != dp && ip.inum != dp.inum && FileWrite.Small(files)
    requires k < dp.din.size / ENTRY && ip.din.nlink > 0 && HoldsTree(files, t)
    modifies files, dp, ip, files.store
    ensures EntriesIn(files, dp, old(EntriesOf(files, dp))[k := Links.UNUSED])
    ensures dp.din == old(dp.din).(nlink := (old(dp.din.nlink) - if old(ip.din.typ) == T_DIR then 1 else 0) % 0x1_0000)
    ensures files.Holds(ip) && ip.din.nlink == old(ip.din.nlink) - 1
    ensures last && ip.din.nlink == 0 ==> ip.din.typ == 0 && ip.din.size == 0
    ensures !(last && ip.din.nlink == 0) ==> ip.din == old(ip.din).(nlink := ip.din.nlink)
    ensures Logs(files, old(files.store.disk), 5)
    ensures old(dp.din.typ) == T_DIR ==>
      && ip.inum < |t| && dp.inum < |t| && k < |t[dp.inum].entries|
      && HoldsTree(files, Dirs.AfterUnlink(t, dp.inum, k, ip.inum, last))
  {
    ghost var d0, nodes0, es := files.store.disk, files.nodes, EntriesOf(files, dp);
    IsLists(d0, dp.din, es);
    files.Begin();
    ghost var q := RemoveEntry(files, dp, ip, k);
    ghost var d1, nodes1 := files.store.disk, files.nodes;
    DropLink(files, dp, ip, last);
    Recorded(files, d0, q);
    IsLists(files.store.disk, dp.din, es[k := Links.UNUSED]);
    OnlyOne(d0, nodes0, d1, nodes1, dp.inum, ip.inum);
    OnlyTwoMore(d0, nodes0, d1, nodes1, files.store.disk, files.nodes, dp.inum, ip.inum);
    if old(dp.din.typ) == T_DIR {
      UnlinkedTree(d0, nodes0, files.store.disk, files.nodes, t, dp.inum, ip.inum, es, k, last);
    }
  }

  /** The entry, and the parent's count if it names a directory. */
  method RemoveEntry(files: Files, dp: Inode, ip: Inode, k: nat) returns (ghost q: set<nat>)
    requires IsDir(files, dp) && files.Holds(ip) && ip != dp && ip.inum != dp.inum && FileWrite.Small(files)
    requires k < dp.din.size / ENTRY && files.store.homes == {}
    modifies files, dp, files.store`disk, files.store`used, files.store`inodes, files.store`writes, files.store`homes
    ensures EntriesIn(files, dp, old(EntriesOf(files, dp))[k := Links.UNUSED]) && files.Holds(ip)
    ensures dp.din == old(dp.din).(nlink := (old(dp.din.nlink) - if ip.din.typ == T_DIR then 1 else 0) % 0x1_0000)
    ensures FileWrite.SameFiles(old(files.store.disk), old(files.nodes), files.store.disk, files.nodes, dp.inum)
    ensures Contents(files.store.disk, ip.din) == old(Contents(files.store.disk, ip.din))
    ensures dp.inum < files.store.sb.ninodes && ip.inum < files.store.sb.ninodes && |q| <= 5
    ensures InodeBlock(files.store.sb, ip.inum) in q && InodeBlock(files.store.sb, dp.inum) in q
    ensures files.store.sb.bmapstart in q && files.store.homes <= q
  {
    ghost var d0, nodes0 := files.store.disk, files.nodes;
    q := ClearEntry(files, dp, ip, k);
    ghost var d1, nodes1 := files.store.disk, files.nodes;
    if ip.din.typ == T_DIR {
      Touch(files, dp, dp.din.(nlink := (dp.din.nlink + 0xFFFF) % 0x1_0000));
      FileWrite.SameFilesTwice(d0, nodes0, d1, nodes1, files.store.disk, files.nodes, dp.inum);
    }
    assert FileWrite.SameFile(d0, nodes0, files.store.disk, files.nodes, ip.inum);
  }

  /** The end: the inode's count, and its iput. */
  method DropLink(files: Files, dp: Inode, ip: Inode, last: bool)
    requires IsDir(files, dp) && files.Holds(ip) && ip != dp && ip.inum != dp.inum && FileWrite.Small(files)
    requires ip.din.nlink > 0
    modifies files, ip, files.store`disk, files.store`used, files.store`inodes, files.store`writes, files.store`homes
    ensures EntriesIn(files, dp, old(EntriesOf(files, dp))) && files.Holds(ip)
    ensures ip.din.nlink == old(ip.din.nlink) - 1
    ensures last && ip.din.nlink == 0 ==> ip.din.typ == 0 && ip.din.size == 0
    ensures !(last && ip.din.nlink == 0) ==> ip.din == old(ip.din).(nlink := ip.din.nlink)
    ensures !(last && ip.din.nlink == 0) ==>
      Contents(files.store.disk, ip.din) == old(Contents(files.store.disk, ip.din))
    ensures FileWrite.SameFiles(old(files.store.disk), old(files.nodes), files.store.disk, files.nodes, ip.inum)
    ensures ip.inum < files.store.sb.ninodes && forall a | a in files.store.homes ::
      a in old(files.store.homes) || a == InodeBlock(files.store.sb, ip.inum) || a == files.store.sb.bmapstart
  {
    ghost var d0, nodes0 := files.store.disk, files.nodes;
    Touch(files, ip, ip.din.(nlink := ip.din.nlink - 1));
    assert EntriesOf(files, dp) == old(EntriesOf(files, dp));
    if last && ip.din.nlink == 0 {
      ghost var d1, nodes1 := files.store.disk, files.nodes;
      Free(files, dp, ip);
      FileWrite.SameFilesTwice(d0, nodes0, d1, nodes1, files.store.disk, files.nodes, ip.inum);
    }
  }

  /** The entry's writei, in place. */
  method ClearEntry(files: Files, dp: Inode, ip: Inode, k: nat) returns (ghost q: set<nat>)
    requires IsDir(files, dp) && files.Holds(ip) && ip != dp && ip.inum != dp.inum && FileWrite.Small(files)
    requires k < dp.din.size / ENTRY && files.store.homes == {}
    modifies files, dp, files.store`disk, files.store`used, files.store`inodes, files.store`writes, files.store`homes
    ensures EntriesIn(files, dp, old(EntriesOf(files, dp))[k := Links.UNUSED]) && files.Holds(ip)
    ensures dp.din == old(dp.din)
    ensures FileWrite.SameFiles(old(files.store.disk), old(files.nodes), files.store.disk, files.nodes, dp.inum)
    ensures dp.inum < files.store.sb.ninodes && ip.inum < files.store.sb.ninodes && |q| <= 5
    ensures InodeBlock(files.store.sb, ip.inum) in q && InodeBlock(files.store.sb, dp.inum) in q
    ensures files.store.sb.bmapstart in q && files.store.homes <= q
  {
    ghost var d1, nodes1 := files.store.disk, files.nodes;
    var ok;
    ghost var data, ind;
    ok, data, ind := WriteEntry(files, dp, k, Links.UNUSED);
    assert FileWrite.SameFile(d1, nodes1, files.store.disk, files.nodes, ip.inum);
    var sb := files.store.sb;
    q := {InodeBlock(sb, ip.inum), InodeBlock(sb, dp.inum), sb.bmapstart, data, ind};
    FiveAtMost(InodeBlock(sb, ip.inum), InodeBlock(sb, dp.inum), sb.bmapstart, data, ind);
  }

  /** iput's free of an inode: itrunc, and a type of 0. */
  method Free(files: Files, dp: Inode, ip: Inode)
    requires IsDir(files, dp) && files.Holds(ip) && ip != dp && ip.inum != dp.inum && FileWrite.Small(files)
    modifies files, ip, files.store`disk, files.store`used, files.store`inodes, files.store`writes, files.store`homes
    ensures EntriesIn(files, dp, old(EntriesOf(files, dp))) && files.Holds(ip)
    ensures ip.din.typ == 0 && ip.din.size == 0 && ip.din.nlink == old(ip.din.nlink)
    ensures FileWrite.SameFiles(old(files.store.disk), old(files.nodes), files.store.disk, files.nodes, ip.inum)
    ensures ip.inum < files.store.sb.ninodes && forall a | a in files.store.homes ::
      a in old(files.store.homes) || a == InodeBlock(files.store.sb, ip.inum) || a == files.store.sb.bmapstart
  {
    ghost var d0, nodes0 := files.store.disk, files.nodes;
    FileWrite.LayoutFacts(files);
    var ok := files.Itrunc(ip);
    assert files.nodes[dp.inum] == old(files.nodes)[dp.inum];
    assert EntriesOf(files, dp) == old(EntriesOf(files, dp));
    ghost var d1, nodes1 := files.store.disk, files.nodes;
    assert FileWrite.SameFiles(d0, nodes0, d1, nodes1, ip.inum);
    Touch(files, ip, ip.din.(typ := 0));
    FileWrite.SameFilesTwice(d0, nodes0, d1, nodes1, files.store.disk, files.nodes, ip.inum);
  }

  /** Each of these calls keeps to MAXOPBLOCKS, and so is atomic under power loss when it is alone in the
      log: here the longest. */
  method LoggedMkdir(log: Log.Log, files: Files, dp: Inode, ip: Inode, name: string, ghost t: seq<Links.Inode>)
    returns (ok: bool, ghost homes: seq<Word>)
    requires IsDir(files, dp) && files.Holds(ip) && ip != dp && ip.inum != dp.inum && FileWrite.Small(files)
    requires Plain(name) && Links.Lacks(EntriesOf(files, dp), name) && ip.din.size == 0
    requires 0 < ip.inum < 0x1_0000 && dp.inum < 0x1_0000 && HoldsTree(files, t)
    requires FileWrite.Mounted(log, files) && Reservation.MAXOPBLOCKS + 1 < log.g.size
    modifies files, dp, ip, files.store, log`lh, log`outstanding, log`committing, log`ops, log.cache
    ensures ok <==> old(RoomForDir(files, dp))
    ensures ok ==>
      && EntriesIn(files, ip, [Links.Dirent(ip.inum, "."), Links.Dirent(dp.inum, "..")])
      && EntriesIn(files, dp, Links.WithEntry(old(EntriesOf(files, dp)), Links.Dirent(ip.inum, name)))
      && (old(dp.din.typ) == T_DIR ==>
           && ip.inum < |t| && dp.inum < |t| && HoldsTree(files, Dirs.AfterMkdir(t, dp.inum, name, ip.inum)))
      && FileWrite.Mounted(log, files)
      && FileWrite.Atomic(log.g, old(log.cache.disk), files.store.writes, old(log.cache.writes), log.cache.writes,
                          homes, files.store.disk)
  {
    ghost var d := files.store.disk;
    ok := MkdirOp(files, dp, ip, name, t);
    homes := [];
    if ok {
      var u;
      u, homes := FileWrite.Through(log, files, d);
    }
  }
}
