/** The system calls that change directories (sysfile.c), over the inodes of Links. Paths have been
    resolved: a call gets the directory and the last name that nameiparent found. */
module Dirs {
  import opened Params
  import opened Links

  datatype LinkResult = Done | Exists | Full            // Full is panic("dirlink")
  datatype UnlinkResult = Removed | Entry(i: nat) | Refused | NoLink   // NoLink is panic("unlink: nlink < 1")
  datatype CreateResult = Created(i: nat) | Existing(i: nat) | Denied | Panic

  /** A new entry would make the directory grow. */
  ghost predicate NoFreeSlot(n: Inode) {
    FirstFree(n.entries) == |n.entries|
  }

  /** The k-th entry of `dp` names a file. */
  ghost predicate NamesFile(nodes: seq<Inode>, dp: nat, name: Name, k: nat) {
    && dp < |nodes| && k < |nodes[dp].entries| && 0 < nodes[dp].entries[k].inum < |nodes|
    && nodes[dp].entries[k].name == name && nodes[nodes[dp].entries[k].inum].typ == T_FILE
  }

  class Tree {
    var inodes: seq<Inode>
    ghost var pend: seq<nat>    // links counted by calls that have not finished
    ghost var depth: seq<nat>

    ghost predicate Valid()
      reads this
    {
      Inv(inodes, pend, depth)
    }

    /** The tree mkfs writes for its arguments. mkfs does not compare the names: all is well if and only
        if those it stores are different from each other and from the dots. */
    constructor (ninodes: nat, argv: seq<string>)
      requires 2 + |argv| <= ninodes && BootSlots(|argv|) <= MAXSLOTS
      ensures Valid() <==> GoodNames(StoredNames(argv))
      ensures inodes == Boot(StoredNames(argv), ninodes)
      ensures forall i | 0 <= i < ninodes && i != ROOT && !(2 <= i < 2 + |argv|) :: inodes[i] == Inode(0, 0, [])
    {
      inodes := Boot(StoredNames(argv), ninodes);
      pend, depth := seq(ninodes, _ => 0), seq(ninodes, _ => 0);
      new;
      BootIff(StoredNames(argv), ninodes, pend, depth);
    }

    /** The first entry with this name, or |entries|. */
    method Dirlookup(dp: nat, name: Name) returns (k: nat)
      requires dp < |inodes| && inodes[dp].typ == T_DIR
      ensures k <= |inodes[dp].entries|
      ensures forall j | 0 <= j < k && inodes[dp].entries[j].inum != 0 :: inodes[dp].entries[j].name != name
      ensures k < |inodes[dp].entries| ==> inodes[dp].entries[k].inum != 0 && inodes[dp].entries[k].name == name
    {
      var es := inodes[dp].entries;
      k := 0;
      while k < |es|
        invariant k <= |es|
        invariant forall j | 0 <= j < k && es[j].inum != 0 :: es[j].name != name
      {
        if es[k].inum != 0 && es[k].name == name {
          return;
        }
        k := k + 1;
      }
    }

    /** Enters `e` in the first free slot; `room` says whether the directory can grow. */
    method Dirlink(dp: nat, e: Dirent, room: bool) returns (r: LinkResult)
      requires dp < |inodes| && inodes[dp].typ == T_DIR
      modifies `inodes
      ensures r.Exists? <==> !Lacks(old(inodes[dp].entries), e.name)
      ensures r.Full? <==>
        Lacks(old(inodes[dp].entries), e.name) && !room && NoFreeSlot(old(inodes)[dp])
      ensures inodes == if r.Done? then Entered(old(inodes), dp, e) else old(inodes)
    {
      var k := Dirlookup(dp, e.name);
      var es := inodes[dp].entries;
      if k < |es| {
        return Exists;
      }
      var off := 0;
      while off < |es| && es[off].inum != 0
        invariant off <= |es| && forall j | 0 <= j < off :: es[j].inum != 0
      {
        off := off + 1;
      }
      if off < |es| {
        es := es[off := e];
      } else if room {
        es := es + [e];
      } else {
        return Full;
      }
      inodes := inodes[dp := inodes[dp].(entries := es)];
      return Done;
    }

    method Isdirempty(ip: nat) returns (empty: bool)
      requires ip < |inodes| && inodes[ip].typ == T_DIR
      ensures empty <==> EmptyDir(inodes[ip])
    {
      var es := inodes[ip].entries;
      var off := 2;
      while off < |es|
        invariant 2 <= off && forall k | 2 <= k < off && k < |es| :: es[k].inum == 0
      {
        if es[off].inum != 0 {
          return false;
        }
        off := off + 1;
      }
      return true;
    }

    /** The first free inode, or 0 for panic("ialloc: no inodes"). */
    method Ialloc() returns (i: nat)
      ensures i == 0 || (0 < i < |inodes| && inodes[i].typ == 0)
      ensures forall j | 0 < j < (if i == 0 then |inodes| else i) :: inodes[j].typ != 0
    {
      i := 1;
      while i < |inodes|
        invariant 0 < i && forall j | 0 < j < i && j < |inodes| :: inodes[j].typ != 0
      {
        if inodes[i].typ == 0 {
          return;
        }
        i := i + 1;
      }
      i := 0;
    }

    /** The first half of link: the count goes up. False for a directory. */
    method LinkStart(ip: nat) returns (ok: bool)
      requires Valid() && 0 < ip < |inodes| && inodes[ip].typ != 0 && pend[ip] < NPROC
      modifies this
      ensures Valid() && depth == old(depth)
      ensures ok <==> old(inodes)[ip].typ != T_DIR
      ensures !ok ==> inodes == old(inodes) && pend == old(pend)
      ensures ok ==> pend == old(pend)[ip := old(pend)[ip] + 1]
      ensures ok ==> inodes == Relinked(old(inodes), ip, old(inodes)[ip].nlink + 1)
    {
      if inodes[ip].typ == T_DIR {
        return false;
      }
      BeginKeeps(inodes, pend, depth, ip);
      inodes := inodes[ip := inodes[ip].(nlink := Short(inodes[ip].nlink + 1))];
      pend := pend[ip := pend[ip] + 1];
      return true;
    }

    /** The second half: the entry is written, or the count goes down again. All is well if and only if
        the directory is still linked, which the source does not look at. */
    method LinkFinish(ip: nat, dp: nat, name: Name, room: bool) returns (r: LinkResult)
      requires Valid() && 0 < ip < |inodes| && inodes[ip].typ != 0 && inodes[ip].typ != T_DIR && pend[ip] > 0
      requires 0 < dp < |inodes| && inodes[dp].typ == T_DIR && (room ==> Slots(inodes) < MAXSLOTS)
      modifies this
      ensures depth == old(depth) && (r.Exists? ==> Valid())
      ensures r.Done? ==> (Valid() <==> LinkedDir(old(inodes)[dp]))
      ensures r.Exists? <==> !Lacks(old(inodes)[dp].entries, name)
      ensures r.Full? <==> Lacks(old(inodes)[dp].entries, name) && !room && NoFreeSlot(old(inodes)[dp])
      ensures r.Done? ==> inodes == Entered(old(inodes), dp, Dirent(ip, name))
      ensures r.Exists? ==> inodes == Relinked(old(inodes), ip, old(inodes)[ip].nlink - 1)
      ensures pend == if r.Full? then old(pend) else old(pend)[ip := old(pend)[ip] - 1]
      ensures r.Full? ==> inodes == old(inodes)
    {
      r := Dirlink(dp, Dirent(ip, name), room);
      if r.Done? {
        LinkNeedsLinked(old(inodes), pend, depth, dp, name, ip);
        pend := pend[ip := pend[ip] - 1];
      } else if r.Exists? {
        UndoLink(ip);
      }
    }

    method UndoLink(ip: nat)
      requires Valid() && 0 < ip < |inodes| && inodes[ip].typ != 0 && inodes[ip].typ != T_DIR && pend[ip] > 0
      modifies `inodes, `pend
      ensures Valid() && inodes == Relinked(old(inodes), ip, old(inodes)[ip].nlink - 1)
      ensures pend == old(pend)[ip := old(pend)[ip] - 1]
    {
      AbortKeeps(inodes, pend, depth, ip);
      inodes := inodes[ip := inodes[ip].(nlink := Short(inodes[ip].nlink - 1))];
      pend := pend[ip := pend[ip] - 1];
    }
  
    /** unlink, up to the count of a file (its entry is gone: UndoLink finishes the call) or to the end
        for a directory. `k` is where the name was found. */
    method Unlink(dp: nat, name: Name) returns (r: UnlinkResult, ghost k: nat)
      requires Valid() && 0 < dp < |inodes| && inodes[dp].typ == T_DIR
      requires forall i | 0 <= i < |pend| :: pend[i] < NPROC
      modifies this
      ensures Valid() && depth == old(depth) && !r.NoLink?
      ensures r.Refused? ==> inodes == old(inodes) && pend == old(pend)
      ensures name == "." || name == ".." ==> r.Refused?
      ensures name != "." && name != ".." ==> Unlinked(old(inodes), old(pend), inodes, pend, dp, name, k, r)
    {
      k := 0;
      if name == "." || name == ".." {
        return Refused, k;
      }
      assert DirOk(inodes, depth, dp);
      var m := Dirlookup(dp, name);
      k := m;
      if m == |inodes[dp].entries| {
        return Refused, k;
      }
      var i := inodes[dp].entries[m].inum;
      LookupNames(inodes, pend, depth, dp, k);
      NamedIsLinked(inodes, pend, depth, dp, k, i);
      if inodes[i].nlink < 1 {
        return NoLink, k;
      }
      if inodes[i].typ == T_DIR {
        var empty := Isdirempty(i);
        if !empty {
          return Refused, k;
        }
        RemoveDir(dp, m, i);
        return Removed, k;
      }
      WithoutKeeps(inodes, pend, depth, dp, k, i);
      inodes := inodes[dp := inodes[dp].(entries := inodes[dp].entries[m := UNUSED])];
      pend := pend[i := pend[i] + 1];
      return Entry(i), k;
    }

    /** create: an existing file is reused, anything else of that name is in the way. What is made leaves
        all well if and only if the directory is still linked, which the source does not look at. */
    method Create(dp: nat, name: Name, typ: nat, room: bool) returns (r: CreateResult)
      requires Valid() && 0 < dp < |inodes| && inodes[dp].typ == T_DIR && typ != 0
      requires room ==> Slots(inodes) + 3 <= MAXSLOTS
      modifies this
      ensures r.Panic? <==>
        && Lacks(old(inodes)[dp].entries, name)
        && (|| (forall i | 0 < i < |old(inodes)| :: old(inodes)[i].typ != 0)
            || (!room && (typ == T_DIR || NoFreeSlot(old(inodes)[dp]))))
      ensures r.Panic? || pend == old(pend)
      ensures r.Created? ==> (Valid() <==> LinkedDir(old(inodes)[dp]))
      ensures r.Existing? || r.Denied? <==> !Lacks(old(inodes)[dp].entries, name)
      ensures r.Existing? || r.Denied? ==> inodes == old(inodes)
      ensures r.Existing? <==> typ == T_FILE && exists k: nat :: NamesFile(old(inodes), dp, name, k)
      ensures r.Existing? ==>
        forall k: nat | NamesFile(old(inodes), dp, name, k) :: r.i == old(inodes)[dp].entries[k].inum
      ensures r.Created? ==> 0 < r.i < |old(inodes)| && old(inodes)[r.i].typ == 0
      ensures r.Created? ==> forall j | 0 < j < r.i :: old(inodes)[j].typ != 0
      ensures r.Created? ==>
        inodes == if typ == T_DIR then WithDir(old(inodes), dp, name, r.i)
                  else Entered(old(inodes)[r.i := Inode(typ, 1, [])], dp, Dirent(r.i, name))
    {
      assert DirOk(inodes, depth, dp);
      var k := Dirlookup(dp, name);
      if k < |inodes[dp].entries| {
        var i := inodes[dp].entries[k].inum;
        assert EntryOk(inodes, dp, k);
        forall j: nat | NamesFile(inodes, dp, name, j) ensures j == k {
          OneName(inodes, pend, depth, dp, j, k);
        }
        assert typ == T_FILE && inodes[i].typ == T_FILE ==> NamesFile(inodes, dp, name, k);
        if typ == T_FILE && inodes[i].typ == T_FILE {
          return Existing(i);
        }
        return Denied;
      }
      var i := Ialloc();
      if i == 0 {
        return Panic;
      }
      var ok;
      if typ == T_DIR {
        ok := MakeDir(dp, name, i, room);
      } else {
        ok := MakeFile(dp, name, i, typ, room);
      }
      return if ok then Created(i) else Panic;
    }

    method MakeFile(dp: nat, name: Name, i: nat, typ: nat, room: bool) returns (ok: bool)
      requires Valid() && 0 < dp < |inodes| && inodes[dp].typ == T_DIR && Lacks(inodes[dp].entries, name)
      requires 0 < i < |inodes| && inodes[i].typ == 0 && typ != 0 && typ != T_DIR
      requires room ==> Slots(inodes) + 3 <= MAXSLOTS
      modifies this
      ensures ok <==> room || !NoFreeSlot(old(inodes)[dp])
      ensures ok ==> (Valid() <==> LinkedDir(old(inodes)[dp])) && pend == old(pend)
      ensures ok ==> inodes == Entered(old(inodes)[i := Inode(typ, 1, [])], dp, Dirent(i, name))
    {
      inodes := inodes[i := Inode(typ, 1, [])];
      var r := Dirlink(dp, Dirent(i, name), room);
      ok := r.Done?;
      if ok {
        CreateNeedsLinked(old(inodes), pend, depth, dp, name, i, typ);
      }
    }

    /** The new directory's dots, its parent's count and its name. */
    method FillDir(dp: nat, name: Name, c: nat, room: bool) returns (ok: bool)
      requires dp < |inodes| && inodes[dp].typ == T_DIR
      requires Lacks(inodes[dp].entries, name) && 0 < c < |inodes| && c != dp
      requires Short(inodes[dp].nlink + 1) == inodes[dp].nlink + 1
      modifies `inodes
      ensures (ok <==> room) && (ok ==> inodes == WithDir(old(inodes), dp, name, c))
    {
      inodes := inodes[c := Inode(T_DIR, 1, [])];
      inodes := inodes[dp := inodes[dp].(nlink := Short(inodes[dp].nlink + 1))];
      var r := Dirlink(c, Dirent(c, "."), room);
      if !r.Done? {
        return false;
      }
      assert inodes[c].entries == [Dirent(c, ".")];
      r := Dirlink(c, Dirent(dp, ".."), room);
      if !r.Done? {
        return false;
      }
      assert FirstFree([Dirent(c, ".")]) == 1;
      assert inodes[c].entries == Dots(c, dp);
      r := Dirlink(dp, Dirent(c, name), room);
      ok := r.Done?;
      assert ok ==> inodes == WithDir(old(inodes), dp, name, c);
    }

    method MakeDir(dp: nat, name: Name, c: nat, room: bool) returns (ok: bool)
      requires Valid() && 0 < dp < |inodes| && inodes[dp].typ == T_DIR && Lacks(inodes[dp].entries, name)
      requires 0 < c < |inodes| && inodes[c].typ == 0
      requires room ==> Slots(inodes) + 3 <= MAXSLOTS
      modifies this
      ensures (ok <==> room) && (ok ==> pend == old(pend) && inodes == WithDir(old(inodes), dp, name, c))
      ensures ok ==> (Valid() <==> LinkedDir(old(inodes)[dp]))
    {
      ghost var nodes := inodes;
      assert DirOk(inodes, depth, dp) && DirOk(inodes, depth, c);
      NlinkFits(inodes, pend, depth, dp);
      ok := FillDir(dp, name, c, room);
      if ok {
        MkdirNeedsLinked(nodes, pend, depth, dp, name, c);
        if LinkedDir(nodes[dp]) {
          MkdirKeeps(nodes, pend, depth, dp, name, c);
          depth := depth[c := depth[dp] + 1];
        }
      }
    }

    /** The end of iput: the last reference to an inode without links frees it. */
    method Iput(ip: nat, last: bool)
      requires Valid() && 0 < ip < |inodes| && inodes[ip].typ != 0
      modifies `inodes
      ensures Valid()
      ensures inodes == if last && old(inodes)[ip].nlink == 0 then old(inodes)[ip := Inode(0, 0, [])] else old(inodes)
    {
      if last && inodes[ip].nlink == 0 {
        FreeKeeps(inodes, pend, depth, ip);
        inodes := inodes[ip := Inode(0, inodes[ip].nlink, [])];
      }
    }

    method RemoveDir(dp: nat, k: nat, i: nat)
      requires Valid() && NamesAt(inodes, dp, k, i) && EmptyDir(inodes[i])
      modifies `inodes
      ensures Valid() && inodes == WithoutDir(old(inodes), dp, k, i)
    {
      assert DirOk(inodes, depth, dp);
      NamedDir(inodes, pend, depth, dp, k, i);
      NlinkFits(inodes, pend, depth, i);
      NlinkFits(inodes, pend, depth, dp);
      RmdirKeeps(inodes, pend, depth, dp, k, i);
      inodes := inodes[dp := Inode(inodes[dp].typ, Short(inodes[dp].nlink - 1), inodes[dp].entries[k := UNUSED])];
      inodes := inodes[i := inodes[i].(nlink := Short(inodes[i].nlink - 1))];
      assert inodes == WithoutDir(old(inodes), dp, k, i);
    }
  }

  /** What unlink of a proper name does: nothing if the name is not there or is that of a directory
      with something in it; else the entry at `k` goes. */
  ghost predicate Unlinked(nodes: seq<Inode>, pend: seq<nat>, nodes': seq<Inode>, pend': seq<nat>,
                           dp: nat, name: Name, k: nat, r: UnlinkResult) {
    dp < |nodes| == |pend| && k <= |nodes[dp].entries| &&
    (k == |nodes[dp].entries| <==> Lacks(nodes[dp].entries, name)) &&
    if k == |nodes[dp].entries| then r.Refused?
    else
      var i := nodes[dp].entries[k].inum;
      NamesAt(nodes, dp, k, i) && nodes[dp].entries[k].name == name &&
      if nodes[i].typ == T_DIR && !EmptyDir(nodes[i]) then r.Refused?
      else if nodes[i].typ == T_DIR then r.Removed? && nodes' == WithoutDir(nodes, dp, k, i) && pend' == pend
      else r == Entry(i) && nodes' == Without(nodes, dp, k) && pend' == pend[i := pend[i] + 1]
  }

  /** A name other than the dots is found in a slot past them, and in a linked directory. */
  lemma LookupNames(nodes: seq<Inode>, pend: seq<nat>, depth: seq<nat>, dp: nat, k: nat)
    requires Inv(nodes, pend, depth) && 0 < dp < |nodes| && nodes[dp].typ == T_DIR && k < |nodes[dp].entries|
    requires nodes[dp].entries[k].inum != 0 && nodes[dp].entries[k].name != "." && nodes[dp].entries[k].name != ".."
    ensures NamesAt(nodes, dp, k, nodes[dp].entries[k].inum)
  {
    assert DirOk(nodes, depth, dp) && EntryOk(nodes, dp, k);
  }

  /** A name is in a directory once, also in one that has been removed. */
  lemma OneName(nodes: seq<Inode>, pend: seq<nat>, depth: seq<nat>, dp: nat, j: nat, k: nat)
    requires Inv(nodes, pend, depth) && dp < |nodes| && nodes[dp].typ == T_DIR
    requires j < |nodes[dp].entries| && k < |nodes[dp].entries|
    requires nodes[dp].entries[j].inum != 0 && nodes[dp].entries[k].inum != 0
    requires nodes[dp].entries[j].name == nodes[dp].entries[k].name
    ensures j == k
  {
    assert DirOk(nodes, depth, dp) && PairOk(nodes, dp, j, k) && PairOk(nodes, dp, k, j);
    assert CountOk(nodes, pend, dp);
  }

  // --- what a whole call makes of the tree, where no other call comes between ---

  ghost function AfterCreate(nodes: seq<Inode>, dp: nat, name: Name, i: nat, typ: nat): seq<Inode>
    requires dp < |nodes| && i < |nodes|
  {
    Entered(nodes[i := Inode(typ, 1, [])], dp, Dirent(i, name))
  }

  ghost function AfterLink(nodes: seq<Inode>, dp: nat, name: Name, i: nat): seq<Inode>
    requires dp < |nodes| && i < |nodes|
  {
    Entered(Relinked(nodes, i, Short(nodes[i].nlink + 1)), dp, Dirent(i, name))
  }

  ghost function AfterMkdir(nodes: seq<Inode>, dp: nat, name: Name, c: nat): seq<Inode>
    requires dp < |nodes| && c < |nodes|
  {
    Relinked(WithDir(nodes, dp, name, c), dp, Short(nodes[dp].nlink + 1))
  }


  /** The tree after unlink of the k-th entry of `dp`, which names `i`, and the iput of its end. */
  ghost function AfterUnlink(nodes: seq<Inode>, dp: nat, k: nat, i: nat, last: bool): seq<Inode>
    requires dp < |nodes| && i < |nodes| && k < |nodes[dp].entries|
  {
    var n := Short(nodes[i].nlink - 1);
    var up := if nodes[i].typ == T_DIR then Short(nodes[dp].nlink - 1) else nodes[dp].nlink;
    nodes[dp := Inode(nodes[dp].typ, up, nodes[dp].entries[k := UNUSED])]
         [i := if last && n == 0 then Inode(0, 0, []) else nodes[i].(nlink := n)]
  }

  /** Counts and tree survive each of these exactly if the directory is still linked. */
  lemma AfterCreateIff(nodes: seq<Inode>, pend: seq<nat>, depth: seq<nat>, dp: nat, name: Name, i: nat, typ: nat)
    requires Inv(nodes, pend, depth) && 0 < dp < |nodes| && nodes[dp].typ == T_DIR && Lacks(nodes[dp].entries, name)
    requires 0 < i < |nodes| && nodes[i].typ == 0 && typ != 0 && Slots(nodes) + 3 <= MAXSLOTS
    ensures typ != T_DIR ==> (LinkedDir(nodes[dp]) <==> Inv(AfterCreate(nodes, dp, name, i, typ), pend, depth))
    ensures LinkedDir(nodes[dp]) <==> exists depth' :: Inv(AfterMkdir(nodes, dp, name, i), pend, depth')
  {
    if typ != T_DIR { CreateNeedsLinked(nodes, pend, depth, dp, name, i, typ); }
    MkdirNeedsLinked(nodes, pend, depth, dp, name, i);
    NlinkFits(nodes, pend, depth, dp);
    assert AfterMkdir(nodes, dp, name, i) == WithDir(nodes, dp, name, i);
  }

  lemma AfterLinkIff(nodes: seq<Inode>, pend: seq<nat>, depth: seq<nat>, dp: nat, name: Name, i: nat)
    requires Inv(nodes, pend, depth) && 0 < dp < |nodes| && nodes[dp].typ == T_DIR && Lacks(nodes[dp].entries, name)
    requires 0 < i < |nodes| && nodes[i].typ != 0 && nodes[i].typ != T_DIR && pend[i] < NPROC
    requires Slots(nodes) < MAXSLOTS
    ensures LinkedDir(nodes[dp]) <==> Inv(AfterLink(nodes, dp, name, i), pend, depth)
  {
    BeginKeeps(nodes, pend, depth, i);
    var mid := Relinked(nodes, i, nodes[i].nlink + 1);
    CountUpdate(nodes, i, mid[i], i);
    LinkNeedsLinked(mid, pend[i := pend[i] + 1], depth, dp, name, i);
    assert pend[i := pend[i] + 1][i := pend[i]] == pend;
  }

  /** Unlink keeps them, for a file and for an empty directory. */
  lemma AfterUnlinkKeeps(nodes: seq<Inode>, pend: seq<nat>, depth: seq<nat>, dp: nat, k: nat, i: nat, last: bool)
    requires Inv(nodes, pend, depth) && NamesAt(nodes, dp, k, i) && pend[i] < NPROC
    requires nodes[i].typ == T_DIR ==> EmptyDir(nodes[i])
    ensures Inv(AfterUnlink(nodes, dp, k, i, last), pend, depth)
  {
    NamedIsLinked(nodes, pend, depth, dp, k, i);
    NlinkFits(nodes, pend, depth, i);
    assert DirOk(nodes, depth, dp);
    NlinkFits(nodes, pend, depth, dp);
    ghost var mid;
    if nodes[i].typ == T_DIR {
      NamedDir(nodes, pend, depth, dp, k, i);
      RmdirKeeps(nodes, pend, depth, dp, k, i);
      mid := WithoutDir(nodes, dp, k, i);
    } else {
      WithoutKeeps(nodes, pend, depth, dp, k, i);
      AbortKeeps(Without(nodes, dp, k), pend[i := pend[i] + 1], depth, i);
      mid := Relinked(Without(nodes, dp, k), i, nodes[i].nlink - 1);
      assert pend[i := pend[i] + 1][i := pend[i]] == pend;
    }
    assert Inv(mid, pend, depth);
    if last && mid[i].nlink == 0 {
      FreeKeeps(mid, pend, depth, i);
      assert AfterUnlink(nodes, dp, k, i, last) == mid[i := Inode(0, 0, [])];
    } else {
      assert AfterUnlink(nodes, dp, k, i, last) == mid;
    }
  }

  // --- the tree mkfs writes ---

  /** The name mkfs stores for an argument: without a leading _, and at most DIRSIZ characters. */
  function StoredName(arg: string): Name {
    var a := if arg != "" && arg[0] == '_' then arg[1..] else arg;
    if |a| > DIRSIZ then a[..DIRSIZ] else a
  }

  lemma StoredNameIs(s: string)
    requires s == "" || s[0] != '_'
    ensures StoredName("_" + s) == StoredName(s) <= s
    ensures |StoredName(s)| == if |s| < 14 then |s| else 14
  {
    assert ("_" + s)[1..] == s;
  }

  function StoredNames(argv: seq<string>): (names: seq<Name>)
    ensures |names| == |argv| && forall k | 0 <= k < |argv| :: names[k] == StoredName(argv[k])
  {
    if argv == [] then [] else [StoredName(argv[0])] + StoredNames(argv[1..])
  }

  /** The slots of the root directory, rounded up past its n files and two dots. */
  function BootSlots(n: nat): (m: nat)
    ensures n + 2 < m <= n + 34 && m % 32 == 0
  {
    ((n + 2) / 32 + 1) * 32
  }

  function BootEntry(names: seq<Name>, k: nat): Dirent {
    if k == 0 then Dirent(ROOT, ".") else if k == 1 then Dirent(ROOT, "..")
    else if k < |names| + 2 then Dirent(k, names[k - 2]) else UNUSED
  }

  function BootRoot(names: seq<Name>): seq<Dirent> {
    seq<Dirent>(BootSlots(|names|), k requires 0 <= k => BootEntry(names, k))
  }

  function BootNode(names: seq<Name>, i: nat): Inode {
    if i == ROOT then Inode(T_DIR, 1, BootRoot(names))
    else if 2 <= i < |names| + 2 then Inode(T_FILE, 1, []) else Inode(0, 0, [])
  }

  function Boot(names: seq<Name>, n: nat): seq<Inode> {
    seq<Inode>(n, i requires 0 <= i => BootNode(names, i))
  }

  ghost predicate GoodNames(names: seq<Name>) {
    && (forall k | 0 <= k < |names| :: names[k] != "." && names[k] != "..")
    && (forall j, k | 0 <= j < k < |names| :: names[j] != names[k])
  }

  /** Only the root directory counts. */
  lemma {:induction false} RootCounts(nodes: seq<Inode>, i: nat)
    requires forall j | 0 <= j < |nodes| && j != ROOT :: nodes[j].typ != T_DIR && nodes[j].entries == []
    ensures |nodes| <= ROOT ==> Count(nodes, i) == 0 && Slots(nodes) == 0
    ensures |nodes| > ROOT ==> Count(nodes, i) == Gives(nodes[ROOT], i) && Slots(nodes) == |nodes[ROOT].entries|
  {
    if nodes != [] { RootCounts(nodes[..|nodes| - 1], i); }
  }

  /** The first m entries of the root name inode `i` as often as they should. */
  lemma {:induction false} BootNamed(names: seq<Name>, es: seq<Dirent>, i: nat)
    requires i > 0 && (forall k | 0 <= k < |names| :: names[k] != ".")
    requires forall k | 0 <= k < |es| :: es[k] == BootEntry(names, k)
    ensures Named(es, i) ==
      if i == ROOT then (if |es| > 1 then 1 else 0) else if i < |es| && i < |names| + 2 then 1 else 0
  {
    if es != [] { BootNamed(names, es[..|es| - 1], i); }
  }

  lemma BootIff(names: seq<Name>, n: nat, pend: seq<nat>, depth: seq<nat>)
    requires 2 + |names| <= n == |pend| == |depth| && BootSlots(|names|) <= MAXSLOTS
    requires forall i | 0 <= i < n :: pend[i] == 0
    ensures Inv(Boot(names, n), pend, depth) <==> GoodNames(names)
  {
    var nodes := Boot(names, n);
    if GoodNames(names) { BootGood(names, n, pend, depth); }
    if Inv(nodes, pend, depth) {
      forall k | 0 <= k < |names| ensures names[k] != "." && names[k] != ".." {
        assert PairOk(nodes, ROOT, 0, k + 2) && PairOk(nodes, ROOT, 1, k + 2);
      }
      forall j, k | 0 <= j < k < |names| ensures names[j] != names[k] {
        assert PairOk(nodes, ROOT, j + 2, k + 2);
      }
    }
  }

  lemma BootGood(names: seq<Name>, n: nat, pend: seq<nat>, depth: seq<nat>)
    requires 2 + |names| <= n == |pend| == |depth| && BootSlots(|names|) <= MAXSLOTS && GoodNames(names)
    requires forall i | 0 <= i < n :: pend[i] == 0
    ensures Inv(Boot(names, n), pend, depth) && Slots(Boot(names, n)) == BootSlots(|names|)
  {
    var nodes := Boot(names, n);
    RootCounts(nodes, 0);
    forall i: nat ensures CountOk(nodes, pend, i) {
      if 0 < i < n {
        RootCounts(nodes, i);
        BootNamed(names, nodes[ROOT].entries, i);
      }
    }
    forall d: nat ensures DirOk(nodes, depth, d) {}
    forall q: nat, k: nat ensures EntryOk(nodes, q, k) {}
    forall q: nat, j: nat, k: nat ensures PairOk(nodes, q, j, k) { BootPair(names, n, q, j, k); }
  }

  lemma BootPair(names: seq<Name>, n: nat, q: nat, j: nat, k: nat)
    requires 2 + |names| <= n && GoodNames(names)
    ensures PairOk(Boot(names, n), q, j, k)
  {
  }

  /** Two arguments that agree in their first 14 characters break it, on a disk of any size. */
  lemma LongNamesClash(n: nat, pend: seq<nat>, depth: seq<nat>)
    requires 4 <= n == |pend| == |depth| && forall i | 0 <= i < n :: pend[i] == 0
    ensures !Inv(Boot(StoredNames(["_abcdefghijklmno", "_abcdefghijklmnp"]), n), pend, depth)
  {
    var argv := ["_abcdefghijklmno", "_abcdefghijklmnp"];
    var names := StoredNames(argv);
    assert names[0] == argv[0][1..][..DIRSIZ] && names[1] == argv[1][1..][..DIRSIZ];
    assert names[0] == "abcdefghijklmn" == names[1];
    BootIff(names, n, pend, depth);
  }

  // --- a removed directory that is still somebody's current directory ---

  /** link writes its entry into a directory that may have been removed meanwhile: the invariant
      survives exactly if it is still linked. */
  lemma LinkNeedsLinked(nodes: seq<Inode>, pend: seq<nat>, depth: seq<nat>, dp: nat, name: Name, i: nat)
    requires Inv(nodes, pend, depth) && 0 < dp < |nodes| && nodes[dp].typ == T_DIR && Lacks(nodes[dp].entries, name)
    requires 0 < i < |nodes| && nodes[i].typ != 0 && nodes[i].typ != T_DIR && pend[i] > 0
    requires FirstFree(nodes[dp].entries) == |nodes[dp].entries| ==> Slots(nodes) < MAXSLOTS
    ensures LinkedDir(nodes[dp]) <==> Inv(Entered(nodes, dp, Dirent(i, name)), pend[i := pend[i] - 1], depth)
  {
    var nodes', pend' := Entered(nodes, dp, Dirent(i, name)), pend[i := pend[i] - 1];
    if LinkedDir(nodes[dp]) {
      EnterKeeps(nodes, pend, depth, dp, name, i);
    } else {
      assert CountOk(nodes, pend, i);
      CountUpdate(nodes, dp, nodes'[dp], i);
      assert !CountOk(nodes', pend', i);
    }
  }

  /** The same for a file made by create: in a removed directory its count is wrong from the start. */
  lemma CreateNeedsLinked(nodes: seq<Inode>, pend: seq<nat>, depth: seq<nat>, dp: nat, name: Name, i: nat, typ: nat)
    requires Inv(nodes, pend, depth) && 0 < dp < |nodes| && nodes[dp].typ == T_DIR && Lacks(nodes[dp].entries, name)
    requires 0 < i < |nodes| && nodes[i].typ == 0 && typ != 0 && typ != T_DIR
    requires FirstFree(nodes[dp].entries) == |nodes[dp].entries| ==> Slots(nodes) < MAXSLOTS
    ensures LinkedDir(nodes[dp]) <==> Inv(Entered(nodes[i := Inode(typ, 1, [])], dp, Dirent(i, name)), pend, depth)
  {
    var mid := nodes[i := Inode(typ, 1, [])];
    assert CountOk(nodes, pend, i) && DirOk(nodes, depth, i);
    AllocKeeps(nodes, pend, depth, i, typ);
    CountUpdate(nodes, i, mid[i], i);
    LinkNeedsLinked(mid, pend[i := 1], depth, dp, name, i);
    assert pend[i := 1][i := 0] == pend;
  }

  /** And for a directory: there the parent comes back to life as a linked directory that nothing
      names, whatever order the tree is given. */
  lemma MkdirNeedsLinked(nodes: seq<Inode>, pend: seq<nat>, depth: seq<nat>, dp: nat, name: Name, c: nat)
    requires Inv(nodes, pend, depth) && 0 < dp < |nodes| && nodes[dp].typ == T_DIR && Lacks(nodes[dp].entries, name)
    requires 0 < c < |nodes| && nodes[c].typ == 0 && Slots(nodes) + 3 <= MAXSLOTS
    ensures LinkedDir(nodes[dp]) <==> exists depth' :: Inv(WithDir(nodes, dp, name, c), pend, depth')
  {
    var nodes' := WithDir(nodes, dp, name, c);
    if LinkedDir(nodes[dp]) {
      MkdirKeeps(nodes, pend, depth, dp, name, c);
    } else {
      forall depth' ensures !Inv(nodes', pend, depth') {
        if |depth'| == |nodes| { Revived(nodes, pend, depth, dp, name, c, depth'); }
      }
    }
  }

  lemma Revived(nodes: seq<Inode>, pend: seq<nat>, depth: seq<nat>, dp: nat, name: Name, c: nat, depth': seq<nat>)
    requires Inv(nodes, pend, depth) && 0 < dp < |nodes| && nodes[dp].typ == T_DIR && !LinkedDir(nodes[dp])
    requires 0 < c < |nodes| && nodes[c].typ == 0 && |depth'| == |nodes|
    ensures !DirOk(WithDir(nodes, dp, name, c), depth', dp)
  {
    var nodes' := WithDir(nodes, dp, name, c);
    assert DirOk(nodes, depth, dp) && CountOk(nodes, pend, dp);
    var p := nodes'[dp].entries[1].inum;
    if p < |nodes| && p != dp && p != c && LinkedDir(nodes[p]) {
      forall k | 2 <= k < |nodes[p].entries| ensures nodes[p].entries[k].inum != dp {
        NotNamed(nodes, pend, depth, dp, p, k);
      }
    }
  }

  /** Such a state is reached: make a directory and remove it. */
  lemma RemovedDirectory() returns (nodes: seq<Inode>, pend: seq<nat>, depth: seq<nat>)
    ensures Inv(nodes, pend, depth) && |nodes| == 4 && nodes[3].typ == 0 && Slots(nodes) < MAXSLOTS
    ensures nodes[2] == Inode(T_DIR, 0, Dots(2, ROOT))
  {
    var made;
    made, pend, depth := MadeDirectory();
    RmdirKeeps(made, pend, depth, ROOT, 2, 2);
    RmdirCounts(made, pend, depth, ROOT, 2, 2, 0);
    ParentStays(made, pend, depth, ROOT, 2, 2);
    nodes := WithoutDir(made, ROOT, 2, 2);
  }

  lemma MadeDirectory() returns (made: seq<Inode>, pend: seq<nat>, depth: seq<nat>)
    ensures Inv(made, pend, depth) && |made| == 4 && made[3].typ == 0 && Slots(made) < MAXSLOTS
    ensures made[2] == Inode(T_DIR, 1, Dots(2, ROOT)) && NamesAt(made, ROOT, 2, 2)
  {
    var bare := Boot([], 4);
    var root := bare[ROOT];
    pend, depth := seq(4, _ => 0), seq(4, _ => 0);
    BootGood([], 4, pend, depth);
    MkdirKeeps(bare, pend, depth, ROOT, "d", 2);
    MkdirSlots(bare, pend, depth, ROOT, "d", 2);
    assert root.entries[2] == UNUSED && FirstFree(root.entries) == 2 by { assert |root.entries| > 2; }
    made := WithDir(bare, ROOT, "d", 2);
    depth := depth[2 := depth[ROOT] + 1];
  }

  /** There a new file breaks the counts, and a new directory the tree. */
  lemma RemovedDirectoryBreaks() returns (nodes: seq<Inode>, pend: seq<nat>, depth: seq<nat>)
    ensures Inv(nodes, pend, depth) && |nodes| == 4 && nodes[2] == Inode(T_DIR, 0, Dots(2, ROOT))
    ensures !Inv(Entered(nodes[3 := Inode(T_FILE, 1, [])], 2, Dirent(3, "f")), pend, depth)
    ensures forall depth' :: !Inv(WithDir(nodes, 2, "f", 3), pend, depth')
  {
    nodes, pend, depth := RemovedDirectory();
    assert Lacks(nodes[2].entries, "f");
    CreateNeedsLinked(nodes, pend, depth, 2, "f", 3, T_FILE);
    forall depth' ensures !Inv(WithDir(nodes, 2, "f", 3), pend, depth') {
      if |depth'| == |nodes| { Revived(nodes, pend, depth, 2, "f", 3, depth'); }
    }
  }
}
