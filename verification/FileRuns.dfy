/** Writes to files by any number of processes at once, each in a transaction, as filewrite makes them: run
    through the log together, cut off by a power loss at any moment and recovered. */
module FileRuns {
  import opened Params
  import opened Blocks
  import opened FsFormat
  import opened FsStore
  import opened Owner
  import opened Files
  import Bio
  import Crash
  import FileWrite
  import GroupCommit
  import Log
  import Reservation
  import Schedule

  // ---------- what the calls mean ----------

  /** begin_op, a writei by call `i`, or its end_op. */
  datatype Call = Enter | Write(i: nat, inum: nat, src: seq<Byte>, off: Word) | Leave(i: nat)

  /** The bytes of each file, and of each running call whether it has made its write. */
  datatype Spec = Spec(files: seq<seq<Byte>>, wrote: seq<bool>)

  predicate Goes(s: Spec, inum: nat, src: seq<Byte>, off: nat) {
    inum < |s.files| && off <= |s.files[inum]| && off + |src| <= FileWrite.LIMIT
  }

  ghost predicate KeepsAt(size: nat, off: nat, n: nat, q: nat) {
    FileWrite.OpBlocks(size, off, n) <= Reservation.MAXOPBLOCKS
  }

  /** A write logs at most MAXOPBLOCKS blocks. Folded (see Bio.Bcache.Valid). */
  ghost predicate Keeps(size: nat, off: nat, n: nat) {
    forall q: nat {:trigger KeepsAt(size, off, n, q)} :: KeepsAt(size, off, n, q)
  }

  /** A call makes one write, of no more blocks than its allowance. */
  ghost predicate Allowed(s: Spec, c: Call) {
    match c
    case Enter => true
    case Write(i, inum, src, off) =>
      && i < |s.wrote| && !s.wrote[i] && inum < |s.files| && |src| < 0x1_0000_0000
      && (Goes(s, inum, src, off) ==> Keeps(|s.files[inum]|, off, |src|))
    case Leave(i) => i < |s.wrote|
  }

  ghost function After(s: Spec, c: Call): Spec {
    if !Allowed(s, c) then s else
    match c
    case Enter => s.(wrote := s.wrote + [false])
    case Write(i, inum, src, off) =>
      var s' := s.(wrote := s.wrote[i := true]);
      if Goes(s, inum, src, off) then s'.(files := s.files[inum := Splice(s.files[inum], off, src)]) else s'
    case Leave(i) => s.(wrote := s.wrote[..i] + s.wrote[i + 1..])
  }

  ghost function AfterAll(s: Spec, calls: seq<Call>): Spec {
    if calls == [] then s else After(AfterAll(s, calls[..|calls| - 1]), calls[|calls| - 1])
  }

  lemma AfterNext(s: Spec, calls: seq<Call>, n: nat)
    requires n < |calls|
    ensures AfterAll(s, calls[..n + 1]) == After(AfterAll(s, calls[..n]), calls[n])
  {
    assert calls[..n + 1][..n] == calls[..n];
  }

  ghost predicate AllowedAt(s: Spec, calls: seq<Call>, n: nat) {
    n < |calls| ==> Allowed(AfterAll(s, calls[..n]), calls[n])
  }

  // ---------- a file system as a value ----------

  /** A disk, with its inodes, its used blocks and who owns them. */
  datatype Snap = Snap(d: Disk, nodes: seq<Node>, used: set<nat>, l: Layout)

  /** Everything that holds between system calls. */
  ghost predicate Sound(sb: Super, x: Snap) {
    && Says(x.d, sb, x.used, x.nodes) && Owned(sb, x.d, x.nodes, x.used, x.l, {})
    && forall i: nat {:trigger Covers(x.l, i, x.nodes[i])} | i < |x.nodes| :: Covers(x.l, i, x.nodes[i])
  }

  ghost function Bytes(x: Snap): (fs: seq<seq<Byte>>)
    ensures |fs| == |x.nodes| && forall i | 0 <= i < |fs| :: fs[i] == Contents(x.d, x.nodes[i])
  {
    seq(|x.nodes|, i requires 0 <= i < |x.nodes| => Contents(x.d, x.nodes[i]))
  }

  ghost predicate ShowsAt(sb: Super, x: Snap, fs: seq<seq<Byte>>, k: nat) { Sound(sb, x) && Bytes(x) == fs }

  /** The disk holds a sound file system with these files. Folded (see Bio.Bcache.Valid). */
  ghost predicate Shows(sb: Super, x: Snap, fs: seq<seq<Byte>>) {
    forall k: nat {:trigger ShowsAt(sb, x, fs, k)} :: ShowsAt(sb, x, fs, k)
  }

  /** The log region is none of the file system's business. */
  lemma SameFile(g: Crash.Geometry, sb: Super, x: Snap, d: Disk, i: nat)
    requires Sound(sb, x) && Log.SameOutside(g, x.d, d) && g.start + g.size <= sb.inodestart && i < |x.nodes|
    requires sb.inodestart <= sb.nmeta && Owned(sb, d, x.nodes, x.used, x.l, {})
    ensures Contents(d, x.nodes[i]) == Contents(x.d, x.nodes[i])
  {
    var n := x.nodes[i];
    assert Covers(x.l, i, n);
    forall k: nat | k < n.size ensures ByteAt(d, n, k) == ByteAt(x.d, n, k) {
      assert SlotMapped(x.l, i, BlockCount(n.size), k / BSIZE);
      assert Agrees(x.d, n, x.l, i, k / BSIZE) && Agrees(d, n, x.l, i, k / BSIZE);
    }
  }

  lemma SameSystem(g: Crash.Geometry, sb: Super, x: Snap, fs: seq<seq<Byte>>, d: Disk)
    requires Shows(sb, x, fs) && Log.SameOutside(g, x.d, d) && g.start + g.size <= sb.inodestart
    ensures Shows(sb, x.(d := d), fs)
  {
    assert ShowsAt(sb, x, fs, 0);
    var y := x.(d := d);
    SameBooks(g, sb, x, d);
    forall i: nat | i < |x.nodes| ensures Contents(d, x.nodes[i]) == Contents(x.d, x.nodes[i]) {
      SameFile(g, sb, x, d, i);
    }
    assert Bytes(y) == fs;
    forall i: nat | i < |y.nodes| ensures Covers(y.l, i, y.nodes[i]) { assert Covers(x.l, i, x.nodes[i]); }
    forall k: nat ensures ShowsAt(sb, y, fs, k) {}
  }

  lemma SameNodes(g: Crash.Geometry, sb: Super, x: Snap, d: Disk)
    requires Says(x.d, sb, x.used, x.nodes) && Log.SameOutside(g, x.d, d) && g.start + g.size <= sb.inodestart
    ensures forall i: nat | i < sb.ninodes :: x.nodes[i] == NodeAt(d, sb, i)
  {
    forall i: nat | i < sb.ninodes ensures x.nodes[i] == NodeAt(d, sb, i) { NodeOutside(x.d, d, sb, i); }
  }

  lemma SameBits(g: Crash.Geometry, sb: Super, x: Snap, d: Disk)
    requires Says(x.d, sb, x.used, x.nodes) && Log.SameOutside(g, x.d, d) && g.start + g.size <= sb.inodestart
    ensures forall b: nat | b < sb.size :: b in x.used <==> Bit(d, sb, b)
  {
    BitsOutside(x.d, d, sb);
  }

  lemma SameOwners(g: Crash.Geometry, sb: Super, x: Snap, d: Disk)
    requires Owned(sb, x.d, x.nodes, x.used, x.l, {}) && Log.SameOutside(g, x.d, d) && g.start + g.size <= sb.nmeta
    ensures Owned(sb, d, x.nodes, x.used, x.l, {})
  {
    assert forall y | y in x.l :: sb.nmeta <= x.l[y];
    DataKeeps(sb, x.d, x.nodes, x.used, x.l, {}, d);
  }

  lemma SameBooks(g: Crash.Geometry, sb: Super, x: Snap, d: Disk)
    requires Sound(sb, x) && Log.SameOutside(g, x.d, d) && g.start + g.size <= sb.inodestart
    ensures Says(d, sb, x.used, x.nodes) && Owned(sb, d, x.nodes, x.used, x.l, {}) && sb.inodestart <= sb.nmeta
  {
    SameBits(g, sb, x, d);
    SameNodes(g, sb, x, d);
    SameOwners(g, sb, x, d);
  }

  // ---------- the story of a run ----------

  /** The log's actions so far; after each call how many of them, and the file system. */
  datatype Story = Story(acts: seq<Schedule.Action>, idx: seq<nat>, snaps: seq<Snap>)

  /** After j calls the file system is sound, holds what the calls mean, and is what the updates so far make
      of the disk; and as many calls are running as the log thinks. */
  ghost predicate SnapAt(g: Crash.Geometry, sb: Super, d0: Disk, s: Spec, calls: seq<Call>, t: Story, j: nat) {
    j < |t.idx| && j < |t.snaps| && j <= |calls| ==>
      && t.idx[j] <= |t.acts| && (j > 0 ==> t.idx[j - 1] <= t.idx[j])
      && Shows(sb, t.snaps[j], AfterAll(s, calls[..j]).files)
      && Log.SameOutside(g, Bio.Apply(d0, Schedule.Updates(t.acts[..t.idx[j]])), t.snaps[j].d)
      && |AfterAll(s, calls[..j]).wrote| == |Schedule.AfterAll(t.acts[..t.idx[j]]).ops|
  }

  /** No call is running after m actions only where a call has just left. */
  ghost predicate RestAt(t: Story, m: nat) {
    m <= |t.acts| && Schedule.AfterAll(t.acts[..m]).ops == [] ==> exists j :: 0 <= j < |t.idx| && t.idx[j] == m
  }

  ghost predicate Told(g: Crash.Geometry, sb: Super, d0: Disk, s: Spec, calls: seq<Call>, n: nat, t: Story) {
    && n <= |calls| && |t.idx| == |t.snaps| == n + 1
    && (forall j: nat {:trigger SnapAt(g, sb, d0, s, calls, t, j)} :: SnapAt(g, sb, d0, s, calls, t, j))
    && (forall m: nat {:trigger RestAt(t, m)} | m < |t.acts| :: RestAt(t, m))
  }

  /** Another action of the log's, in the middle of a call. */
  lemma ToldMore(g: Crash.Geometry, sb: Super, d0: Disk, s: Spec, calls: seq<Call>, n: nat, t: Story,
                 a: Schedule.Action, t': Story)
    requires Told(g, sb, d0, s, calls, n, t) && RestAt(t, |t.acts|) && t' == t.(acts := t.acts + [a])
    ensures Told(g, sb, d0, s, calls, n, t')
  {
    forall j: nat ensures SnapAt(g, sb, d0, s, calls, t', j) {
      assert SnapAt(g, sb, d0, s, calls, t, j);
      if j <= n { assert t'.acts[..t.idx[j]] == t.acts[..t.idx[j]]; }
    }
    forall m: nat | m < |t'.acts| ensures RestAt(t', m) {
      assert RestAt(t, m);
      assert t'.acts[..m] == t.acts[..m];
    }
  }

  /** The end of a call. */
  lemma ToldEnd(g: Crash.Geometry, sb: Super, d0: Disk, s: Spec, calls: seq<Call>, n: nat, t: Story, x: Snap,
                t': Story)
    requires Told(g, sb, d0, s, calls, n, t) && n < |calls|
    requires t' == t.(idx := t.idx + [|t.acts|], snaps := t.snaps + [x])
    requires Shows(sb, x, AfterAll(s, calls[..n + 1]).files)
    requires Log.SameOutside(g, Bio.Apply(d0, Schedule.Updates(t.acts)), x.d)
    requires |AfterAll(s, calls[..n + 1]).wrote| == |Schedule.AfterAll(t.acts).ops|
    ensures Told(g, sb, d0, s, calls, n + 1, t') && RestAt(t', |t'.acts|)
  {
    forall j: nat ensures SnapAt(g, sb, d0, s, calls, t', j) {
      if j <= n { OldSnap(g, sb, d0, s, calls, n, t, x, t', j); }
      if j == n + 1 { NewSnap(g, sb, d0, s, calls, n, t, x, t'); }
    }
    forall m: nat | m < |t'.acts| ensures RestAt(t', m) { OldRest(t, x, t', m); }
    assert t'.idx[|t.idx|] == |t.acts|;
  }

  lemma OldSnap(g: Crash.Geometry, sb: Super, d0: Disk, s: Spec, calls: seq<Call>, n: nat, t: Story, x: Snap,
                t': Story, j: nat)
    requires Told(g, sb, d0, s, calls, n, t) && j <= n
    requires t' == t.(idx := t.idx + [|t.acts|], snaps := t.snaps + [x])
    ensures SnapAt(g, sb, d0, s, calls, t', j)
  {
    assert SnapAt(g, sb, d0, s, calls, t, j);
  }

  lemma NewSnap(g: Crash.Geometry, sb: Super, d0: Disk, s: Spec, calls: seq<Call>, n: nat, t: Story, x: Snap,
                t': Story)
    requires Told(g, sb, d0, s, calls, n, t) && n < |calls|
    requires t' == t.(idx := t.idx + [|t.acts|], snaps := t.snaps + [x])
    requires Shows(sb, x, AfterAll(s, calls[..n + 1]).files)
    requires Log.SameOutside(g, Bio.Apply(d0, Schedule.Updates(t.acts)), x.d)
    requires |AfterAll(s, calls[..n + 1]).wrote| == |Schedule.AfterAll(t.acts).ops|
    ensures SnapAt(g, sb, d0, s, calls, t', n + 1)
  {
    assert t.acts[..|t.acts|] == t.acts && SnapAt(g, sb, d0, s, calls, t, n);
  }

  lemma OldRest(t: Story, x: Snap, t': Story, m: nat)
    requires RestAt(t, m) && t' == t.(idx := t.idx + [|t.acts|], snaps := t.snaps + [x])
    ensures RestAt(t', m)
  {
    if j :| 0 <= j < |t.idx| && t.idx[j] == m { assert t'.idx[j] == m; }
  }

  /** All that was written by the end of call `i` is among the first p blocks written. */
  ghost predicate OnDisk(t: Story, k: nat, h: Schedule.History, i: nat, p: nat) {
    i < |t.idx| && t.idx[i] <= k < |h.at| && h.at[t.idx[i]] <= p
  }

  lemma {:induction false} LastAt(idx: seq<nat>, m: nat) returns (j: nat)
    requires exists i :: 0 <= i < |idx| && idx[i] == m
    ensures j < |idx| && idx[j] == m && forall i | j < i < |idx| :: idx[i] != m
  {
    var n := |idx| - 1;
    if idx[n] == m {
      j := n;
    } else {
      var i :| 0 <= i < |idx| && idx[i] == m;
      assert idx[..n][i] == m;
      j := LastAt(idx[..n], m);
    }
  }

  lemma {:induction false} Increasing(g: Crash.Geometry, sb: Super, d0: Disk, s: Spec, calls: seq<Call>, n: nat,
                                      t: Story, j: nat, i: nat)
    requires Told(g, sb, d0, s, calls, n, t) && j <= i <= n
    ensures t.idx[j] <= t.idx[i]
    decreases i
  {
    if j < i {
      Increasing(g, sb, d0, s, calls, n, t, j, i - 1);
      assert SnapAt(g, sb, d0, s, calls, t, i);
    }
  }

  /** The power fails at any moment of a run, and again and again while the machine recovers: the disk will
      recover to a sound file system with the files as they were after some call that left none running, and
      after every such call whose commit is on the disk. */
  lemma Survives(g: Crash.Geometry, sb: Super, d0: Disk, s: Spec, calls: seq<Call>, n: nat, t: Story,
                 k: nat, h: Schedule.History, p: nat, ks: seq<nat>) returns (j: nat, x: Snap)
    requires Told(g, sb, d0, s, calls, n, t) && (k == |t.acts| ==> RestAt(t, k))
    requires Schedule.Durable(g, d0, t.acts, k, h) && p <= |h.ws|
    ensures j <= n && AfterAll(s, calls[..j]).wrote == [] && Shows(sb, x, AfterAll(s, calls[..j]).files)
    ensures forall i: nat | i <= n && AfterAll(s, calls[..i]).wrote == [] && OnDisk(t, k, h, i, p) :: i <= j
    ensures Crash.Holds(Schedule.Rebooted(Bio.Apply(d0, h.ws[..p]), g, ks), g, x.d)
  {
    var m := Schedule.PowerFails(g, d0, t.acts, k, h, p, ks);
    assert RestAt(t, m);
    j := LastAt(t.idx, m);
    forall i: nat | i <= n && AfterAll(s, calls[..i]).wrote == [] && OnDisk(t, k, h, i, p) ensures i <= j {
      assert SnapAt(g, sb, d0, s, calls, t, i);
      if i > j { Increasing(g, sb, d0, s, calls, n, t, j, i); }
    }
    assert SnapAt(g, sb, d0, s, calls, t, j);
    x := t.snaps[j];
    var d := Schedule.Rebooted(Bio.Apply(d0, h.ws[..p]), g, ks);
    Schedule.HoldsSame(d, g, Bio.Apply(d0, Schedule.Updates(t.acts[..m])), x.d);
  }

  /** Once a recovery gets through, the disk is that file system. */
  lemma Remounts(g: Crash.Geometry, sb: Super, d: Disk, x: Snap, fs: seq<seq<Byte>>)
    requires Crash.Holds(d, g, x.d) && Shows(sb, x, fs) && g.start + g.size <= sb.inodestart
    ensures var d' := Bio.Apply(d, Crash.RecoverWrites(d, g));
      Shows(sb, x.(d := d'), fs) && Crash.GoodLog(d', g) && Crash.HeaderCount(d'[g.start]) == 0
  {
    Crash.RecoveryDone(d, g);
    SameSystem(g, sb, x, fs, Bio.Apply(d, Crash.RecoverWrites(d, g)));
  }

  // ---------- the updates of a write ----------

  lemma OneMore(acts: seq<Schedule.Action>, a: Schedule.Action)
    ensures Schedule.Updates(acts + [a]) == Schedule.Updates(acts) + Schedule.Made(a)
    ensures Schedule.AfterAll(acts + [a]) == Schedule.After(Schedule.AfterAll(acts), a)
  {
    assert (acts + [a])[..|acts|] == acts;
  }

  ghost predicate SpendsAt(v0: Reservation.State, v: Reservation.State, i: nat, us: seq<Bio.Write>, k: nat, q: nat) {
    && k <= |us| && (forall a | a in Bio.Addrs(us[..k]) :: a in v.lh)
    && i < |v.ops| && v.ops[i].left + |Bio.Addrs(us[..k])| >= Reservation.MAXOPBLOCKS
  }

  /** Call `i`, whose allowance was whole, has made the first k of the updates `us`. Folded. */
  ghost predicate Spends(v0: Reservation.State, v: Reservation.State, i: nat, us: seq<Bio.Write>, k: nat) {
    && i < |v.ops| == |v0.ops| && (forall j | 0 <= j < |v.ops| && j != i :: v.ops[j] == v0.ops[j])
    && forall q: nat {:trigger SpendsAt(v0, v, i, us, k, q)} :: SpendsAt(v0, v, i, us, k, q)
  }

  lemma SpendsNone(v: Reservation.State, i: nat, us: seq<Bio.Write>)
    requires i < |v.ops| && v.ops[i].left == Reservation.MAXOPBLOCKS
    ensures Spends(v, v, i, us, 0)
  {
    assert us[..0] == [];
    forall q: nat ensures SpendsAt(v, v, i, us, 0, q) {}
  }

  lemma OneAddr(us: seq<Bio.Write>, k: nat)
    requires k < |us|
    ensures Bio.Addrs(us[..k + 1]) == Bio.Addrs(us[..k]) + {us[k].a} && |Bio.Addrs(us[..k + 1])| <= |Bio.Addrs(us)|
    ensures |Bio.Addrs(us[..k + 1])| == |Bio.Addrs(us[..k])| + if us[k].a in Bio.Addrs(us[..k]) then 0 else 1
  {
    Bio.AddrsNext(us, k);
    Bio.AddrsOfPrefix(us, k + 1);
    var a, before := us[k].a, Bio.Addrs(us[..k]);
    assert a in before ==> before + {a} == before;
  }

  lemma SpendsNext(v0: Reservation.State, v: Reservation.State, i: nat, us: seq<Bio.Write>, k: nat,
                   v': Reservation.State)
    requires Spends(v0, v, i, us, k) && k < |us| && |Bio.Addrs(us)| <= Reservation.MAXOPBLOCKS
    requires us[k].a < 0x1_0000_0000 && v' == Schedule.After(v, Schedule.Store(i, us[k]))
    ensures Schedule.Fits(v, Schedule.Store(i, us[k])) && Spends(v0, v', i, us, k + 1)
  {
    assert SpendsAt(v0, v, i, us, k, 0);
    OneAddr(us, k);
    var m, a := k + 1, us[k].a;
    assert a in Bio.Addrs(us[..k]) ==> a in v.lh;
    assert v'.lh == Reservation.Absorb(v.lh, a);
    forall q: nat ensures SpendsAt(v0, v', i, us, m, q) {}
  }

  /** The log after the updates `us` by call `i`. */
  ghost function Puts(v: Reservation.State, i: nat, us: seq<Bio.Write>): Reservation.State {
    if us == [] then v else Schedule.After(Puts(v, i, us[..|us| - 1]), Schedule.Store(i, us[|us| - 1]))
  }

  lemma PutsNext(v: Reservation.State, i: nat, us: seq<Bio.Write>, k: nat)
    requires k < |us|
    ensures Puts(v, i, us[..k + 1]) == Schedule.After(Puts(v, i, us[..k]), Schedule.Store(i, us[k]))
  {
    assert us[..k + 1][..k] == us[..k];
  }

  /** log_write refuses the k-th of the updates. */
  ghost predicate RefusedAt(size: nat, v: Reservation.State, i: nat, us: seq<Bio.Write>, k: nat) {
    k < |us| && Reservation.Refused(size, Puts(v, i, us[..k]), i)
  }

  ghost predicate Overfull(size: nat, v: Reservation.State, i: nat, us: seq<Bio.Write>) {
    exists k: nat :: RefusedAt(size, v, i, us, k)
  }

  ghost predicate TakenAt(size: nat, v0: Reservation.State, i: nat, us: seq<Bio.Write>, k: nat, v: Reservation.State,
                          quiet: bool, q: nat)
  {
    && k <= |us| && v == Puts(v0, i, us[..k])
    && (quiet ==> forall j: nat {:trigger RefusedAt(size, v0, i, us, j)} | j < k :: !RefusedAt(size, v0, i, us, j))
  }

  /** The first k updates have brought the log to `v`; none was refused, if there are no readers. Folded. */
  ghost predicate Taken(size: nat, v0: Reservation.State, i: nat, us: seq<Bio.Write>, k: nat, v: Reservation.State,
                        quiet: bool)
  {
    forall q: nat {:trigger TakenAt(size, v0, i, us, k, v, quiet, q)} :: TakenAt(size, v0, i, us, k, v, quiet, q)
  }

  lemma TakenNone(size: nat, v0: Reservation.State, i: nat, us: seq<Bio.Write>, quiet: bool)
    ensures Taken(size, v0, i, us, 0, v0, quiet)
  {
    assert us[..0] == [];
    forall q: nat ensures TakenAt(size, v0, i, us, 0, v0, quiet, q) {}
  }

  lemma TakenNext(size: nat, v0: Reservation.State, i: nat, us: seq<Bio.Write>, k: nat, v: Reservation.State,
                  quiet: bool)
    requires Taken(size, v0, i, us, k, v, quiet) && k < |us|
    ensures Reservation.Refused(size, v, i) ==> Overfull(size, v0, i, us)
    ensures !(quiet && Reservation.Refused(size, v, i)) ==>
      Taken(size, v0, i, us, k + 1, Schedule.After(v, Schedule.Store(i, us[k])), quiet)
  {
    assert TakenAt(size, v0, i, us, k, v, quiet, 0);
    PutsNext(v0, i, us, k);
    assert RefusedAt(size, v0, i, us, k) <==> Reservation.Refused(size, v, i);
    var v', m := Schedule.After(v, Schedule.Store(i, us[k])), k + 1;
    if !(quiet && Reservation.Refused(size, v, i)) {
      forall q: nat ensures TakenAt(size, v0, i, us, m, v', quiet, q) {}
    }
  }

  lemma TakenAll(size: nat, v0: Reservation.State, i: nat, us: seq<Bio.Write>, v: Reservation.State, quiet: bool)
    requires Taken(size, v0, i, us, |us|, v, quiet)
    ensures v == Puts(v0, i, us) && (quiet ==> !Overfull(size, v0, i, us))
  {
    assert TakenAt(size, v0, i, us, |us|, v, quiet, 0) && us[..|us|] == us;
  }

  ghost predicate StoringAt(g: Crash.Geometry, sb: Super, d0: Disk, s: Spec, calls: seq<Call>, n: nat, i: nat,
                            us: seq<Bio.Write>, quiet: bool, t0: Story, t: Story, k: nat, q: nat)
  {
    && Told(g, sb, d0, s, calls, n, t) && RestAt(t, |t.acts|) && t.idx == t0.idx && t.snaps == t0.snaps
    && k <= |us| && t0.acts <= t.acts && Schedule.Updates(t.acts) == Schedule.Updates(t0.acts) + us[..k]
    && Spends(Schedule.AfterAll(t0.acts), Schedule.AfterAll(t.acts), i, us, k)
    && Taken(g.size, Schedule.AfterAll(t0.acts), i, us, k, Schedule.AfterAll(t.acts), quiet)
  }

  /** Call `i` has made the first k of the updates `us`, since the story was `t0`. Folded. */
  ghost predicate Storing(g: Crash.Geometry, sb: Super, d0: Disk, s: Spec, calls: seq<Call>, n: nat, i: nat,
                          us: seq<Bio.Write>, quiet: bool, t0: Story, t: Story, k: nat)
  {
    forall q: nat {:trigger StoringAt(g, sb, d0, s, calls, n, i, us, quiet, t0, t, k, q)} ::
      StoringAt(g, sb, d0, s, calls, n, i, us, quiet, t0, t, k, q)
  }

  lemma StoringNone(g: Crash.Geometry, sb: Super, d0: Disk, s: Spec, calls: seq<Call>, n: nat, i: nat,
                    us: seq<Bio.Write>, quiet: bool, t: Story)
    requires Told(g, sb, d0, s, calls, n, t) && RestAt(t, |t.acts|)
    requires i < |Schedule.AfterAll(t.acts).ops| && Schedule.AfterAll(t.acts).ops[i].left == Reservation.MAXOPBLOCKS
    ensures Storing(g, sb, d0, s, calls, n, i, us, quiet, t, t, 0)
  {
    SpendsNone(Schedule.AfterAll(t.acts), i, us);
    TakenNone(g.size, Schedule.AfterAll(t.acts), i, us, quiet);
    assert us[..0] == [] && Schedule.Updates(t.acts) + [] == Schedule.Updates(t.acts);
    forall q: nat ensures StoringAt(g, sb, d0, s, calls, n, i, us, quiet, t, t, 0, q) {}
  }

  /** The next update fits; if it is not refused, the story goes on with it. */
  lemma StoringNext(g: Crash.Geometry, sb: Super, d0: Disk, s: Spec, calls: seq<Call>, n: nat, i: nat,
                    us: seq<Bio.Write>, quiet: bool, t0: Story, t: Story, k: nat) returns (t': Story)
    requires Storing(g, sb, d0, s, calls, n, i, us, quiet, t0, t, k) && k < |us| && us[k].a < 0x1_0000_0000
    requires |Bio.Addrs(us)| <= Reservation.MAXOPBLOCKS
    ensures t' == t.(acts := t.acts + [Schedule.Store(i, us[k])]) && Told(g, sb, d0, s, calls, n, t')
    ensures t0.acts <= t'.acts && t'.idx == t0.idx && t'.snaps == t0.snaps
    ensures Schedule.Fits(Schedule.AfterAll(t.acts), Schedule.Store(i, us[k]))
    ensures var refused := Reservation.Refused(g.size, Schedule.AfterAll(t.acts), i);
      && (refused ==> Overfull(g.size, Schedule.AfterAll(t0.acts), i, us))
      && (!(quiet && refused) ==> Storing(g, sb, d0, s, calls, n, i, us, quiet, t0, t', k + 1))
  {
    var a, v, v0 := Schedule.Store(i, us[k]), Schedule.AfterAll(t.acts), Schedule.AfterAll(t0.acts);
    assert StoringAt(g, sb, d0, s, calls, n, i, us, quiet, t0, t, k, 0);
    assert us[..k + 1] == us[..k] + [us[k]];
    SpendsNext(v0, v, i, us, k, Schedule.After(v, a));
    TakenNext(g.size, v0, i, us, k, v, quiet);
    OneMore(t.acts, a);
    t' := t.(acts := t.acts + [a]);
    ToldMore(g, sb, d0, s, calls, n, t, a, t');
    assert t'.acts[..|t'.acts|] == t'.acts;
    var m := k + 1;
    if !(quiet && Reservation.Refused(g.size, v, i)) {
      forall q: nat ensures StoringAt(g, sb, d0, s, calls, n, i, us, quiet, t0, t', m, q) {}
    }
  }

  /** One of the updates of a write, by call `i`. */
  method StoreNext(log: Log.Log, i: nat, us: seq<Bio.Write>, k: nat, ghost sb: Super, ghost d0: Disk,
                   ghost ws0: seq<Bio.Write>, ghost s: Spec, ghost calls: seq<Call>, ghost n: nat,
                   ghost t0: Story, ghost t: Story, ghost tr: GroupCommit.Trace, ghost h: Schedule.History)
    returns (r: Schedule.Outcome, ghost t': Story, ghost tr': GroupCommit.Trace, ghost h': Schedule.History)
    requires GroupCommit.Going(log, d0, ws0, t.acts, |t.acts|, tr, h) && k < |us|
    requires Storing(log.g, sb, d0, s, calls, n, i, us, log.readers == {}, t0, t, k)
    requires |Bio.Addrs(us)| <= Reservation.MAXOPBLOCKS && us[k].a < |d0| < 0x1_0000_0000 && !log.g.InLog(us[k].a)
    modifies log`lh, log`outstanding, log`committing, log`ops, log.cache
    ensures r.Went? ==> GroupCommit.Going(log, d0, ws0, t'.acts, |t'.acts|, tr', h')
    ensures r.Went? ==> Storing(log.g, sb, d0, s, calls, n, i, us, log.readers == {}, t0, t', k + 1)
    ensures !r.Went? ==> Told(log.g, sb, d0, s, calls, n, t') && t'.idx == t0.idx && t'.snaps == t0.snaps
    ensures !r.Went? ==> t0.acts <= t'.acts && t'.acts != []
    ensures !r.Went? ==> GroupCommit.Written(log, d0, ws0, t'.acts, |t'.acts| - 1, h')
    ensures log.readers == {} ==> !r.Sleeps? && (r.Broke? ==> Overfull(log.g.size, Schedule.AfterAll(t0.acts), i, us))
  {
    t' := StoringNext(log.g, sb, d0, s, calls, n, i, us, log.readers == {}, t0, t, k);
    r, tr', h' := GroupCommit.Step(log, t.acts, Schedule.Store(i, us[k]), d0, ws0, tr, h);
  }

  /** All of them. */
  method StoreAll(log: Log.Log, i: nat, us: seq<Bio.Write>, ghost sb: Super, ghost d0: Disk, ghost ws0: seq<Bio.Write>,
                  ghost s: Spec, ghost calls: seq<Call>, ghost n: nat, ghost t: Story, ghost tr: GroupCommit.Trace,
                  ghost h: Schedule.History)
    returns (r: Schedule.Outcome, ghost t': Story, ghost tr': GroupCommit.Trace, ghost h': Schedule.History)
    requires GroupCommit.Going(log, d0, ws0, t.acts, |t.acts|, tr, h)
    requires Told(log.g, sb, d0, s, calls, n, t) && RestAt(t, |t.acts|)
    requires i < |Schedule.AfterAll(t.acts).ops| && Schedule.AfterAll(t.acts).ops[i].left == Reservation.MAXOPBLOCKS
    requires |Bio.Addrs(us)| <= Reservation.MAXOPBLOCKS && |d0| < 0x1_0000_0000
    requires forall w | w in us :: w.a < |d0| && !log.g.InLog(w.a)
    modifies log`lh, log`outstanding, log`committing, log`ops, log.cache
    ensures Told(log.g, sb, d0, s, calls, n, t') && t'.idx == t.idx && t'.snaps == t.snaps && t.acts <= t'.acts
    ensures r.Went? ==> GroupCommit.Going(log, d0, ws0, t'.acts, |t'.acts|, tr', h')
    ensures r.Went? ==> Storing(log.g, sb, d0, s, calls, n, i, us, log.readers == {}, t, t', |us|)
    ensures !r.Went? ==> t'.acts != [] && GroupCommit.Written(log, d0, ws0, t'.acts, |t'.acts| - 1, h')
    ensures log.readers == {} ==>
      !r.Sleeps? && (r.Broke? <==> Overfull(log.g.size, Schedule.AfterAll(t.acts), i, us))
  {
    t', tr', h' := t, tr, h;
    StoringNone(log.g, sb, d0, s, calls, n, i, us, log.readers == {}, t);
    for k := 0 to |us|
      invariant GroupCommit.Going(log, d0, ws0, t'.acts, |t'.acts|, tr', h')
      invariant Storing(log.g, sb, d0, s, calls, n, i, us, log.readers == {}, t, t', k)
    {
      assert us[k] in us;
      r, t', tr', h' := StoreNext(log, i, us, k, sb, d0, ws0, s, calls, n, t, t', tr', h');
      if !r.Went? {
        return;
      }
    }
    StoringAll(log.g, sb, d0, s, calls, n, i, us, log.readers == {}, t, t');
    r := Schedule.Went;
  }

  lemma StoringAll(g: Crash.Geometry, sb: Super, d0: Disk, s: Spec, calls: seq<Call>, n: nat, i: nat,
                   us: seq<Bio.Write>, quiet: bool, t: Story, t': Story)
    requires Storing(g, sb, d0, s, calls, n, i, us, quiet, t, t', |us|)
    ensures Told(g, sb, d0, s, calls, n, t') && t'.idx == t.idx && t'.snaps == t.snaps && t.acts <= t'.acts
    ensures Schedule.Updates(t'.acts) == Schedule.Updates(t.acts) + us
    ensures Spends(Schedule.AfterAll(t.acts), Schedule.AfterAll(t'.acts), i, us, |us|)
    ensures Schedule.AfterAll(t'.acts) == Puts(Schedule.AfterAll(t.acts), i, us)
    ensures quiet ==> !Overfull(g.size, Schedule.AfterAll(t.acts), i, us)
  {
    assert StoringAt(g, sb, d0, s, calls, n, i, us, quiet, t, t', |us|, 0);
    TakenAll(g.size, Schedule.AfterAll(t.acts), i, us, Schedule.AfterAll(t'.acts), quiet);
    assert us[..|us|] == us;
  }

  // ---------- the calls ----------

  ghost function SnapOf(files: Files): Snap
    reads files, files.store
  {
    Snap(files.store.disk, files.nodes, files.store.used, files.l)
  }

  lemma IsSound(files: Files)
    requires files.AtRest()
    ensures Sound(files.store.sb, SnapOf(files))
  {
    assert files.Unfolded(0) && files.store.Unfolded(0);
    forall i: nat | i < |files.nodes| ensures Covers(files.l, i, files.nodes[i]) {}
  }

  /** A call that has not written still has its whole allowance. */
  ghost predicate Tied(s: Spec, v: Reservation.State) {
    && |s.wrote| == |v.ops|
    && forall i | 0 <= i < |v.ops| && !s.wrote[i] :: v.ops[i].left == Reservation.MAXOPBLOCKS
  }

  /** What the disk has received of a run of which n calls are done, and k of the log's actions. */
  ghost predicate Received(log: Log.Log, sb: Super, d0: Disk, ws0: seq<Bio.Write>, s: Spec, calls: seq<Call>, n: nat,
                           t: Story, k: nat, h: Schedule.History)
    reads log, log.cache
  {
    && Told(log.g, sb, d0, s, calls, n, t) && k <= |t.acts| && (k == |t.acts| ==> RestAt(t, k))
    && GroupCommit.Written(log, d0, ws0, t.acts, k, h)
  }

  ghost predicate LogSideAt(log: Log.Log, sb: Super, d0: Disk, ws0: seq<Bio.Write>, s: Spec, calls: seq<Call>, n: nat,
                            t: Story, tr: GroupCommit.Trace, h: Schedule.History, q: nat)
    reads log, log.cache
  {
    && GroupCommit.Going(log, d0, ws0, t.acts, |t.acts|, tr, h) && log.g.start + log.g.size <= sb.inodestart
    && Told(log.g, sb, d0, s, calls, n, t) && t.idx[n] == |t.acts|
    && Tied(AfterAll(s, calls[..n]), Schedule.AfterAll(t.acts))
  }

  /** The log, at the end of the n-th call. Folded. */
  ghost predicate LogSide(log: Log.Log, sb: Super, d0: Disk, ws0: seq<Bio.Write>, s: Spec, calls: seq<Call>, n: nat,
                          t: Story, tr: GroupCommit.Trace, h: Schedule.History)
    reads log, log.cache
  {
    forall q: nat {:trigger LogSideAt(log, sb, d0, ws0, s, calls, n, t, tr, h, q)} ::
      LogSideAt(log, sb, d0, ws0, s, calls, n, t, tr, h, q)
  }

  lemma IsLogSide(log: Log.Log, sb: Super, d0: Disk, ws0: seq<Bio.Write>, s: Spec, calls: seq<Call>, n: nat,
                  t: Story, tr: GroupCommit.Trace, h: Schedule.History)
    requires LogSideAt(log, sb, d0, ws0, s, calls, n, t, tr, h, 0)
    ensures LogSide(log, sb, d0, ws0, s, calls, n, t, tr, h)
  {
    forall q: nat ensures LogSideAt(log, sb, d0, ws0, s, calls, n, t, tr, h, q) {}
  }

  /** A run has come to the end of its n-th call. */
  ghost predicate Live(log: Log.Log, files: Files, d0: Disk, ws0: seq<Bio.Write>, s: Spec, calls: seq<Call>, n: nat,
                       t: Story, tr: GroupCommit.Trace, h: Schedule.History)
    reads log, log.cache, files, files.store
  {
    && LogSide(log, files.store.sb, d0, ws0, s, calls, n, t, tr, h)
    && files.AtRest() && FileWrite.Small(files) && |d0| == |files.store.disk|
    && n < |t.idx| == |t.snaps| && t.snaps[n] == SnapOf(files)
  }

  /** What the log's side says about the file system. */
  lemma Here(log: Log.Log, sb: Super, d0: Disk, ws0: seq<Bio.Write>, s: Spec, calls: seq<Call>, n: nat, t: Story,
             tr: GroupCommit.Trace, h: Schedule.History)
    requires LogSide(log, sb, d0, ws0, s, calls, n, t, tr, h)
    ensures n <= |calls| && |t.idx| == |t.snaps| == n + 1 && t.idx[n] == |t.acts|
    ensures Shows(sb, t.snaps[n], AfterAll(s, calls[..n]).files)
    ensures Received(log, sb, d0, ws0, s, calls, n, t, |t.acts|, h)
  {
    assert LogSideAt(log, sb, d0, ws0, s, calls, n, t, tr, h, 0);
    assert SnapAt(log.g, sb, d0, s, calls, t, n) && RestAt(t, |t.acts|);
    GroupCommit.IsWritten(log, d0, ws0, t.acts, |t.acts|, tr, h);
  }

  /** A call other than a write is the action `a` of the log's. */
  predicate Is(c: Call, a: Schedule.Action) {
    match c
    case Enter => a == Schedule.Join
    case Write(_, _, _, _) => false
    case Leave(i) => a == Schedule.Quit(i)
  }

  lemma TiedPass(s: Spec, v: Reservation.State, c: Call, a: Schedule.Action)
    requires Tied(s, v) && Allowed(s, c) && Is(c, a)
    ensures Schedule.Fits(v, a) && Tied(After(s, c), Schedule.After(v, a)) && After(s, c).files == s.files
  {
  }

  lemma Passes(g: Crash.Geometry, sb: Super, d0: Disk, s: Spec, calls: seq<Call>, n: nat, t: Story, a: Schedule.Action)
    returns (t': Story, t'': Story)
    requires Told(g, sb, d0, s, calls, n, t) && t.idx[n] == |t.acts| && n < |calls| && AllowedAt(s, calls, n)
    requires Is(calls[n], a) && Tied(AfterAll(s, calls[..n]), Schedule.AfterAll(t.acts))
    ensures t' == t.(acts := t.acts + [a]) && Told(g, sb, d0, s, calls, n, t')
    ensures t'' == t'.(idx := t.idx + [|t'.acts|], snaps := t.snaps + [t.snaps[n]])
    ensures Told(g, sb, d0, s, calls, n + 1, t'') && Tied(AfterAll(s, calls[..n + 1]), Schedule.AfterAll(t''.acts))
    ensures Schedule.Fits(Schedule.AfterAll(t.acts), a)
  {
    AfterNext(s, calls, n);
    OneMore(t.acts, a);
    TiedPass(AfterAll(s, calls[..n]), Schedule.AfterAll(t.acts), calls[n], a);
    assert Schedule.Updates(t.acts) + [] == Schedule.Updates(t.acts);
    assert SnapAt(g, sb, d0, s, calls, t, n) && t.acts[..|t.acts|] == t.acts;
    t' := t.(acts := t.acts + [a]);
    ToldMore(g, sb, d0, s, calls, n, t, a, t');
    t'' := t'.(idx := t.idx + [|t'.acts|], snaps := t.snaps + [t.snaps[n]]);
    ToldEnd(g, sb, d0, s, calls, n, t', t.snaps[n], t'');
  }

  /** begin_op or end_op. */
  method PassOne(log: Log.Log, files: Files, a: Schedule.Action, ghost d0: Disk, ghost ws0: seq<Bio.Write>,
                 ghost s: Spec, ghost calls: seq<Call>, ghost n: nat, ghost t: Story, ghost tr: GroupCommit.Trace,
                 ghost h: Schedule.History)
    returns (r: Schedule.Outcome, ghost t': Story, ghost tr': GroupCommit.Trace, ghost h': Schedule.History)
    requires Live(log, files, d0, ws0, s, calls, n, t, tr, h) && n < |calls| && AllowedAt(s, calls, n)
    requires Is(calls[n], a)
    modifies log`lh, log`outstanding, log`committing, log`ops, log.cache
    ensures r.Went? ==> Live(log, files, d0, ws0, s, calls, n + 1, t', tr', h')
    ensures !r.Went? ==> Received(log, files.store.sb, d0, ws0, s, calls, n, t', |t.acts|, h')
    ensures t.acts <= t'.acts && t.idx <= t'.idx && t.snaps <= t'.snaps
    ensures r.Went? ==> Schedule.AfterAll(t'.acts) == Schedule.After(Schedule.AfterAll(t.acts), a)
    ensures log.readers == {} ==>
      && (r.Sleeps? <==> Schedule.Delays(Schedule.AfterAll(t.acts), a))
      && (r.Broke? <==> Schedule.Breaks(log.g.size, Schedule.AfterAll(t.acts), a))
  {
    assert LogSideAt(log, files.store.sb, d0, ws0, s, calls, n, t, tr, h, 0);
    ghost var t1, t2 := Passes(log.g, files.store.sb, d0, s, calls, n, t, a);
    OneMore(t.acts, a);
    r, tr', h' := GroupCommit.Step(log, t.acts, a, d0, ws0, tr, h);
    t' := if r.Went? then t2 else t1;
    if r.Went? { IsLogSide(log, files.store.sb, d0, ws0, s, calls, n + 1, t', tr', h'); }
  }

  /** A write whose updates `us` have brought the story from `t` to `t1`. */
  lemma Writes(g: Crash.Geometry, sb: Super, d0: Disk, s: Spec, calls: seq<Call>, n: nat, t: Story, t1: Story,
               us: seq<Bio.Write>, x: Snap) returns (t': Story)
    requires Told(g, sb, d0, s, calls, n, t) && t.idx[n] == |t.acts| && n < |calls| && AllowedAt(s, calls, n)
    requires calls[n].Write? && Tied(AfterAll(s, calls[..n]), Schedule.AfterAll(t.acts))
    requires Told(g, sb, d0, s, calls, n, t1) && t1.idx == t.idx && t1.snaps == t.snaps
    requires Schedule.Updates(t1.acts) == Schedule.Updates(t.acts) + us
    requires Spends(Schedule.AfterAll(t.acts), Schedule.AfterAll(t1.acts), calls[n].i, us, |us|)
    requires x.d == Bio.Apply(t.snaps[n].d, us) && Shows(sb, x, AfterAll(s, calls[..n + 1]).files)
    ensures t' == t1.(idx := t.idx + [|t1.acts|], snaps := t.snaps + [x]) && Told(g, sb, d0, s, calls, n + 1, t')
    ensures Tied(AfterAll(s, calls[..n + 1]), Schedule.AfterAll(t'.acts))
  {
    AfterNext(s, calls, n);
    assert SnapAt(g, sb, d0, s, calls, t, n) && t.acts[..|t.acts|] == t.acts;
    var made := Schedule.Updates(t.acts);
    Bio.ApplyConcat(d0, made, us);
    FileWrite.SameAfterAll(g, Bio.Apply(d0, made), t.snaps[n].d, us);
    t' := t1.(idx := t.idx + [|t1.acts|], snaps := t.snaps + [x]);
    ToldEnd(g, sb, d0, s, calls, n, t1, x, t');
  }

  lemma ShowsWrite(sb: Super, x: Snap, fs: seq<seq<Byte>>, y: Snap, i: nat, c: seq<Byte>)
    requires Shows(sb, x, fs) && Sound(sb, y) && i < |x.nodes| == |y.nodes| && Contents(y.d, y.nodes[i]) == c
    requires FileWrite.SameFiles(x.d, x.nodes, y.d, y.nodes, i)
    ensures |fs| == |x.nodes| && Shows(sb, y, fs[i := c])
  {
    assert ShowsAt(sb, x, fs, 0);
    var fs' := fs[i := c];
    forall j: nat | j < |fs| ensures Bytes(y)[j] == fs'[j] {
      if j != i { assert FileWrite.SameFile(x.d, x.nodes, y.d, y.nodes, j); }
    }
    assert Bytes(y) == fs';
    forall k: nat ensures ShowsAt(sb, y, fs', k) {}
  }

  /** balloc finds too few blocks for a write. Folded. */
  ghost predicate NoSpace(s: Spec, c: Call, x: Snap, size: nat) {
    forall q: nat {:trigger NoSpaceAt(s, c, x, size, q)} :: NoSpaceAt(s, c, x, size, q)
  }

  ghost predicate NoSpaceAt(s: Spec, c: Call, x: Snap, size: nat, q: nat) {
    && c.Write? && Goes(s, c.inum, c.src, c.off)
    && |x.used| + MoreSlots(|s.files[c.inum]|, c.off + |c.src|) > size
  }

  /** The file system has made a write, by the updates that it has logged. Folded. */
  ghost predicate Written(files: Files, x: Snap, fs: seq<seq<Byte>>)
    reads files, files.store
  {
    forall q: nat {:trigger WrittenAt(files, x, fs, q)} :: WrittenAt(files, x, fs, q)
  }

  ghost predicate WrittenAt(files: Files, x: Snap, fs: seq<seq<Byte>>, q: nat)
    reads files, files.store
  {
    && files.AtRest() && Shows(files.store.sb, SnapOf(files), fs)
    && files.store.disk == Bio.Apply(x.d, files.store.writes)
    && |Bio.Addrs(files.store.writes)| <= Reservation.MAXOPBLOCKS
  }

  /** writei on the file system alone. */
  method DoWrite(files: Files, c: Call, ghost s: Spec) returns (r: IoResult)
    requires files.AtRest() && FileWrite.Small(files) && Shows(files.store.sb, SnapOf(files), s.files)
    requires c.Write? && c.inum < |s.files| && |c.src| < 0x1_0000_0000
    requires Goes(s, c.inum, c.src, c.off) ==> Keeps(|s.files[c.inum]|, c.off, |c.src|)
    modifies files, files.store
    ensures r.Error? <==> !Goes(s, c.inum, c.src, c.off)
    ensures r.Panic? <==>
      && Goes(s, c.inum, c.src, c.off)
      && |old(files.store.used)| + MoreSlots(|s.files[c.inum]|, c.off + |c.src|) > files.store.sb.size
    ensures !r.Panic? ==>
      && files.AtRest() && files.store.disk == Bio.Apply(old(files.store.disk), files.store.writes)
      && |Bio.Addrs(files.store.writes)| <= Reservation.MAXOPBLOCKS
      && (forall w | w in files.store.writes :: files.store.sb.inodestart <= w.a < |files.store.disk|)
    ensures r.Error? ==> Shows(files.store.sb, SnapOf(files), s.files)
    ensures r.Done? ==>
      Shows(files.store.sb, SnapOf(files), s.files[c.inum := Splice(s.files[c.inum], c.off, c.src)])
  {
    ghost var x := SnapOf(files);
    assert ShowsAt(files.store.sb, x, s.files, 0);
    var din := files.store.Iread(c.inum);
    var ip := new Inode(c.inum, din);
    ghost var size, more := ip.din.size, 0;
    r, more := FileWrite.WriteOp(files, ip, c.src, c.off);
    assert GainsIs(size, c.off + |c.src|, more, 0);
    if r.Done? {
      assert KeepsAt(size, c.off, |c.src|, 0);
      assert FileWrite.CountsAt(size, c.off, |c.src|, |Bio.Addrs(files.store.writes)|, 0);
      FileWrite.LayoutFacts(files);
      IsSound(files);
      ShowsWrite(files.store.sb, x, s.files, SnapOf(files), c.inum, Splice(s.files[c.inum], c.off, c.src));
    }
  }

  lemma NoSpaceIs(s: Spec, c: Call, x: Snap, size: nat)
    ensures NoSpace(s, c, x, size) <==> NoSpaceAt(s, c, x, size, 0)
  {
    if NoSpaceAt(s, c, x, size, 0) {
      forall q: nat ensures NoSpaceAt(s, c, x, size, q) {}
    }
  }

  /** It comes to hold what the call `c` means, and logs `us`. */
  method WriteFiles(files: Files, c: Call, ghost s: Spec) returns (ok: bool, us: seq<Bio.Write>)
    requires files.AtRest() && FileWrite.Small(files) && Shows(files.store.sb, SnapOf(files), s.files)
    requires c.Write? && Allowed(s, c)
    modifies files, files.store
    ensures !ok <==> NoSpace(s, c, old(SnapOf(files)), files.store.sb.size)
    ensures ok ==>
      && us == files.store.writes && Written(files, old(SnapOf(files)), After(s, c).files)
      && (forall w | w in us :: files.store.sb.inodestart <= w.a < |files.store.disk|)
  {
    ghost var x := SnapOf(files);
    NoSpaceIs(s, c, x, files.store.sb.size);
    var r := DoWrite(files, c, s);
    ok, us := !r.Panic?, files.store.writes;
    if ok { IsWritten(files, x, After(s, c).files); }
  }

  lemma IsWritten(files: Files, x: Snap, fs: seq<seq<Byte>>)
    requires WrittenAt(files, x, fs, 0)
    ensures Written(files, x, fs)
  {
    forall q: nat ensures WrittenAt(files, x, fs, q) {}
  }

  /** The updates of a write that the file system has made, through the log. */
  method LogOne(log: Log.Log, files: Files, us: seq<Bio.Write>, ghost d0: Disk, ghost ws0: seq<Bio.Write>,
                ghost s: Spec, ghost calls: seq<Call>, ghost n: nat, i: nat, ghost t: Story,
                ghost tr: GroupCommit.Trace, ghost h: Schedule.History)
    returns (r: Schedule.Outcome, ghost t': Story, ghost tr': GroupCommit.Trace, ghost h': Schedule.History)
    requires LogSide(log, files.store.sb, d0, ws0, s, calls, n, t, tr, h) && n < |t.snaps| && n < |calls|
    requires FileWrite.Small(files) && Written(files, t.snaps[n], AfterAll(s, calls[..n + 1]).files)
    requires calls[n].Write? && calls[n].i == i && AllowedAt(s, calls, n)
    requires us == files.store.writes
    requires forall w | w in us :: files.store.sb.inodestart <= w.a < |files.store.disk|
    modifies log`lh, log`outstanding, log`committing, log`ops, log.cache
    ensures r.Went? ==> Live(log, files, d0, ws0, s, calls, n + 1, t', tr', h')
    ensures !r.Went? ==> t'.acts != [] && Received(log, files.store.sb, d0, ws0, s, calls, n, t', |t'.acts| - 1, h')
    ensures t.acts <= t'.acts && t.idx <= t'.idx && t.snaps <= t'.snaps
    ensures r.Went? ==> Schedule.AfterAll(t'.acts) == Puts(Schedule.AfterAll(t.acts), i, us)
    ensures log.readers == {} ==>
      !r.Sleeps? && (r.Broke? <==> Overfull(log.g.size, Schedule.AfterAll(t.acts), i, us))
  {
    assert |Bio.Addrs(us)| <= Reservation.MAXOPBLOCKS by {
      assert WrittenAt(files, t.snaps[n], AfterAll(s, calls[..n + 1]).files, 0);
    }
    SameDisk(log, files, d0, ws0, s, calls, n, t, tr, h);
    r, t', tr', h' := StoreSide(log, us, files.store.sb, d0, ws0, s, calls, n, i, t, tr, h);
    if r.Went? {
      t' := LogWent(log, files, us, d0, ws0, s, calls, n, i, log.readers == {}, t, t', tr', h');
    }
  }

  lemma SameDisk(log: Log.Log, files: Files, d0: Disk, ws0: seq<Bio.Write>, s: Spec, calls: seq<Call>, n: nat,
                 t: Story, tr: GroupCommit.Trace, h: Schedule.History)
    requires LogSide(log, files.store.sb, d0, ws0, s, calls, n, t, tr, h) && n < |t.snaps| && n < |calls|
    requires Written(files, t.snaps[n], AfterAll(s, calls[..n + 1]).files) && FileWrite.Small(files)
    ensures |files.store.disk| == |d0| < 0x1_0000_0000 && log.g.start + log.g.size <= files.store.sb.inodestart
  {
    assert LogSideAt(log, files.store.sb, d0, ws0, s, calls, n, t, tr, h, 0);
    assert WrittenAt(files, t.snaps[n], AfterAll(s, calls[..n + 1]).files, 0);
    assert SnapAt(log.g, files.store.sb, d0, s, calls, t, n);
  }

  ghost predicate EndedAt(g: Crash.Geometry, sb: Super, d0: Disk, s: Spec, calls: seq<Call>, n: nat, t: Story, q: nat) {
    Told(g, sb, d0, s, calls, n, t) && t.idx[n] == |t.acts| && Tied(AfterAll(s, calls[..n]), Schedule.AfterAll(t.acts))
  }

  /** The story has come to the end of the n-th call. Folded. */
  ghost predicate Ended(g: Crash.Geometry, sb: Super, d0: Disk, s: Spec, calls: seq<Call>, n: nat, t: Story) {
    forall q: nat {:trigger EndedAt(g, sb, d0, s, calls, n, t, q)} :: EndedAt(g, sb, d0, s, calls, n, t, q)
  }

  /** StoreAll, at the end of a call. */
  method StoreSide(log: Log.Log, us: seq<Bio.Write>, ghost sb: Super, ghost d0: Disk, ghost ws0: seq<Bio.Write>,
                   ghost s: Spec, ghost calls: seq<Call>, ghost n: nat, i: nat, ghost t: Story,
                   ghost tr: GroupCommit.Trace, ghost h: Schedule.History)
    returns (r: Schedule.Outcome, ghost t': Story, ghost tr': GroupCommit.Trace, ghost h': Schedule.History)
    requires LogSide(log, sb, d0, ws0, s, calls, n, t, tr, h) && n < |calls|
    requires calls[n].Write? && calls[n].i == i && AllowedAt(s, calls, n) && |Bio.Addrs(us)| <= Reservation.MAXOPBLOCKS
    requires |d0| < 0x1_0000_0000 && forall w | w in us :: sb.inodestart <= w.a < |d0|
    modifies log`lh, log`outstanding, log`committing, log`ops, log.cache
    ensures Ended(log.g, sb, d0, s, calls, n, t) && t.acts <= t'.acts && t'.idx == t.idx && t'.snaps == t.snaps
    ensures r.Went? ==>
      && GroupCommit.Going(log, d0, ws0, t'.acts, |t'.acts|, tr', h')
      && Storing(log.g, sb, d0, s, calls, n, i, us, log.readers == {}, t, t', |us|)
    ensures !r.Went? ==> t'.acts != [] && Received(log, sb, d0, ws0, s, calls, n, t', |t'.acts| - 1, h')
    ensures log.readers == {} ==>
      !r.Sleeps? && (r.Broke? <==> Overfull(log.g.size, Schedule.AfterAll(t.acts), i, us))
  {
    assert LogSideAt(log, sb, d0, ws0, s, calls, n, t, tr, h, 0) && RestAt(t, |t.acts|);
    forall q: nat ensures EndedAt(log.g, sb, d0, s, calls, n, t, q) {}
    r, t', tr', h' := StoreAll(log, i, us, sb, d0, ws0, s, calls, n, t, tr, h);
  }

  lemma LogWent(log: Log.Log, files: Files, us: seq<Bio.Write>, d0: Disk, ws0: seq<Bio.Write>, s: Spec,
                calls: seq<Call>, n: nat, i: nat, quiet: bool, t: Story, t1: Story, tr: GroupCommit.Trace,
                h: Schedule.History)
    returns (t': Story)
    requires Ended(log.g, files.store.sb, d0, s, calls, n, t) && n < |t.snaps| && n < |calls|
    requires FileWrite.Small(files) && Written(files, t.snaps[n], AfterAll(s, calls[..n + 1]).files)
    requires calls[n].Write? && calls[n].i == i && AllowedAt(s, calls, n)
    requires us == files.store.writes && log.g.start + log.g.size <= files.store.sb.inodestart
    requires |files.store.disk| == |d0|
    requires GroupCommit.Going(log, d0, ws0, t1.acts, |t1.acts|, tr, h)
    requires Storing(log.g, files.store.sb, d0, s, calls, n, i, us, quiet, t, t1, |us|)
    ensures Live(log, files, d0, ws0, s, calls, n + 1, t', tr, h)
    ensures t.acts <= t'.acts && t.idx <= t'.idx && t.snaps <= t'.snaps
    ensures Schedule.AfterAll(t'.acts) == Puts(Schedule.AfterAll(t.acts), i, us)
  {
    assert EndedAt(log.g, files.store.sb, d0, s, calls, n, t, 0);
    assert WrittenAt(files, t.snaps[n], AfterAll(s, calls[..n + 1]).files, 0);
    StoringAll(log.g, files.store.sb, d0, s, calls, n, i, us, quiet, t, t1);
    t' := Writes(log.g, files.store.sb, d0, s, calls, n, t, t1, us, SnapOf(files));
    IsLogSide(log, files.store.sb, d0, ws0, s, calls, n + 1, t', tr, h);
  }

  /** A write: on the file system, then its updates through the log. */
  method WriteOne(log: Log.Log, files: Files, c: Call, ghost d0: Disk, ghost ws0: seq<Bio.Write>, ghost s: Spec,
                  ghost calls: seq<Call>, ghost n: nat, ghost t: Story, ghost tr: GroupCommit.Trace,
                  ghost h: Schedule.History)
    returns (r: Schedule.Outcome, ghost t': Story, ghost k: nat, ghost tr': GroupCommit.Trace,
             ghost h': Schedule.History)
    requires Live(log, files, d0, ws0, s, calls, n, t, tr, h) && n < |calls| && AllowedAt(s, calls, n)
    requires calls[n] == c && c.Write?
    modifies files, files.store, log`lh, log`outstanding, log`committing, log`ops, log.cache
    ensures r.Went? ==> Live(log, files, d0, ws0, s, calls, n + 1, t', tr', h')
    ensures r.Went? ==> k == |t'.acts|
    ensures !r.Went? ==> Received(log, files.store.sb, d0, ws0, s, calls, n, t', k, h')
    ensures t.acts <= t'.acts && t.idx <= t'.idx && t.snaps <= t'.snaps
    ensures !NoSpace(AfterAll(s, calls[..n]), c, t.snaps[n], files.store.sb.size) ==>
      Written(files, t.snaps[n], AfterAll(s, calls[..n + 1]).files)
    ensures r.Went? ==> Schedule.AfterAll(t'.acts) == Puts(Schedule.AfterAll(t.acts), c.i, files.store.writes)
    ensures log.readers == {} ==>
      && !r.Sleeps?
      && (r.Broke? <==>
            || NoSpace(AfterAll(s, calls[..n]), c, t.snaps[n], files.store.sb.size)
            || Overfull(log.g.size, Schedule.AfterAll(t.acts), c.i, files.store.writes))
  {
    AfterNext(s, calls, n);
    Here(log, files.store.sb, d0, ws0, s, calls, n, t, tr, h);
    var ok, us := WriteFiles(files, c, AfterAll(s, calls[..n]));
    if ok {
      r, t', tr', h' := LogOne(log, files, us, d0, ws0, s, calls, n, c.i, t, tr, h);
      k := |t'.acts| - if r.Went? then 0 else 1;
    } else {
      r, t', k, tr', h' := Schedule.Broke, t, |t.acts|, tr, h;
    }
  }

  /** begin_op sleeps: the reservations do not fit. */
  ghost predicate Waits(c: Call, v: Reservation.State) {
    c.Enter? && |v.lh| + (|v.ops| + 1) * Reservation.MAXOPBLOCKS > Crash.LOGSIZE
  }

  /** A call panics the kernel: balloc has too few blocks for a write, log_write has no room for one of its
      updates `us`, or the commit of the last end_op finds every buffer pinned. */
  ghost predicate Panics(size: nat, blocks: nat, s: Spec, c: Call, x: Snap, v: Reservation.State, us: seq<Bio.Write>) {
    match c
    case Enter => false
    case Write(i, _, _, _) => NoSpace(s, c, x, blocks) || Overfull(size, v, i, us)
    case Leave(i) => Reservation.Starves(Bio.NBUF, v, i)
  }

  /** The n-th call of a run. */
  method Turn(log: Log.Log, files: Files, c: Call, ghost d0: Disk, ghost ws0: seq<Bio.Write>, ghost s: Spec,
              ghost calls: seq<Call>, ghost n: nat, ghost t: Story, ghost tr: GroupCommit.Trace,
              ghost h: Schedule.History)
    returns (r: Schedule.Outcome, ghost t': Story, ghost k: nat, ghost tr': GroupCommit.Trace,
             ghost h': Schedule.History)
    requires Live(log, files, d0, ws0, s, calls, n, t, tr, h) && n < |calls| && c == calls[n] && AllowedAt(s, calls, n)
    modifies files, files.store, log`lh, log`outstanding, log`committing, log`ops, log.cache
    ensures r.Went? ==> Live(log, files, d0, ws0, s, calls, n + 1, t', tr', h') && k == |t'.acts|
    ensures !r.Went? ==> Received(log, files.store.sb, d0, ws0, s, calls, n, t', k, h')
    ensures t.acts <= t'.acts && t.idx <= t'.idx && t.snaps <= t'.snaps
    ensures c.Write? && !NoSpace(AfterAll(s, calls[..n]), c, t.snaps[n], files.store.sb.size) ==>
      Written(files, t.snaps[n], AfterAll(s, calls[..n + 1]).files)
    ensures log.readers == {} ==>
      && (r.Sleeps? <==> Waits(c, Schedule.AfterAll(t.acts)))
      && (r.Broke? <==> Panics(log.g.size, files.store.sb.size, AfterAll(s, calls[..n]), c, t.snaps[n],
                               Schedule.AfterAll(t.acts), files.store.writes))
  {
    if c.Write? {
      r, t', k, tr', h' := WriteOne(log, files, c, d0, ws0, s, calls, n, t, tr, h);
    } else {
      var a := if c.Enter? then Schedule.Join else Schedule.Quit(c.i);
      r, t', tr', h' := PassOne(log, files, a, d0, ws0, s, calls, n, t, tr, h);
      k := if r.Went? then |t'.acts| else |t.acts|;
    }
  }

  /** The log before the n-th call. */
  ghost function LogAt(t: Story, n: nat): Reservation.State {
    if n < |t.idx| && t.idx[n] <= |t.acts| then Schedule.AfterAll(t.acts[..t.idx[n]]) else Reservation.INIT
  }

  lemma SameLogAt(t: Story, t': Story, n: nat)
    requires n < |t.idx| && t.idx[n] <= |t.acts| && t.acts <= t'.acts && t.idx <= t'.idx
    ensures LogAt(t', n) == LogAt(t, n)
  {
    assert t'.acts[..t.idx[n]] == t.acts[..t.idx[n]];
  }

  /** Any number of calls, one after the other as they are scheduled. The first `n` go through, and the next
      one must sleep or panic. With
      Survives and Remounts: whenever the power fails in it, the disk recovers to the files as they were after
      some call that left none running. */
  method Run(log: Log.Log, files: Files, calls: seq<Call>, ghost s: Spec)
    returns (n: nat, r: Schedule.Outcome, ghost t: Story, ghost k: nat, ghost h: Schedule.History)
    requires FileWrite.Mounted(log, files) && files.AtRest() && FileWrite.Small(files)
    requires s == Spec(Bytes(SnapOf(files)), []) && forall k: nat :: AllowedAt(s, calls, k)
    modifies files, files.store, log`lh, log`outstanding, log`committing, log`ops, log.cache
    ensures n <= |calls| && (r.Went? <==> n == |calls|)
    ensures Received(log, files.store.sb, old(log.cache.disk), old(log.cache.writes), s, calls, n, t, k, h)
    ensures r.Went? ==> files.AtRest() && Bytes(SnapOf(files)) == AfterAll(s, calls).files
    ensures r.Went? && AfterAll(s, calls).wrote == [] ==> FileWrite.Mounted(log, files)
    ensures r.Sleeps? <==> n < |calls| && Waits(calls[n], LogAt(t, n))
    ensures r.Broke? <==>
      && n < |calls|
      && Panics(log.g.size, files.store.sb.size, AfterAll(s, calls[..n]), calls[n], t.snaps[n], LogAt(t, n),
                files.store.writes)
    ensures r.Broke? && calls[n].Write? ==>
      || NoSpace(AfterAll(s, calls[..n]), calls[n], t.snaps[n], files.store.sb.size)
      || Written(files, t.snaps[n], AfterAll(s, calls[..n + 1]).files)
  {
    ghost var d0, ws0 := log.cache.disk, log.cache.writes;
    ghost var tr;
    t, tr, h := Begun(log, files, calls, s);
    n, r, k := 0, Schedule.Went, 0;
    while n < |calls|
      invariant n <= |calls| && r.Went? && Live(log, files, d0, ws0, s, calls, n, t, tr, h) && k == |t.acts|
    {
      assert AllowedAt(s, calls, n) && t.acts[..|t.acts|] == t.acts;
      Here(log, files.store.sb, d0, ws0, s, calls, n, t, tr, h);
      ghost var t0 := t;
      r, t, k, tr, h := Turn(log, files, calls[n], d0, ws0, s, calls, n, t, tr, h);
      SameLogAt(t0, t, n);
      if !r.Went? {
        return;
      }
      n := n + 1;
    }
    Finished(log, files, d0, ws0, s, calls, t, tr, h);
  }

  lemma Begun(log: Log.Log, files: Files, calls: seq<Call>, s: Spec)
    returns (t: Story, tr: GroupCommit.Trace, h: Schedule.History)
    requires FileWrite.Mounted(log, files) && files.AtRest() && FileWrite.Small(files)
    requires s == Spec(Bytes(SnapOf(files)), [])
    ensures t.acts == [] && Live(log, files, log.cache.disk, log.cache.writes, s, calls, 0, t, tr, h)
  {
    var d0, x := log.cache.disk, SnapOf(files);
    tr, h := GroupCommit.Begun(log, []);
    t := Story([], [0], [x]);
    IsSound(files);
    forall k: nat ensures ShowsAt(files.store.sb, x, s.files, k) {}
    assert calls[..0] == [] && t.acts[..0] == [];
    forall j: nat ensures SnapAt(log.g, files.store.sb, d0, s, calls, t, j) {}
    IsLogSide(log, files.store.sb, d0, log.cache.writes, s, calls, 0, t, tr, h);
  }

  lemma Finished(log: Log.Log, files: Files, d0: Disk, ws0: seq<Bio.Write>, s: Spec, calls: seq<Call>, t: Story,
                 tr: GroupCommit.Trace, h: Schedule.History)
    requires Live(log, files, d0, ws0, s, calls, |calls|, t, tr, h)
    ensures Received(log, files.store.sb, d0, ws0, s, calls, |calls|, t, |t.acts|, h)
    ensures files.AtRest() && Bytes(SnapOf(files)) == AfterAll(s, calls).files
    ensures log.readers == {} && AfterAll(s, calls).wrote == [] ==> FileWrite.Mounted(log, files)
  {
    Here(log, files.store.sb, d0, ws0, s, calls, |calls|, t, tr, h);
    if AfterAll(s, calls).wrote == [] { AtRestAgain(log, files, d0, ws0, s, calls, t, tr, h); }
    assert calls[..|calls|] == calls;
    assert ShowsAt(files.store.sb, SnapOf(files), AfterAll(s, calls).files, 0);
  }

  /** With no call left running, what the file system holds is on the disk. */
  lemma AtRestAgain(log: Log.Log, files: Files, d0: Disk, ws0: seq<Bio.Write>, s: Spec, calls: seq<Call>, t: Story,
                    tr: GroupCommit.Trace, h: Schedule.History)
    requires Live(log, files, d0, ws0, s, calls, |calls|, t, tr, h) && AfterAll(s, calls).wrote == []
    ensures log.readers == {} ==> FileWrite.Mounted(log, files)
  {
    assert LogSideAt(log, files.store.sb, d0, ws0, s, calls, |calls|, t, tr, h, 0);
    assert calls[..|calls|] == calls && t.acts[..|t.acts|] == t.acts;
    assert SnapAt(log.g, files.store.sb, d0, s, calls, t, |calls|);
    GroupCommit.AllDone(log, d0, ws0, t.acts, tr, h);
  }

  // ---------- a call alone ----------

  /** Updates add their blocks to the log, each once. */
  lemma {:induction false} PutsAppends(v: Reservation.State, i: nat, us: seq<Bio.Write>) returns (app: seq<nat>)
    ensures Puts(v, i, us).lh == v.lh + app && Bio.Distinct(app) && forall a | a in app :: a in Bio.Addrs(us)
  {
    if us == [] {
      app := [];
    } else {
      app := PutsAppends(v, i, us[..|us| - 1]);
      var before, after := Puts(v, i, us[..|us| - 1]).lh, Puts(v, i, us).lh;
      if after != before {
        var a := us[|us| - 1].a;
        assert after == before + [a] && a !in app;
        app := app + [a];
      }
    }
  }

  lemma PutsBound(v: Reservation.State, i: nat, us: seq<Bio.Write>)
    ensures |Puts(v, i, us).lh| <= |v.lh| + |Bio.Addrs(us)|
  {
    var app := PutsAppends(v, i, us);
    Bio.DistinctCard(app);
    Bio.Subset(Bio.ToSet(app), Bio.Addrs(us));
  }

  /** A log that is empty has room for the updates of one call. */
  lemma RoomForOne(size: nat, v: Reservation.State, us: seq<Bio.Write>)
    requires v.lh == [] && |Bio.Addrs(us)| <= Reservation.MAXOPBLOCKS && Reservation.MAXOPBLOCKS + 1 < size
    ensures !Overfull(size, v, 0, us) && |Puts(v, 0, us).lh| <= Reservation.MAXOPBLOCKS
  {
    PutsBound(v, 0, us);
    forall k: nat ensures !RefusedAt(size, v, 0, us, k) {
      if k < |us| {
        PutsBound(v, 0, us[..k]);
        Bio.AddrsOfPrefix(us, k);
      }
    }
  }

  lemma ThreeCalls(s: Spec, c: Call)
    requires s.wrote == [] && c.Write? && c.i == 0 && Allowed(s.(wrote := [false]), c)
    ensures var calls := [Enter, c, Leave(0)];
      && AllowedAt(s, calls, 0) && AllowedAt(s, calls, 1) && AllowedAt(s, calls, 2)
      && AfterAll(s, calls[..1]) == s.(wrote := [false]) && AfterAll(s, calls[..0]) == s
      && AfterAll(s, calls).wrote == [] && AfterAll(s, calls).files == After(s.(wrote := [false]), c).files
  {
    var calls := [Enter, c, Leave(0)];
    AfterNext(s, calls, 0);
    AfterNext(s, calls, 1);
    AfterNext(s, calls, 2);
    assert calls[..0] == [] && calls[..3] == calls;
  }

  method EnterAndWrite(log: Log.Log, files: Files, c: Call, ghost s: Spec, ghost calls: seq<Call>)
    returns (r: Schedule.Outcome, ghost t: Story, ghost tr: GroupCommit.Trace, ghost h: Schedule.History)
    requires FileWrite.Mounted(log, files) && files.AtRest() && FileWrite.Small(files)
    requires s == Spec(Bytes(SnapOf(files)), []) && Reservation.MAXOPBLOCKS + 1 < log.g.size
    requires c.Write? && c.i == 0 && Allowed(s.(wrote := [false]), c)
    requires !NoSpace(s.(wrote := [false]), c, SnapOf(files), files.store.sb.size) && calls == [Enter, c, Leave(0)]
    modifies files, files.store, log`lh, log`outstanding, log`committing, log`ops, log.cache
    ensures r.Went? && Live(log, files, old(log.cache.disk), old(log.cache.writes), s, calls, 2, t, tr, h)
    ensures |Schedule.AfterAll(t.acts).lh| <= Reservation.MAXOPBLOCKS
  {
    ghost var d0, ws0 := log.cache.disk, log.cache.writes;
    ThreeCalls(s, c);
    t, tr, h := Begun(log, files, calls, s);
    r, t, tr, h := PassOne(log, files, Schedule.Join, d0, ws0, s, calls, 0, t, tr, h);
    ghost var v, k := Schedule.AfterAll(t.acts), 0;
    ghost var x := t.snaps[1];
    r, t, k, tr, h := WriteOne(log, files, c, d0, ws0, s, calls, 1, t, tr, h);
    assert WrittenAt(files, x, AfterAll(s, calls[..1 + 1]).files, 0);
    RoomForOne(log.g.size, v, files.store.writes);
  }

  /** begin_op, a write within MAXOPBLOCKS for which there are blocks, and end_op, with no other call running: all
      go through, and the file as written is on the disk. */
  method OneCall(log: Log.Log, files: Files, c: Call, ghost s: Spec) returns (r: Schedule.Outcome)
    requires FileWrite.Mounted(log, files) && files.AtRest() && FileWrite.Small(files)
    requires s == Spec(Bytes(SnapOf(files)), []) && Reservation.MAXOPBLOCKS + 1 < log.g.size
    requires c.Write? && c.i == 0 && Allowed(s.(wrote := [false]), c)
    requires !NoSpace(s.(wrote := [false]), c, SnapOf(files), files.store.sb.size)
    modifies files, files.store, log`lh, log`outstanding, log`committing, log`ops, log.cache
    ensures r.Went? && files.AtRest() && FileWrite.Mounted(log, files)
    ensures Bytes(SnapOf(files)) == After(s.(wrote := [false]), c).files
  {
    ghost var d0, ws0, calls := log.cache.disk, log.cache.writes, [Enter, c, Leave(0)];
    ghost var t, tr, h;
    ThreeCalls(s, c);
    r, t, tr, h := EnterAndWrite(log, files, c, s, calls);
    r, t, tr, h := PassOne(log, files, Schedule.Quit(0), d0, ws0, s, calls, 2, t, tr, h);
    Finished(log, files, d0, ws0, s, calls, t, tr, h);
  }
}
