/** The on-disk redo log of log.c: what commit and recovery write, block by
    block, and what a crash between any two of those writes leaves behind. */
module Crash {
  import opened Params
  import opened Blocks
  import opened Bio

  const LOGSIZE: nat := 30  // param.h: MAXOPBLOCKS * 3

  /** log.start and log.size: the header block, then the logged blocks. */
  datatype Geometry = Geometry(start: nat, size: nat) {
    predicate InLog(a: nat) { start <= a < start + size }
  }

  // ---------- the header block ----------

  /** write_head: the count, then the block numbers; older numbers past them stay. */
  function HeaderBlock(b: Block, lh: seq<Word>): Block
    requires |lh| <= LOGSIZE
  {
    PutWords(WithWord(b, 0, |lh|), 1, lh)
  }

  function HeaderCount(b: Block): Word { WordAt(b, 0) }

  /** read_head. */
  function Homes(b: Block): (lh: seq<Word>)
    requires HeaderCount(b) <= LOGSIZE
    ensures |lh| == HeaderCount(b)
  {
    seq(HeaderCount(b), i requires 0 <= i < HeaderCount(b) => WordAt(b, i + 1))
  }

  lemma HeaderRoundTrip(b: Block, lh: seq<Word>)
    requires |lh| <= LOGSIZE
    ensures HeaderCount(HeaderBlock(b, lh)) == |lh| && Homes(HeaderBlock(b, lh)) == lh
  {
    var b0 := WithWord(b, 0, |lh|);
    WordAfterPut(b0, 1, lh, 0);
    WordAfter(b, 0, |lh|, 0);
    forall i | 0 <= i < |lh| ensures WordAt(HeaderBlock(b, lh), i + 1) == lh[i] {
      WordAfterPut(b0, 1, lh, i + 1);
    }
  }

  // ---------- disk writes, in program order ----------

  ghost predicate GoodHomes(d: Disk, g: Geometry, lh: seq<Word>) {
    && |lh| <= LOGSIZE
    && |lh| < g.size
    && forall i | 0 <= i < |lh| :: lh[i] < |d| && !g.InLog(lh[i])
  }

  ghost predicate GoodLog(d: Disk, g: Geometry) {
    && g.size > 0
    && g.start + g.size <= |d|
    && HeaderCount(d[g.start]) <= LOGSIZE
    && GoodHomes(d, g, Homes(d[g.start]))
  }

  /** write_log: logged blocks of the logical disk `l`, into the log. */
  ghost function LogWrites(l: Disk, g: Geometry, lh: seq<Word>): (ws: seq<Write>)
    requires GoodHomes(l, g, lh)
    ensures |ws| == |lh|
  {
    seq(|lh|, i requires 0 <= i < |lh| => Write(g.start + i + 1, l[lh[i]]))
  }

  /** install_trans: logged blocks, from the log to their homes. */
  ghost function InstallWrites(d: Disk, g: Geometry, lh: seq<Word>): (ws: seq<Write>)
    requires GoodHomes(d, g, lh) && g.start + g.size <= |d|
    ensures |ws| == |lh|
  {
    seq(|lh|, i requires 0 <= i < |lh| => Write(lh[i], d[g.start + i + 1]))
  }

  ghost function HeadWrite(d: Disk, g: Geometry, lh: seq<Word>): Write
    requires |lh| <= LOGSIZE && g.start < |d|
  {
    Write(g.start, HeaderBlock(d[g.start], lh))
  }

  /** recover_from_log. */
  ghost function RecoverWrites(d: Disk, g: Geometry): (ws: seq<Write>)
    requires GoodLog(d, g)
    ensures |ws| == HeaderCount(d[g.start]) + 1
  {
    InstallWrites(d, g, Homes(d[g.start])) + [HeadWrite(d, g, [])]
  }

  /** commit's first two phases; the last write is the commit point. */
  ghost function CommitPrefix(d: Disk, l: Disk, g: Geometry, lh: seq<Word>): (ws: seq<Write>)
    requires GoodLog(d, g) && GoodHomes(d, g, lh) && |l| == |d|
    ensures |ws| == |lh| + 1
  {
    LogWrites(l, g, lh) + [HeadWrite(d, g, lh)]
  }

  /** commit, on a disk `d` whose logical contents are `l`. */
  ghost function CommitWrites(d: Disk, l: Disk, g: Geometry, lh: seq<Word>): (ws: seq<Write>)
    requires GoodLog(d, g) && GoodHomes(d, g, lh) && |l| == |d|
    ensures |ws| == if lh == [] then 0 else 2 * |lh| + 2
  {
    if lh == [] then []
    else
      var d1 := Apply(d, CommitPrefix(d, l, g, lh));
      CommitPrefix(d, l, g, lh) + InstallWrites(d1, g, lh) + [HeadWrite(d1, g, [])]
  }

  // ---------- what a recovery would leave ----------

  /** Home block `a` after installing the first `i` logged blocks over value `v`. */
  ghost function Installed(d: Disk, g: Geometry, lh: seq<Word>, i: nat, a: nat, v: Block): Block
    requires g.start + g.size <= |d| && i <= |lh| < g.size
  {
    if i == 0 then v
    else if lh[i - 1] == a then d[g.start + i]
    else Installed(d, g, lh, i - 1, a, v)
  }

  /** The contents that block `a` has once a recovery of `d` has completed. */
  ghost function Recovered(d: Disk, g: Geometry, a: nat): Block
    requires GoodLog(d, g) && a < |d|
  {
    var lh := Homes(d[g.start]);
    Installed(d, g, lh, |lh|, a, d[a])
  }

  ghost predicate Holds(d: Disk, g: Geometry, home: Disk) {
    && GoodLog(d, g)
    && |d| == |home|
    && forall a | 0 <= a < |d| && !g.InLog(a) :: Recovered(d, g, a) == home[a]
  }

  // ---------- lemmas about prefixes of writes ----------

  /** After i installs, home blocks are `Installed` and the log region is untouched. */
  lemma {:induction false} InstallPrefix(d: Disk, g: Geometry, lh: seq<Word>, i: nat)
    requires g.start + g.size <= |d| && GoodHomes(d, g, lh) && i <= |lh|
    ensures var m := Apply(d, InstallWrites(d, g, lh)[..i]);
            forall a | 0 <= a < |d| :: m[a] == if g.InLog(a) then d[a] else Installed(d, g, lh, i, a, d[a])
  {
    var ws := InstallWrites(d, g, lh);
    if i > 0 {
      InstallPrefix(d, g, lh, i - 1);
      var m := Apply(d, ws[..i - 1]);
      assert Apply(d, ws[..i]) == m[lh[i - 1] := d[g.start + i]] by {
        assert ws[..i] == ws[..i - 1] + [ws[i - 1]];
        ApplySplit(d, ws[..i - 1], ws[i - 1]);
      }
    }
  }

  /** Installing a second time changes nothing. */
  lemma {:induction false} InstallIdempotent(d: Disk, g: Geometry, lh: seq<Word>, i: nat, j: nat, a: nat, v: Block)
    requires g.start + g.size <= |d| && i <= j <= |lh| < g.size
    ensures Installed(d, g, lh, j, a, Installed(d, g, lh, i, a, v)) == Installed(d, g, lh, j, a, v)
  {
    if j > 0 && lh[j - 1] != a {
      InstallIdempotent(d, g, lh, if i < j then i else j - 1, j - 1, a, v);
    }
  }

  lemma {:induction false} InstalledSameLog(d: Disk, d': Disk, g: Geometry, lh: seq<Word>, i: nat, a: nat, v: Block)
    requires g.start + g.size <= |d| == |d'| && i <= |lh| < g.size
    requires forall x | g.start < x < g.start + g.size :: d'[x] == d[x]
    ensures Installed(d', g, lh, i, a, v) == Installed(d, g, lh, i, a, v)
  {
    if i > 0 { InstalledSameLog(d, d', g, lh, i - 1, a, v); }
  }

  // ---------- recovery ----------

  /** A recovery cut off while it installs. */
  lemma InstallCut(d: Disk, g: Geometry, i: nat)
    requires GoodLog(d, g) && i <= HeaderCount(d[g.start])
    ensures var d' := Apply(d, InstallWrites(d, g, Homes(d[g.start]))[..i]);
            && GoodLog(d', g)
            && d'[g.start] == d[g.start]
            && (forall a | 0 <= a < |d| && !g.InLog(a) :: Recovered(d', g, a) == Recovered(d, g, a))
  {
    var lh := Homes(d[g.start]);
    var d' := Apply(d, InstallWrites(d, g, lh)[..i]);
    InstallPrefix(d, g, lh, i);
    forall a | 0 <= a < |d| && !g.InLog(a) ensures Recovered(d', g, a) == Recovered(d, g, a) {
      InstalledSameLog(d, d', g, lh, |lh|, a, d'[a]);
      InstallIdempotent(d, g, lh, i, |lh|, a, d[a]);
    }
  }

  /** With an empty log, a recovery would change nothing. */
  lemma EmptyLog(d: Disk, g: Geometry)
    requires 0 < g.size && g.start + g.size <= |d| && HeaderCount(d[g.start]) == 0
    ensures GoodLog(d, g) && forall a | 0 <= a < |d| :: Recovered(d, g, a) == d[a]
  {
  }

  lemma Clearing(d: Disk, m: Disk, g: Geometry, hb: Block)
    requires GoodLog(d, g) && |m| == |d| && HeaderCount(hb) == 0
    requires forall a | 0 <= a < |d| && !g.InLog(a) :: m[a] == Recovered(d, g, a)
    ensures var d' := m[g.start := hb];
            && GoodLog(d', g)
            && HeaderCount(d'[g.start]) == 0
            && (forall a | 0 <= a < |d| && !g.InLog(a) :: d'[a] == Recovered(d', g, a) == Recovered(d, g, a))
  {
    EmptyLog(m[g.start := hb], g);
  }

  /** A completed recovery. */
  lemma RecoveryDone(d: Disk, g: Geometry)
    requires GoodLog(d, g)
    ensures var d' := Apply(d, RecoverWrites(d, g));
            && GoodLog(d', g)
            && HeaderCount(d'[g.start]) == 0
            && (forall a | 0 <= a < |d| && !g.InLog(a) :: d'[a] == Recovered(d', g, a) == Recovered(d, g, a))
  {
    var lh := Homes(d[g.start]);
    var ws, hb := InstallWrites(d, g, lh), HeaderBlock(d[g.start], []);
    var m := Apply(d, ws);
    assert forall a | 0 <= a < |d| && !g.InLog(a) :: m[a] == Recovered(d, g, a) by {
      assert ws[..|lh|] == ws;
      InstallPrefix(d, g, lh, |lh|);
    }
    assert HeaderCount(hb) == 0 by { HeaderRoundTrip(d[g.start], []); }
    assert Apply(d, RecoverWrites(d, g)) == m[g.start := hb] by {
      assert RecoverWrites(d, g) == ws + [Write(g.start, hb)];
      ApplySplit(d, ws, Write(g.start, hb));
    }
    Clearing(d, m, g, hb);
  }

  /** A recovery cut off after any number of its writes leaves a disk that
      recovers to the same contents; a completed one has them in place. */
  lemma RecoveryCut(d: Disk, g: Geometry, k: nat)
    requires GoodLog(d, g) && k <= |RecoverWrites(d, g)|
    ensures var d' := Apply(d, RecoverWrites(d, g)[..k]);
            && GoodLog(d', g)
            && (forall a | 0 <= a < |d| && !g.InLog(a) :: Recovered(d', g, a) == Recovered(d, g, a))
            && (k == |RecoverWrites(d, g)| ==> HeaderCount(d'[g.start]) == 0)
  {
    var ws := RecoverWrites(d, g);
    if k == |ws| {
      assert ws[..k] == ws;
      RecoveryDone(d, g);
    } else {
      assert ws[..k] == InstallWrites(d, g, Homes(d[g.start]))[..k];
      InstallCut(d, g, k);
    }
  }

  // ---------- commit ----------

  /** After i of write_log's writes only log blocks differ. */
  lemma {:induction false} LogPrefix(d: Disk, l: Disk, g: Geometry, lh: seq<Word>, i: nat)
    requires GoodLog(d, g) && GoodHomes(d, g, lh) && |l| == |d| && i <= |lh|
    ensures var m := Apply(d, LogWrites(l, g, lh)[..i]);
            && (forall a | 0 <= a < |d| && !(g.start < a <= g.start + i) :: m[a] == d[a])
            && (forall j | 0 <= j < i :: m[g.start + 1 + j] == l[lh[j]])
  {
    var ws := LogWrites(l, g, lh);
    if i > 0 {
      LogPrefix(d, l, g, lh, i - 1);
      assert ws[..i] == ws[..i - 1] + [ws[i - 1]];
      ApplySplit(d, ws[..i - 1], ws[i - 1]);
    }
  }

  /** Only logged blocks differ between the logical disk and the disk. */
  ghost predicate Pending(d: Disk, l: Disk, g: Geometry, lh: seq<Word>) {
    && |l| == |d|
    && forall a | 0 <= a < |d| && !g.InLog(a) && a !in lh :: l[a] == d[a]
  }

  lemma {:induction false} InstalledLogged(d: Disk, l: Disk, g: Geometry, lh: seq<Word>, i: nat, a: nat, v: Block)
    requires g.start + g.size <= |d| && GoodHomes(l, g, lh) && i <= |lh|
    requires forall j | 0 <= j < |lh| :: d[g.start + 1 + j] == l[lh[j]]
    requires a < |l| && (a !in lh[..i] ==> v == l[a])
    ensures Installed(d, g, lh, i, a, v) == l[a]
  {
    if i > 0 && lh[i - 1] != a {
      assert forall x | x in lh[..i] :: x in lh[..i - 1] || x == lh[i - 1];
      InstalledLogged(d, l, g, lh, i - 1, a, v);
    }
  }

  /** The commit point: with the header written, the disk recovers to the whole transaction. */
  lemma CommitPoint(d: Disk, l: Disk, g: Geometry, lh: seq<Word>)
    requires GoodLog(d, g) && HeaderCount(d[g.start]) == 0 && GoodHomes(d, g, lh) && Pending(d, l, g, lh)
    ensures var d1 := Apply(d, CommitPrefix(d, l, g, lh));
            Holds(d1, g, l) && Homes(d1[g.start]) == lh
  {
    var lw, hw := LogWrites(l, g, lh), HeadWrite(d, g, lh);
    assert lw[..|lh|] == lw;
    LogPrefix(d, l, g, lh, |lh|);
    ApplySplit(d, lw, hw);
    HeaderRoundTrip(d[g.start], lh);
    var d1 := Apply(d, CommitPrefix(d, l, g, lh));
    forall a | 0 <= a < |d| && !g.InLog(a) ensures Recovered(d1, g, a) == l[a] {
      assert lh[..|lh|] == lh;
      InstalledLogged(d1, l, g, lh, |lh|, a, d1[a]);
    }
  }

  lemma CutBefore(d: Disk, l: Disk, g: Geometry, lh: seq<Word>, k: nat)
    requires GoodLog(d, g) && HeaderCount(d[g.start]) == 0 && GoodHomes(d, g, lh) && |l| == |d| && k <= |lh|
    ensures Holds(Apply(d, LogWrites(l, g, lh)[..k]), g, d)
  {
    LogPrefix(d, l, g, lh, k);
  }

  /** Past the commit point a commit does what a recovery would do. */
  lemma CommitIsRecovery(d: Disk, l: Disk, g: Geometry, lh: seq<Word>)
    requires GoodLog(d, g) && GoodHomes(d, g, lh) && |l| == |d| && lh != []
    requires var d1 := Apply(d, CommitPrefix(d, l, g, lh)); GoodLog(d1, g) && Homes(d1[g.start]) == lh
    ensures var pre := CommitPrefix(d, l, g, lh); CommitWrites(d, l, g, lh) == pre + RecoverWrites(Apply(d, pre), g)
  {
  }

  lemma CutConcat(d: Disk, pre: seq<Write>, rest: seq<Write>, n: nat)
    requires n <= |rest|
    ensures Apply(d, (pre + rest)[..|pre| + n]) == Apply(Apply(d, pre), rest[..n])
  {
    assert (pre + rest)[..|pre| + n] == pre + rest[..n];
    ApplyConcat(d, pre, rest[..n]);
  }

  lemma CutAfter(d: Disk, l: Disk, g: Geometry, lh: seq<Word>, k: nat)
    requires GoodLog(d, g) && HeaderCount(d[g.start]) == 0 && GoodHomes(d, g, lh) && Pending(d, l, g, lh) && lh != []
    requires |lh| < k <= |CommitWrites(d, l, g, lh)|
    ensures var ws := CommitWrites(d, l, g, lh);
            var d' := Apply(d, ws[..k]);
            && Holds(d', g, l)
            && (k == |ws| ==> HeaderCount(d'[g.start]) == 0)
  {
    var pre := CommitPrefix(d, l, g, lh);
    var d1, n := Apply(d, pre), k - |lh| - 1;
    CommitPoint(d, l, g, lh);
    CommitIsRecovery(d, l, g, lh);
    CutConcat(d, pre, RecoverWrites(d1, g), n);
    RecoveryCut(d1, g, n);
  }

  /** A commit cut off after any number of its writes has either happened
      entirely or not at all, according to whether the header was written. */
  lemma CommitCut(d: Disk, l: Disk, g: Geometry, lh: seq<Word>, k: nat)
    requires GoodLog(d, g) && HeaderCount(d[g.start]) == 0 && GoodHomes(d, g, lh) && Pending(d, l, g, lh)
    requires k <= |CommitWrites(d, l, g, lh)|
    ensures var ws := CommitWrites(d, l, g, lh);
            var d' := Apply(d, ws[..k]);
            && Holds(d', g, if k > |lh| then l else d)
            && (k == |ws| ==> HeaderCount(d'[g.start]) == 0)
  {
    if k > |lh| {
      CutAfter(d, l, g, lh, k);
    } else if lh != [] {
      assert CommitWrites(d, l, g, lh)[..k] == LogWrites(l, g, lh)[..k];
      CutBefore(d, l, g, lh, k);
    }
  }

  // ---------- every run ----------

  /** The machine: the disk, and whether the file system is up (log clear). */
  datatype Machine = Machine(disk: Disk, up: bool)

  datatype Event =
    | Commit(l: Disk, lh: seq<Word>, k: nat)  // a commit of logical disk l, of which k writes happen
    | PowerLoss                               // while no commit is running
    | Recovery(k: nat)                        // a reboot, of whose recovery k writes happen

  ghost predicate Happens(m: Machine, g: Geometry, e: Event, m': Machine) {
    match e
    case Commit(l, lh, k) =>
      && m.up
      && GoodLog(m.disk, g) && GoodHomes(m.disk, g, lh) && Pending(m.disk, l, g, lh)
      && k <= |CommitWrites(m.disk, l, g, lh)|
      && m' == Machine(Apply(m.disk, CommitWrites(m.disk, l, g, lh)[..k]), k == |CommitWrites(m.disk, l, g, lh)|)
    case PowerLoss => m' == m.(up := false)
    case Recovery(k) =>
      && !m.up
      && GoodLog(m.disk, g)
      && k <= |RecoverWrites(m.disk, g)|
      && m' == Machine(Apply(m.disk, RecoverWrites(m.disk, g)[..k]), k == |RecoverWrites(m.disk, g)|)
  }

  /** The same event on a disk whose transactions are atomic and never torn. */
  ghost function AtomicAfter(home: Disk, e: Event): Disk {
    if e.Commit? && e.k > |e.lh| then e.l else home
  }

  ghost predicate IsRun(g: Geometry, ms: seq<Machine>, homes: seq<Disk>, es: seq<Event>) {
    && |ms| == |homes| == |es| + 1
    && forall i | 0 <= i < |es| :: Happens(ms[i], g, es[i], ms[i + 1]) && homes[i + 1] == AtomicAfter(homes[i], es[i])
  }

  ghost predicate Consistent(m: Machine, g: Geometry, home: Disk) {
    Holds(m.disk, g, home) && (m.up ==> HeaderCount(m.disk[g.start]) == 0)
  }

  lemma EventKeeps(m: Machine, g: Geometry, e: Event, home: Disk, m': Machine)
    requires Consistent(m, g, home) && Happens(m, g, e, m')
    ensures Consistent(m', g, AtomicAfter(home, e))
  {
    match e {
      case Commit(l, lh, k) => CommitCut(m.disk, l, g, lh, k);
      case PowerLoss =>
      case Recovery(k) => RecoveryCut(m.disk, g, k);
    }
  }

  /** A commit and a recovery can be cut off after any of their writes and can get through, and exactly then
      the system is up. */
  lemma EveryCut(m: Machine, g: Geometry, home: Disk, l: Disk, lh: seq<Word>, k: nat)
    requires Consistent(m, g, home)
    ensures m.up && GoodHomes(m.disk, g, lh) && Pending(m.disk, l, g, lh) && k <= |CommitWrites(m.disk, l, g, lh)| ==>
      exists m' :: Happens(m, g, Commit(l, lh, k), m') && (m'.up <==> k == |CommitWrites(m.disk, l, g, lh)|)
    ensures !m.up && k <= |RecoverWrites(m.disk, g)| ==>
      exists m' :: Happens(m, g, Recovery(k), m') && (m'.up <==> k == |RecoverWrites(m.disk, g)|)
  {
    if m.up && GoodHomes(m.disk, g, lh) && Pending(m.disk, l, g, lh) && k <= |CommitWrites(m.disk, l, g, lh)| {
      var ws := CommitWrites(m.disk, l, g, lh);
      assert Happens(m, g, Commit(l, lh, k), Machine(Apply(m.disk, ws[..k]), k == |ws|));
    }
    if !m.up && k <= |RecoverWrites(m.disk, g)| {
      var ws := RecoverWrites(m.disk, g);
      assert Happens(m, g, Recovery(k), Machine(Apply(m.disk, ws[..k]), k == |ws|));
    }
  }

  lemma UpIsInPlace(m: Machine, g: Geometry, home: Disk)
    requires Consistent(m, g, home)
    ensures m.up ==> forall a | 0 <= a < |m.disk| && !g.InLog(a) :: m.disk[a] == home[a]
  {
    if m.up { EmptyLog(m.disk, g); }
  }

  /** Crash atomicity. Whatever commits, power losses and recoveries happen, and
      wherever each is cut off, the disk recovers to exactly the transactions whose
      header was written; whenever the system is up they are in place and the
      log is empty. */
  lemma {:induction false} CrashAtomicity(g: Geometry, ms: seq<Machine>, homes: seq<Disk>, es: seq<Event>, i: nat)
    requires IsRun(g, ms, homes, es) && Consistent(ms[0], g, homes[0]) && i < |ms|
    ensures Consistent(ms[i], g, homes[i])
    ensures ms[i].up ==> forall a | 0 <= a < |ms[i].disk| && !g.InLog(a) :: ms[i].disk[a] == homes[i][a]
  {
    if i > 0 {
      CrashAtomicity(g, ms, homes, es, i - 1);
      assert Happens(ms[i - 1], g, es[i - 1], ms[i - 1 + 1]);
      assert homes[i - 1 + 1] == AtomicAfter(homes[i - 1], es[i - 1]);
      EventKeeps(ms[i - 1], g, es[i - 1], homes[i - 1], ms[i]);
    }
    UpIsInPlace(ms[i], g, homes[i]);
  }
}
