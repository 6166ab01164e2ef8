/** commit, bread by bread and bwrite by bwrite, among readers that come and go: processes that hold
    buffers of any block, logged ones too, and make commit wait for them. */
module CommitRun {
  import opened Params
  import opened Blocks
  import opened Bio
  import opened Crash
  import Log

  /** A commit of logical disk `l` over disk `d`, of the blocks `lh`. */
  datatype Commit = Commit(d: Disk, l: Disk, g: Geometry, lh: seq<Word>)

  ghost predicate Good(k: Commit) {
    && GoodLog(k.d, k.g) && HeaderCount(k.d[k.g.start]) == 0 && GoodHomes(k.d, k.g, k.lh) && k.lh != []
    && Pending(k.d, k.l, k.g, k.lh) && (forall a: nat | k.g.InLog(a) :: k.l[a] == k.d[a]) && |k.d| <= 0x1_0000_0000
  }

  ghost function All(k: Commit): (ws: seq<Write>)
    requires Good(k)
    ensures |ws| == 2 * |k.lh| + 2
  {
    CommitWrites(k.d, k.l, k.g, k.lh)
  }

  // ---------- what commit copies where ----------

  /** The j-th write copies this block; write_head's two copy none. */
  function Source(k: Commit, j: nat): Option<nat> {
    var n := |k.lh|;
    if j < n then Some(k.lh[j]) else if n < j <= 2 * n then Some(k.g.start + (j - n)) else None
  }

  function Target(k: Commit, j: nat): nat {
    var n := |k.lh|;
    if j < n then k.g.start + j + 1 else if n < j <= 2 * n then k.lh[j - n - 1] else k.g.start
  }

  /** What the j-th write stores, on a logical disk `m`. */
  ghost function Stored(k: Commit, m: Disk, j: nat): Block
    requires k.g.start < |m| && |k.lh| <= LOGSIZE && (Source(k, j).Some? ==> Source(k, j).value < |m|)
  {
    if Source(k, j).Some? then m[Source(k, j).value]
    else HeaderBlock(m[k.g.start], if j == |k.lh| then k.lh else [])
  }

  /** The logical disk after j writes. */
  ghost function View(k: Commit, j: nat): (m: Disk)
    requires Good(k) && j <= |All(k)|
    ensures |m| == |k.d|
  {
    Apply(k.l, All(k)[..j])
  }

  lemma ApplyNext(d: Disk, ws: seq<Write>, j: nat)
    requires j < |ws| && ws[j].a < |d|
    ensures Apply(d, ws[..j + 1]) == Apply(d, ws[..j])[ws[j].a := ws[j].data]
  {
    assert ws[..j + 1] == ws[..j] + [ws[j]];
    ApplySplit(d, ws[..j], ws[j]);
  }

  /** write_log and the first write_head. */
  lemma EarlyWrites(k: Commit, j: nat)
    requires Good(k) && j <= |k.lh|
    ensures All(k)[..j] == LogWrites(k.l, k.g, k.lh)[..j] && All(k)[j].a == Target(k, j) < |k.d|
    ensures All(k)[j].data == Stored(k, View(k, j), j)
  {
    LogPrefix(k.l, k.l, k.g, k.lh, j);
  }

  /** What write_log leaves in a block of the log region. */
  lemma LogBlock(d: Disk, l: Disk, g: Geometry, lh: seq<Word>, a: nat)
    requires GoodLog(d, g) && GoodHomes(d, g, lh) && |l| == |d| && g.InLog(a)
    ensures Apply(d, LogWrites(l, g, lh))[a] == if g.start < a <= g.start + |lh| then l[lh[a - g.start - 1]] else d[a]
  {
    var ws, n := LogWrites(l, g, lh), |lh|;
    assert ws[..n] == ws;
    LogPrefix(d, l, g, lh, n);
    var m := Apply(d, ws);
    if g.start < a <= g.start + n {
      var j := a - g.start - 1;
      assert m[g.start + 1 + j] == l[lh[j]];
    }
  }

  /** So does the first write_head. */
  lemma AtCommitPoint(k: Commit) returns (d1: Disk, l1: Disk)
    requires Good(k)
    ensures var ps := CommitPrefix(k.d, k.l, k.g, k.lh); d1 == Apply(k.d, ps) && l1 == Apply(k.l, ps)
    ensures |d1| == |l1| == |k.d| && forall a: nat | k.g.InLog(a) :: l1[a] == d1[a]
  {
    var lw, hw := LogWrites(k.l, k.g, k.lh), HeadWrite(k.d, k.g, k.lh);
    var d0, l0 := Apply(k.d, lw), Apply(k.l, lw);
    ApplySplit(k.d, lw, hw);
    ApplySplit(k.l, lw, hw);
    forall a: nat | k.g.InLog(a) ensures l0[a] == d0[a] {
      LogBlock(k.d, k.l, k.g, k.lh, a);
      LogBlock(k.l, k.l, k.g, k.lh, a);
    }
    d1, l1 := d0[hw.a := hw.data], l0[hw.a := hw.data];
  }

  /** install_trans leaves the log region alone. */
  lemma Installing(g: Geometry, d1: Disk, l1: Disk, lh: seq<Word>, i: nat)
    requires 0 < g.size && g.start + g.size <= |d1| == |l1| && GoodHomes(d1, g, lh) && i <= |lh|
    requires forall a: nat | g.InLog(a) :: l1[a] == d1[a]
    ensures var m := Apply(l1, InstallWrites(d1, g, lh)[..i]); forall a: nat | g.InLog(a) :: m[a] == d1[a]
  {
    assert InstallWrites(l1, g, lh) == InstallWrites(d1, g, lh);
    InstallPrefix(l1, g, lh, i);
  }

  /** The parts of a commit's writes. */
  lemma Parts(k: Commit, d1: Disk)
    requires Good(k) && d1 == Apply(k.d, CommitPrefix(k.d, k.l, k.g, k.lh))
    ensures All(k) == CommitPrefix(k.d, k.l, k.g, k.lh) + InstallWrites(d1, k.g, k.lh) + [HeadWrite(d1, k.g, [])]
  {
  }

  lemma CutInThree(a: seq<Write>, b: seq<Write>, c: Write, j: nat)
    requires |a| <= j <= |a| + |b|
    ensures (a + b + [c])[..j] == a + b[..j - |a|]
    ensures (a + b + [c])[j] == if j - |a| < |b| then b[j - |a|] else c
  {
  }

  lemma LateView(k: Commit, j: nat) returns (d1: Disk, m: Disk)
    requires Good(k) && |k.lh| < j < |All(k)|
    ensures m == View(k, j) && |d1| == |m| && forall a: nat | k.g.InLog(a) :: m[a] == d1[a]
    ensures var i := j - |k.lh| - 1;
      All(k)[j] == if i < |k.lh| then InstallWrites(d1, k.g, k.lh)[i] else HeadWrite(d1, k.g, [])
  {
    var ps, i, l1 := CommitPrefix(k.d, k.l, k.g, k.lh), j - |k.lh| - 1, [];
    d1, l1 := AtCommitPoint(k);
    var iw, cw := InstallWrites(d1, k.g, k.lh), HeadWrite(d1, k.g, []);
    Parts(k, d1);
    CutInThree(ps, iw, cw, j);
    m := Apply(l1, iw[..i]);
    ApplyConcat(k.l, ps, iw[..i]);
    Installing(k.g, d1, l1, k.lh, i);
  }

  lemma StoredFrom(k: Commit, d1: Disk, m: Disk, j: nat, w: Write)
    requires |d1| == |m| && k.g.start + k.g.size <= |m| && 0 < k.g.size && GoodHomes(d1, k.g, k.lh)
    requires |k.lh| < j <= 2 * |k.lh| + 1 && forall a: nat | k.g.InLog(a) :: m[a] == d1[a]
    requires var i := j - |k.lh| - 1;
      w == if i < |k.lh| then InstallWrites(d1, k.g, k.lh)[i] else HeadWrite(d1, k.g, [])
    ensures w.a == Target(k, j) < |m| && (Source(k, j).Some? ==> Source(k, j).value < |m|) && w.data == Stored(k, m, j)
  {
    assert k.g.InLog(k.g.start);
    if j <= 2 * |k.lh| {
      assert k.g.InLog(k.g.start + (j - |k.lh|));
    } else {
      assert m[k.g.start] == d1[k.g.start];
    }
  }

  /** install_trans and the second write_head. */
  lemma LateWrites(k: Commit, j: nat)
    requires Good(k) && |k.lh| < j < |All(k)|
    ensures All(k)[j].a == Target(k, j) < |k.d| && All(k)[j].data == Stored(k, View(k, j), j)
  {
    var d1, m := LateView(k, j);
    StoredFrom(k, d1, m, j, All(k)[j]);
  }

  /** Each write stores what the code computes for it from the logical disk. */
  lemma Computed(k: Commit, j: nat)
    requires Good(k) && j < |All(k)|
    ensures All(k)[j] == Write(Target(k, j), Stored(k, View(k, j), j)) && Target(k, j) < |k.d|
    ensures Source(k, j).Some? ==> Source(k, j).value < |k.d| && Source(k, j).value != Target(k, j)
  {
    if j <= |k.lh| { EarlyWrites(k, j); } else { LateWrites(k, j); }
  }

  ghost predicate PlannedAt(k: Commit, all: seq<Write>, j: nat)
    requires |k.l| == |k.d| && k.g.start < |k.d| && |k.lh| <= LOGSIZE
  {
    j < |all| ==>
      && (Source(k, j).Some? ==> Source(k, j).value < |k.d| && Source(k, j).value != Target(k, j))
      && all[j] == Write(Target(k, j), Stored(k, Apply(k.l, all[..j]), j)) && Target(k, j) < |k.d|
  }

  /** The writes `all` are what commit computes, one after the other. */
  ghost predicate Planned(k: Commit, all: seq<Write>) {
    && |k.l| == |k.d| <= 0x1_0000_0000 && k.g.start < |k.d| && |k.lh| <= LOGSIZE && |all| == 2 * |k.lh| + 2
    && forall j: nat {:trigger PlannedAt(k, all, j)} :: PlannedAt(k, all, j)
  }

  lemma IsPlanned(k: Commit)
    requires Good(k)
    ensures Planned(k, All(k))
  {
    var all := All(k);
    forall j: nat ensures PlannedAt(k, all, j) {
      if j < |all| { Computed(k, j); }
    }
  }

  // ---------- commit as a thread ----------

  /** In the j-th copy: the buffers commit has got so far are being read, the target is changed, its bwrite
      has begun, or has ended. */
  datatype Stage = Reading | Changed | Marked | Written

  datatype Thread = Thread(j: nat, src: Option<nat>, dst: Option<nat>, at: Stage)

  /** The thread, the cache it shares with the readers, and the blocks written to the disk so far. */
  datatype Sys = Sys(c: Cache, t: Thread, ws: seq<Write>)

  /** The block whose bread comes next: write_log reads the target first, install_trans the source. */
  function Wants(k: Commit, t: Thread): Option<nat> {
    if t.dst.None? && (t.j <= |k.lh| || t.src.Some? || Source(k, t.j).None?) then Some(Target(k, t.j))
    else if t.src.None? then Source(k, t.j)
    else None
  }

  /** bread has returned with the buffer, if there is one. */
  ghost predicate Has(c: Cache, b: Option<nat>) { b.Some? ==> Holding(c, b.value) }

  ghost function NewData(k: Commit, c: Cache, t: Thread): Block
    requires t.dst.Some? && t.dst.value < |c.bufs| && |k.lh| <= LOGSIZE && (t.src.Some? ==> t.src.value < |c.bufs|)
  {
    if t.src.Some? then c.bufs[t.src.value].data
    else HeaderBlock(c.bufs[t.dst.value].data, if t.j == |k.lh| then k.lh else [])
  }

  /** What commit itself does. */
  ghost predicate Mine(k: Commit, c: Cache, t: Thread, s: Step, t': Thread) {
    && t.j < 2 * |k.lh| + 2 && Has(c, t.src) && |k.lh| <= LOGSIZE
    && match t.at
       case Reading =>
         && Has(c, t.dst)
         && (match Wants(k, t)
             case Some(a) =>
               && s.Bget? && s.a == a
               && t' == if a == Target(k, t.j) then t.(dst := Some(s.b)) else t.(src := Some(s.b))
             case None =>
               t.dst.Some? && s == Modify(t.dst.value, NewData(k, c, t)) && t' == t.(at := Changed))
       case Changed => t.dst.Some? && s == Mark(t.dst.value) && t' == t.(at := Marked)
       case Marked => false
       case Written =>
         if t.src.Some? then s == Brelse(t.src.value) && t' == t.(src := None)
         else t.dst.Some? && s == Brelse(t.dst.value) && t' == Thread(t.j + 1, None, None, Reading)
  }

  /** What a reader does: bread of any block, and brelse of what it has. */
  ghost predicate Theirs(t: Thread, s: Step, t': Thread) {
    (s.Bget? || (s.Brelse? && t.src != Some(s.b) && t.dst != Some(s.b))) && t' == t
  }

  /** The driver serves somebody; a buffer that is dirty is written. */
  ghost predicate Served(c: Cache, t: Thread, s: Step, t': Thread) {
    s.Sync? && t' == if t.at == Marked && t.dst == Some(s.b) then t.(at := Written) else t
  }

  ghost predicate Moves(k: Commit, x: Sys, s: Step, x': Sys) {
    && Next(x.c, s, x'.c) && (Mine(k, x.c, x.t, s, x'.t) || Theirs(x.t, s, x'.t) || Served(x.c, x.t, s, x'.t))
    && s.b < |x.c.bufs|
    && var buf := x.c.bufs[s.b];
       x'.ws == if s.Sync? && buf.dirty then x.ws + [Write(buf.blockno, buf.data)] else x.ws
  }

  // ---------- what every move keeps ----------

  /** The thread has buffer `b`, for block `a`. */
  ghost predicate Owns(c: Cache, b: nat, a: nat) {
    b < |c.bufs| && c.bufs[b].busy && c.bufs[b].Names(ROOTDEV, c.bufs[b].blockno) && c.bufs[b].blockno == a
  }

  ghost predicate MineOk(k: Commit, all: seq<Write>, c: Cache, t: Thread) {
    && (t.src.Some? ==> Source(k, t.j).Some? && Owns(c, t.src.value, Source(k, t.j).value))
    && (t.dst.Some? ==> Owns(c, t.dst.value, Target(k, t.j)))
    && (t.at != Reading ==> t.dst.Some? && t.j < |all| && c.bufs[t.dst.value].data == all[t.j].data)
    && (t.at == Changed || t.at == Written ==> Holding(c, t.dst.value))
    && (t.at == Marked ==> t.dst.value in c.syncing && c.bufs[t.dst.value].dirty)
    && (t.at != Reading ==> Has(c, t.src))
  }

  function Bit(b: bool): nat { if b then 1 else 0 }

  /** Where the thread has got to: what is on the disk, and in the logical disk. */
  ghost predicate BooksAt(k: Commit, all: seq<Write>, x: Sys, q: nat) {
    && x.t.j + Bit(x.t.at != Reading) <= |all|
    && x.ws == all[..x.t.j + Bit(x.t.at == Written)]
    && x.c.disk == Apply(k.d, all[..x.t.j + Bit(x.t.at == Written)])
    && Logical(x.c) == Apply(k.l, all[..x.t.j + Bit(x.t.at != Reading)])
  }

  /** Folded (see Bio.Bcache.Valid). */
  ghost predicate Books(k: Commit, all: seq<Write>, x: Sys) {
    forall q: nat {:trigger BooksAt(k, all, x, q)} :: BooksAt(k, all, x, q)
  }

  ghost predicate Safe(k: Commit, all: seq<Write>, x: Sys) {
    && Inv(x.c) && |x.c.disk| == |k.d| && x.t.j <= |all| && Books(k, all, x)
    && (x.t.j == |all| ==> x.t == Thread(|all|, None, None, Reading))
    && x.c.touched == (if x.t.at == Changed && x.t.dst.Some? then {x.t.dst.value} else {})
    && (forall b | b in x.c.syncing && b < |x.c.bufs| && x.c.bufs[b].dirty :: x.t.at == Marked && x.t.dst == Some(b))
    && MineOk(k, all, x.c, x.t)
  }

  /** The books stay as they are while disk, logical disk and thread do. */
  lemma BooksStay(k: Commit, all: seq<Write>, x: Sys, x': Sys)
    requires Books(k, all, x) && x'.ws == x.ws && x'.c.disk == x.c.disk && Logical(x'.c) == Logical(x.c)
    requires x'.t.j == x.t.j && (x'.t.at == x.t.at || (x.t.at == Changed && x'.t.at == Marked))
    ensures Books(k, all, x')
  {
    assert BooksAt(k, all, x, 0);
    forall q: nat ensures BooksAt(k, all, x', q) {}
  }

  /** A reader gets a buffer or gives one back. */
  lemma TheirsKeeps(k: Commit, all: seq<Write>, x: Sys, s: Step, x': Sys)
    requires Planned(k, all) && Safe(k, all, x) && Moves(k, x, s, x') && Theirs(x.t, s, x'.t)
    ensures Safe(k, all, x')
  {
    StepKeeps(x.c, s, x'.c);
    StepIsLocal(x.c, s, x'.c);
    assert GoodBuf(x.c, s.b, x.c.bufs[s.b]);
    BooksStay(k, all, x, x');
  }

  /** commit's bread gets a buffer. */
  lemma GetKeeps(k: Commit, all: seq<Write>, x: Sys, s: Step, x': Sys)
    requires Planned(k, all) && Safe(k, all, x) && Moves(k, x, s, x') && Mine(k, x.c, x.t, s, x'.t) && s.Bget?
    ensures Safe(k, all, x')
  {
    StepKeeps(x.c, s, x'.c);
    BgetKeeps(x.c, s, x'.c);
    StepIsLocal(x.c, s, x'.c);
    assert PlannedAt(k, all, x.t.j);
    assert GoodBuf(x.c, s.b, x.c.bufs[s.b]);
    BooksStay(k, all, x, x');
  }

  /** The data that commit stores is what was planned. */
  lemma DataIsPlanned(k: Commit, all: seq<Write>, x: Sys)
    requires Planned(k, all) && Safe(k, all, x) && x.t.at == Reading && Wants(k, x.t).None? && x.t.j < |all|
    requires x.t.dst.Some? && Has(x.c, x.t.dst) && Has(x.c, x.t.src)
    ensures x.t.dst.value < NBUF && (x.t.src.Some? ==> x.t.src.value < NBUF)
    ensures NewData(k, x.c, x.t) == all[x.t.j].data && x.c.bufs[x.t.dst.value].blockno == all[x.t.j].a < |k.d|
  {
    assert PlannedAt(k, all, x.t.j) && BooksAt(k, all, x, 0);
    LogicalCached(x.c, x.t.dst.value);
    if x.t.src.Some? { LogicalCached(x.c, x.t.src.value); }
  }

  /** memmove into the target. */
  lemma ModifyKeeps(k: Commit, all: seq<Write>, x: Sys, s: Step, x': Sys)
    requires Planned(k, all) && Safe(k, all, x) && Moves(k, x, s, x') && Mine(k, x.c, x.t, s, x'.t) && s.Modify?
    ensures Safe(k, all, x')
  {
    StepKeeps(x.c, s, x'.c);
    StepIsLocal(x.c, s, x'.c);
    DataIsPlanned(k, all, x);
    assert BooksAt(k, all, x, 0);
    ApplyNext(k.l, all, x.t.j);
    forall q: nat ensures BooksAt(k, all, x', q) {}
  }

  /** bwrite begins. */
  lemma MarkKeeps(k: Commit, all: seq<Write>, x: Sys, s: Step, x': Sys)
    requires Planned(k, all) && Safe(k, all, x) && Moves(k, x, s, x') && Mine(k, x.c, x.t, s, x'.t) && s.Mark?
    ensures Safe(k, all, x')
  {
    StepKeeps(x.c, s, x'.c);
    StepIsLocal(x.c, s, x'.c);
    assert PlannedAt(k, all, x.t.j);
    BooksStay(k, all, x, x');
  }

  /** brelse. */
  lemma BrelseKeeps(k: Commit, all: seq<Write>, x: Sys, s: Step, x': Sys)
    requires Planned(k, all) && Safe(k, all, x) && Moves(k, x, s, x') && Mine(k, x.c, x.t, s, x'.t) && s.Brelse?
    ensures Safe(k, all, x')
  {
    StepKeeps(x.c, s, x'.c);
    StepIsLocal(x.c, s, x'.c);
    assert BooksAt(k, all, x, 0) && PlannedAt(k, all, x.t.j);
    forall q: nat ensures BooksAt(k, all, x', q) {}
  }

  /** The driver serves a reader, or a bread of commit's. */
  lemma ReadKeeps(k: Commit, all: seq<Write>, x: Sys, s: Step, x': Sys)
    requires Planned(k, all) && Safe(k, all, x) && Moves(k, x, s, x') && s.Sync? && !x.c.bufs[s.b].dirty
    ensures Safe(k, all, x')
  {
    StepKeeps(x.c, s, x'.c);
    SyncKeeps(x.c, s, x'.c);
    StepIsLocal(x.c, s, x'.c);
    BooksStay(k, all, x, x');
  }

  /** The driver writes commit's target. */
  lemma WriteKeeps(k: Commit, all: seq<Write>, x: Sys, s: Step, x': Sys)
    requires Planned(k, all) && Safe(k, all, x) && Moves(k, x, s, x') && s.Sync? && x.c.bufs[s.b].dirty
    ensures Safe(k, all, x')
  {
    StepKeeps(x.c, s, x'.c);
    SyncKeeps(x.c, s, x'.c);
    StepIsLocal(x.c, s, x'.c);
    assert BooksAt(k, all, x, 0) && PlannedAt(k, all, x.t.j);
    ApplyNext(k.d, all, x.t.j);
    assert all[..x.t.j + 1] == all[..x.t.j] + [all[x.t.j]];
    forall q: nat ensures BooksAt(k, all, x', q) {}
  }

  lemma MoveKeeps(k: Commit, all: seq<Write>, x: Sys, s: Step, x': Sys)
    requires Planned(k, all) && Safe(k, all, x) && Moves(k, x, s, x')
    ensures Safe(k, all, x')
  {
    if s.Sync? {
      if x.c.bufs[s.b].dirty { WriteKeeps(k, all, x, s, x'); } else { ReadKeeps(k, all, x, s, x'); }
    } else if Theirs(x.t, s, x'.t) {
      TheirsKeeps(k, all, x, s, x');
    } else {
      match s {
        case Bget(_, _) => GetKeeps(k, all, x, s, x');
        case Modify(_, _) => ModifyKeeps(k, all, x, s, x');
        case Mark(_) => MarkKeeps(k, all, x, s, x');
        case Brelse(_) => BrelseKeeps(k, all, x, s, x');
      }
    }
  }

  // ---------- every run ----------

  ghost predicate IsRun(k: Commit, xs: seq<Sys>, steps: seq<Step>) {
    && |xs| == |steps| + 1
    && forall i | 0 <= i < |steps| :: Moves(k, xs[i], steps[i], xs[i + 1])
  }

  /** Commit begins: nothing is written, nobody is changing a buffer, and the readers have what they have. */
  ghost predicate Begins(k: Commit, x: Sys) {
    && Good(k) && Inv(x.c) && x.c.disk == k.d && Logical(x.c) == k.l && x.c.touched == {} && x.ws == []
    && x.t == Thread(0, None, None, Reading)
    && forall b | b in x.c.syncing && b < |x.c.bufs| :: !x.c.bufs[b].dirty
  }

  lemma {:induction false} RunIsSafe(k: Commit, xs: seq<Sys>, steps: seq<Step>, i: nat)
    requires IsRun(k, xs, steps) && Begins(k, xs[0]) && i < |xs|
    ensures Safe(k, All(k), xs[i])
  {
    var all := All(k);
    IsPlanned(k);
    if i == 0 {
      assert all[..0] == [];
      forall q: nat ensures BooksAt(k, all, xs[0], q) {}
    } else {
      RunIsSafe(k, xs, steps, i - 1);
      assert Moves(k, xs[i - 1], steps[i - 1], xs[i - 1 + 1]);
      MoveKeeps(k, all, xs[i - 1], steps[i - 1], xs[i]);
    }
  }

  /** Whatever readers do meanwhile, commit writes its blocks, in their order and with their contents; so at
      every moment the disk recovers to the old contents or to the new. */
  lemma AtomicAmongReaders(k: Commit, xs: seq<Sys>, steps: seq<Step>, i: nat) returns (p: nat)
    requires IsRun(k, xs, steps) && Begins(k, xs[0]) && i < |xs|
    ensures p <= |All(k)| && xs[i].ws == All(k)[..p] && xs[i].c.disk == Apply(k.d, All(k)[..p])
    ensures Holds(xs[i].c.disk, k.g, if p > |k.lh| then k.l else k.d)
    ensures xs[i].t.j == |All(k)| ==> p == |All(k)| && Logical(xs[i].c) == Apply(k.l, All(k))
  {
    RunIsSafe(k, xs, steps, i);
    p := BooksSay(k, All(k), xs[i]);
    CutHolds(k, p);
  }

  lemma BooksSay(k: Commit, all: seq<Write>, x: Sys) returns (p: nat)
    requires Safe(k, all, x)
    ensures p <= |all| && x.ws == all[..p] && x.c.disk == Apply(k.d, all[..p])
    ensures x.t.j == |all| ==> p == |all| && Logical(x.c) == Apply(k.l, all)
  {
    assert BooksAt(k, all, x, 0);
    p := x.t.j + Bit(x.t.at == Written);
    assert all[..|all|] == all;
  }

  lemma CutHolds(k: Commit, p: nat)
    requires Good(k) && p <= |All(k)|
    ensures Holds(Apply(k.d, All(k)[..p]), k.g, if p > |k.lh| then k.l else k.d)
  {
    CommitCut(k.d, k.l, k.g, k.lh, p);
  }

  // ---------- when commit has to wait, and when it panics ----------

  /** One of its buffers is with the driver. */
  ghost predicate WaitsForDisk(x: Sys) {
    (x.t.src.Some? && x.t.src.value in x.c.syncing) || (x.t.dst.Some? && x.t.dst.value in x.c.syncing)
  }

  /** The block it reads next is in a buffer that a reader holds. */
  ghost predicate WaitsForReader(k: Commit, x: Sys) {
    x.t.at == Reading && Wants(k, x.t).Some?
      && exists b :: 0 <= b < |x.c.bufs| && x.c.bufs[b].busy && x.c.bufs[b].Names(ROOTDEV, Block32(Wants(k, x.t).value))
  }

  /** bget has no buffer for it: the kernel panics. */
  ghost predicate Panics(k: Commit, x: Sys) {
    x.t.at == Reading && Wants(k, x.t).Some? && !Cached(x.c, ROOTDEV, Block32(Wants(k, x.t).value)) && !Roomy(x.c)
  }

  function Block32(a: nat): Word { if a < 0x1_0000_0000 then a else 0 }

  /** A reader it waits for is another process. */
  lemma NotItself(k: Commit, all: seq<Write>, x: Sys, b: nat)
    requires Planned(k, all) && Safe(k, all, x) && x.t.at == Reading && Wants(k, x.t).Some? && x.t.j < |all|
    requires b < NBUF && x.c.bufs[b].Names(ROOTDEV, Block32(Wants(k, x.t).value))
    ensures x.t.src != Some(b) && x.t.dst != Some(b)
  {
    assert PlannedAt(k, all, x.t.j);
  }

  lemma {:induction false} SomeClean(c: Cache, n: nat) returns (p: nat)
    requires |c.bufs| == NBUF && IsOrder(c.order) && n <= NBUF
    requires exists q :: 0 <= q < n && c.bufs[c.order[q]].Clean()
    ensures p < n && c.bufs[c.order[p]].Clean() && forall q | p < q < n :: !c.bufs[c.order[q]].Clean()
  {
    if c.bufs[c.order[n - 1]].Clean() { p := n - 1; } else { p := SomeClean(c, n - 1); }
  }

  /** bget succeeds if it can. */
  lemma Gets(c: Cache, a: Word) returns (b: nat, c': Cache)
    requires Inv(c) && a < |c.disk|
    requires if Cached(c, ROOTDEV, a) then forall i | 0 <= i < NBUF && c.bufs[i].Names(ROOTDEV, a) :: !c.bufs[i].busy
             else Roomy(c)
    ensures Next(c, Step.Bget(a, b), c') && b < NBUF
  {
    var buf;
    if Cached(c, ROOTDEV, a) {
      b :| 0 <= b < NBUF && c.bufs[b].Names(ROOTDEV, a);
      buf := c.bufs[b].(busy := true);
    } else {
      var i :| 0 <= i < NBUF && c.bufs[i].Clean();
      assert i in c.order;
      var p := SomeClean(c, NBUF);
      b := c.order[p];
      assert LeastRecent(c, b);
      buf := Buf(true, false, false, ROOTDEV, a, c.bufs[b].data);
    }
    c' := c.(bufs := c.bufs[b := buf], syncing := if buf.valid then c.syncing else c.syncing + {b});
  }

  lemma Releases(c: Cache, b: nat) returns (c': Cache)
    requires Inv(c) && Holding(c, b) && b !in c.touched
    ensures Next(c, Step.Brelse(b), c')
  {
    assert b in c.order;
    var p :| 0 <= p < |c.order| && c.order[p] == b;
    var order := [b] + c.order[..p] + c.order[p + 1..];
    c' := c.(bufs := c.bufs[b := c.bufs[b].(busy := false)], order := order, touched := c.touched - {b});
    assert ToFront(c.order, b, order);
  }

  /** Commit can go on if and only if it need not wait for the disk or for a reader and bget has a buffer. */
  lemma GoesOn(k: Commit, all: seq<Write>, x: Sys) returns (s: Step, x': Sys)
    requires Planned(k, all) && Safe(k, all, x) && x.t.j < |all|
    requires !WaitsForDisk(x) && !WaitsForReader(k, x) && !Panics(k, x)
    ensures Moves(k, x, s, x') && Mine(k, x.c, x.t, s, x'.t)
  {
    assert PlannedAt(k, all, x.t.j);
    var c, t := x.c, x.t;
    match t.at {
      case Reading =>
        if Wants(k, t).Some? {
          var a: Word := Wants(k, t).value;
          var b, c' := Gets(c, a);
          s := Step.Bget(a, b);
          x' := Sys(c', if a == Target(k, t.j) then t.(dst := Some(b)) else t.(src := Some(b)), x.ws);
        } else {
          s := Modify(t.dst.value, NewData(k, c, t));
          var bufs := c.bufs[s.b := c.bufs[s.b].(data := s.data)];
          x' := Sys(c.(bufs := bufs, touched := c.touched + {s.b}), t.(at := Changed), x.ws);
        }
      case Changed =>
        s := Mark(t.dst.value);
        var bufs := c.bufs[s.b := c.bufs[s.b].(dirty := true)];
        x' := Sys(c.(bufs := bufs, touched := c.touched - {s.b}, syncing := c.syncing + {s.b}), t.(at := Marked), x.ws);
      case Written =>
        var b := if t.src.Some? then t.src.value else t.dst.value;
        var c' := Releases(c, b);
        s := Step.Brelse(b);
        x' := Sys(c', if t.src.Some? then t.(src := None) else Thread(t.j + 1, None, None, Reading), x.ws);
    }
  }

  /** The driver can serve it when it waits for the disk. */
  lemma IsServed(k: Commit, all: seq<Write>, x: Sys) returns (b: nat, x': Sys)
    requires Planned(k, all) && Safe(k, all, x) && WaitsForDisk(x)
    ensures Moves(k, x, Sync(b), x') && (x.t.src == Some(b) || x.t.dst == Some(b))
  {
    b := if x.t.src.Some? && x.t.src.value in x.c.syncing then x.t.src.value else x.t.dst.value;
    assert GoodBuf(x.c, b, x.c.bufs[b]);
    var buf := x.c.bufs[b];
    var t := if x.t.at == Marked && x.t.dst == Some(b) then x.t.(at := Written) else x.t;
    x' := Sys(Synced(x.c, b), t, if buf.dirty then x.ws + [Write(buf.blockno, buf.data)] else x.ws);
  }

  lemma OnlyThen(k: Commit, all: seq<Write>, x: Sys, s: Step, x': Sys)
    requires Planned(k, all) && Safe(k, all, x) && Moves(k, x, s, x') && Mine(k, x.c, x.t, s, x'.t)
    ensures !WaitsForReader(k, x) && !Panics(k, x) && !WaitsForDisk(x)
  {
    assert PlannedAt(k, all, x.t.j);
  }

  /** That is when pinned blocks and buffers of readers fill the cache. */
  lemma PanicsIff(k: Commit, all: seq<Write>, x: Sys)
    requires Planned(k, all) && Safe(k, all, x) && x.t.at == Reading && Wants(k, x.t).Some?
    ensures Panics(k, x) <==>
      !Cached(x.c, ROOTDEV, Block32(Wants(k, x.t).value)) && |Pins(x.c)| + |Readers(x.c)| >= NBUF
  {
    RoomyIff(x.c);
  }

  /** So begins the commit of a log that is ready for it. */
  lemma LogBegins(log: Log.Log)
    requires log.Ready() && log.lh != [] && forall b | b in log.cache.syncing && b < NBUF :: !log.cache.bufs[b].dirty
    ensures Begins(Commit.Commit(log.cache.disk, log.cache.logical, log.g, log.lh),
                   Sys(log.cache.State(), Thread(0, None, None, Reading), []))
  {
    assert log.cache.Unfolded(0);
    log.LogIsOnDisk();
  }
}
