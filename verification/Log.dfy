/** log.c over the block cache: commit and recovery as the code runs them, one
    bread, copy, bwrite and brelse at a time. Their contracts say which blocks
    reach the disk and in which order, which is what module Crash reasons about.
    begin_op, log_write and end_op are proved to be steps of module Reservation. */
module Log {
  import opened Params
  import opened Blocks
  import opened Bio
  import opened Crash
  import Reservation

  lemma SpareBuffer(c: Cache, b: nat)
    requires Inv(c) && Pins(c) == {} && Busy(c) == {b}
    ensures Roomy(c)
  {
    var s := if b == 0 then 1 else 0;
    InBusy(c, s);
    InPins(c, c.bufs[s].blockno);
    assert c.bufs[s].Clean();
  }

  /** With a set of buffers held, none of them pinned. */
  lemma RoomyWith(c: Cache, readers: set<nat>)
    requires Inv(c) && Busy(c) == readers && forall b | b in readers :: b < NBUF && c.bufs[b].blockno !in Pins(c)
    ensures Roomy(c) <==> |Pins(c)| + |readers| < NBUF
  {
    RoomyIff(c);
    forall b: nat ensures b in Readers(c) <==> b in readers {
      InReadersBelow(c.bufs, |c.bufs|, b);
      InBusy(c, b);
      if b < NBUF { InPins(c, c.bufs[b].blockno); }
    }
    assert Readers(c) == readers;
  }

  /** Someone among the holders `held` has block `a`. */
  ghost predicate HeldIn(bufs: seq<Buf>, held: set<nat>, a: nat) {
    exists b: nat :: b in held && b < |bufs| && bufs[b].blockno == a
  }

  /** The holders `held` have the same blocks. */
  ghost predicate SameHeld(bufs: seq<Buf>, bufs': seq<Buf>, held: set<nat>) {
    forall x: nat {:trigger HeldIn(bufs', held, x)} :: HeldIn(bufs', held, x) <==> HeldIn(bufs, held, x)
  }

  lemma SameHolders(bufs: seq<Buf>, bufs': seq<Buf>, held: set<nat>)
    requires |bufs'| == |bufs| && forall b | b in held && b < |bufs| :: bufs'[b] == bufs[b]
    ensures SameHeld(bufs, bufs', held)
  {
    forall x: nat ensures HeldIn(bufs', held, x) <==> HeldIn(bufs, held, x) {
      if b: nat :| b in held && b < |bufs| && bufs[b].blockno == x { assert bufs'[b].blockno == x; }
      if b: nat :| b in held && b < |bufs| && bufs'[b].blockno == x { assert bufs[b].blockno == x; }
    }
  }

  lemma SameHeldBoth(x: seq<Buf>, y: seq<Buf>, z: seq<Buf>, held: set<nat>)
    requires SameHeld(x, y, held) && SameHeld(y, z, held)
    ensures SameHeld(x, z, held)
  {
    forall a: nat ensures HeldIn(z, held, a) <==> HeldIn(x, held, a) {
      assert HeldIn(y, held, a) <==> HeldIn(x, held, a);
    }
  }

  /** bread waits for a block exactly if someone holds it; otherwise it finds a buffer exactly if the block
      is pinned or a buffer can be recycled. */
  lemma CachedIff(c: Cache, a: nat)
    requires Inv(c) && a < 0x1_0000_0000
    ensures HeldIn(c.bufs, Busy(c), a) <==> exists b :: 0 <= b < NBUF && c.bufs[b].Names(ROOTDEV, a) && c.bufs[b].busy
    ensures !HeldIn(c.bufs, Busy(c), a) ==> (Cached(c, ROOTDEV, a) || Roomy(c) <==> a in Pins(c) || Roomy(c))
  {
    InPins(c, a);
    forall b: nat | b < NBUF ensures b in Busy(c) <==> c.bufs[b].busy { InBusy(c, b); }
    forall b | 0 <= b < NBUF && (c.bufs[b].busy || c.bufs[b].dirty) ensures c.bufs[b].dev == ROOTDEV {
      assert GoodBuf(c, b, c.bufs[b]);
    }
    if b: nat :| b in Busy(c) && b < |c.bufs| && c.bufs[b].blockno == a { InBusy(c, b); }
    if b :| 0 <= b < NBUF && c.bufs[b].dirty && c.bufs[b].blockno == a { assert c.bufs[b].Names(ROOTDEV, a); }
    if b :| 0 <= b < NBUF && c.bufs[b].Names(ROOTDEV, a) && !c.bufs[b].dirty && !c.bufs[b].busy {
      assert c.bufs[b].Clean();
    }
  }

  /** The first `n` of the writes `ws` have been added to `ws0`, and turned `l` into `l'`. */
  ghost predicate Progress(l: Disk, ws0: seq<Write>, ws: seq<Write>, n: nat, l': Disk, ws': seq<Write>) {
    n <= |ws| && ws' == ws0 + ws[..n] && l' == Apply(l, ws[..n])
  }

  lemma ProgressStep(l: Disk, ws0: seq<Write>, ws: seq<Write>, n: nat, l': Disk, ws': seq<Write>)
    requires Progress(l, ws0, ws, n, l', ws') && n < |ws| && ws[n].a < |l|
    ensures Progress(l, ws0, ws, n + 1, l'[ws[n].a := ws[n].data], ws' + [ws[n]])
  {
    assert ws[..n + 1] == ws[..n] + [ws[n]];
    ApplySplit(l, ws[..n], ws[n]);
  }

  lemma ProgressDone(l: Disk, ws0: seq<Write>, ws: seq<Write>, l': Disk, ws': seq<Write>)
    requires Progress(l, ws0, ws, |ws|, l', ws')
    ensures ws' == ws0 + ws && l' == Apply(l, ws)
  {
    assert ws[..|ws|] == ws;
  }

  lemma NoneHeld(c: Cache)
    requires Inv(c) && Busy(c) == Pins(c) == {}
    ensures Roomy(c) && forall b | 0 <= b < NBUF :: !c.bufs[b].busy
  {
    RoomyWith(c, {});
    forall b: nat | b < NBUF ensures !c.bufs[b].busy { InBusy(c, b); }
  }

  /** The log region that the superblock names. */
  function LogOf(sb: Block): Geometry {
    Geometry(WordAt(sb, 4), WordAt(sb, 3))
  }

  /** readsb, for the log, on a machine that has just booted. */
  method Readsb(cache: Bcache) returns (g: Geometry)
    requires cache.Valid() && cache.held == cache.touched == cache.pins == {} && 1 < |cache.logical|
    modifies cache
    ensures cache.Valid() && cache.held == cache.touched == cache.pins == {}
    ensures cache.logical == old(cache.logical) && cache.disk == old(cache.disk)
    ensures cache.base == old(cache.base) && cache.writes == old(cache.writes)
    ensures g == LogOf(cache.logical[1])
  {
    assert cache.Unfolded(0);
    NoneHeld(cache.State());
    var r := cache.Bread(ROOTDEV, 1);
    g := LogOf(cache.bufs[r.b].data);
    var ok := cache.Brelse(r.b);
  }

  /** write_head's stores into the header block. */
  method FillHeader(b: Block, lh: seq<Word>) returns (hb: Block)
    requires |lh| <= LOGSIZE
    ensures hb == HeaderBlock(b, lh)
  {
    hb := WithWord(b, 0, |lh|);
    var i := 0;
    while i < |lh|
      invariant 0 <= i <= |lh|
      invariant PutWords(hb, i + 1, lh[i..]) == HeaderBlock(b, lh)
    {
      hb := WithWord(hb, i + 1, lh[i]);
      assert lh[i..][0] == lh[i] && lh[i..][1..] == lh[i + 1..];
      i := i + 1;
    }
  }

  datatype UpdateResult =
    | Updated
    | Waits      // another process holds the block
    | Panicked   // bread finds no buffer, or log_write refuses

  class Log {
    const cache: Bcache
    const g: Geometry
    var lh: seq<Word>       // log.lh: its length is lh.n
    var outstanding: nat
    var committing: bool
    ghost var ops: seq<Reservation.Op>  // the calls between begin_op and end_op
    ghost var readers: set<nat>         // the buffers that other processes hold

    ghost function View(): Reservation.State
      reads this
    {
      Reservation.State(lh, ops, committing)
    }

    /** initlog: reads the superblock, then recovers. */
    constructor (cache: Bcache)
      requires cache.Valid() && cache.held == cache.touched == cache.pins == {} && 1 < |cache.logical| <= 0x1_0000_0000
      requires GoodLog(cache.disk, LogOf(cache.logical[1]))
      modifies cache
      ensures this.cache == cache && g == LogOf(old(cache.logical)[1])
      ensures Ready() && readers == {} && View() == Reservation.INIT && outstanding == 0
      ensures cache.disk == cache.logical
      ensures cache.writes == old(cache.writes) + RecoverWrites(old(cache.disk), g)
      ensures |cache.disk| == |old(cache.disk)|
      ensures forall a | 0 <= a < |cache.disk| && !g.InLog(a) :: cache.disk[a] == Recovered(old(cache.disk), g, a)
    {
      var region := Readsb(cache);
      this.cache, g := cache, region;
      lh, outstanding, committing, ops, readers := [], 0, false, [], {};
      new;
      var ok := RecoverFromLog();
    }

    /** The buffers held are the readers', none of a logged block or of the log region; and that fits on
        the disk with no pinned block in it. */
    ghost predicate Quiet()
      reads `readers, `lh, cache
    {
      && cache.Valid()
      && cache.held == readers && cache.touched == {}
      && 0 < g.size && g.start + g.size <= |cache.logical| <= 0x1_0000_0000
      && |cache.base| == |cache.disk| == |cache.logical|
      && (forall a | a in cache.pins :: !g.InLog(a))
      && forall b | b in readers :: b < NBUF && Aside(cache.bufs[b].blockno)
    }

    /** Neither in the log region nor logged. */
    predicate Aside(a: Word)
      reads `lh
    {
      !g.InLog(a) && a !in lh
    }

    // The cache operations as commit and recovery use them, with their effect on
    // the logical disk, the held buffers and the pinned blocks.

    method Read(a: nat) returns (r: BgetResult)
      requires cache.Valid() && a < |cache.logical| <= 0x1_0000_0000
      modifies cache`bufs, cache`disk, cache`syncing, cache`writes, cache`held, cache`pins
      ensures cache.disk == old(cache.disk) && cache.writes == old(cache.writes) && cache.pins == old(cache.pins)
      ensures r.WouldSleep? <==> HeldIn(old(cache.bufs), old(cache.held), a)
      ensures r.WouldSleep? ==> cache.Valid() && cache.State() == old(cache.State()) && cache.held == old(cache.held)
      ensures !r.WouldSleep? ==> (r.Buffer? <==> a in cache.pins || old(Roomy(cache.State())))
      ensures r.Buffer? ==>
        && cache.Valid() && cache.syncing == old(cache.syncing)
        && r.b !in old(cache.held) && cache.held == old(cache.held) + {r.b}
        && Holding(cache.State(), r.b)
        && cache.bufs[r.b].blockno == a && cache.bufs[r.b].data == cache.logical[a]
        && (a !in cache.pins ==> !cache.bufs[r.b].dirty)
        && forall b | b in old(cache.held) :: b < NBUF && cache.bufs[b] == old(cache.bufs)[b]
    {
      assert cache.Unfolded(0);
      ghost var c := cache.State();
      CachedIff(c, a);
      r := cache.Bread(ROOTDEV, a);
      if r.Buffer? {
        ReadByKeeps(c, a, r.b, cache.State());
        InPins(cache.State(), a);
        forall b | b in old(cache.held) ensures b < NBUF && cache.bufs[b] == c.bufs[b] { InBusy(c, b); }
      }
    }

    /** Overwrite a held buffer and bwrite it. */
    method Store(b: nat, data: Block)
      requires cache.Valid() && cache.touched == {} && Holding(cache.State(), b)
      modifies cache`bufs, cache`disk, cache`touched, cache`syncing, cache`writes, cache`logical, cache`pins
      ensures cache.Valid() && cache.touched == {} && cache.syncing == old(cache.syncing)
      ensures cache.bufs == old(cache.bufs)[b := old(cache.bufs[b]).(data := data, dirty := false)]
      ensures old(cache.bufs[b].blockno) < |old(cache.logical)|
      ensures cache.pins == old(cache.pins) - {old(cache.bufs[b].blockno)}
      ensures cache.writes == old(cache.writes) + [Write(old(cache.bufs[b].blockno), data)]
      ensures cache.logical == old(cache.logical)[old(cache.bufs[b].blockno) := data]
    {
      cache.SetData(b, data);
      ghost var c := cache.State();
      assert cache.Unfolded(0);
      var ok := cache.Bwrite(b);
      WrittenByKeeps(c, b, cache.State());
    }

    method Release(b: nat)
      requires cache.Valid() && cache.touched == {} && Holding(cache.State(), b)
      modifies cache`bufs, cache`next, cache`prev, cache`order, cache`held, cache`touched
      ensures cache.Valid() && cache.held == old(cache.held) - {b} && cache.touched == {}
      ensures cache.bufs == old(cache.bufs)[b := old(cache.bufs)[b].(busy := false)]
    {
      var ok := cache.Brelse(b);
    }

    /** The end of both copying loops: overwrite `dst` with `src`, write it, release both. */
    method CopyAndRelease(dst: nat, src: nat)
      requires cache.Valid() && cache.touched == {} && dst != src && dst !in readers && src !in readers
      requires cache.held == readers + {dst, src}
      requires Holding(cache.State(), dst) && Holding(cache.State(), src)
      requires forall b | b in readers :: b < NBUF && Aside(cache.bufs[b].blockno)
      modifies cache
      ensures cache.Valid() && cache.held == readers && cache.touched == {} && cache.base == old(cache.base)
      ensures forall b | b in readers :: b < NBUF && Aside(cache.bufs[b].blockno)
      ensures Roomy(cache.State()) && |cache.disk| == |old(cache.disk)|
      ensures old(cache.bufs[dst].blockno) < |old(cache.logical)|
      ensures
        var w := Write(old(cache.bufs[dst].blockno), old(cache.bufs[src].data));
        && cache.pins == old(cache.pins) - {w.a}
        && cache.writes == old(cache.writes) + [w]
        && cache.logical == old(cache.logical)[w.a := w.data]
    {
      Store(dst, cache.bufs[src].data);
      Release(src);
      Release(dst);
      assert cache.bufs[dst].Clean();
    }

    /** One iteration of write_log. */
    method WriteLogBlock(tail: nat) returns (ok: bool)
      requires Quiet() && GoodHomes(cache.logical, g, lh) && tail < |lh| && lh[tail] in cache.pins
      modifies cache
      ensures ok <==> old(Roomy(cache.State()))
      ensures !ok ==> cache.writes == old(cache.writes) && cache.logical == old(cache.logical)
      ensures ok ==>
        var w := Write(g.start + tail + 1, old(cache.logical)[lh[tail]]);
        && Quiet() && Roomy(cache.State()) && cache.base == old(cache.base)
        && cache.pins == old(cache.pins)
        && cache.writes == old(cache.writes) + [w]
        && cache.logical == old(cache.logical)[w.a := w.data]
    {
      var to := Read(g.start + tail + 1);
      if !to.Buffer? {
        return false;
      }
      var from := Read(lh[tail]);
      CopyAndRelease(to.b, from.b);
      return true;
    }

    /** The two breads of install_trans: of a log block, and of its home. */
    method ReadPair(from: nat, to: Word) returns (dst: nat, src: nat)
      requires Quiet() && Roomy(cache.State()) && (to in cache.pins || cache.pins == readers == {})
      requires g.InLog(from) && to in lh && to < |cache.logical| && !g.InLog(to)
      modifies cache`bufs, cache`disk, cache`syncing, cache`writes, cache`held, cache`pins
      ensures cache.Valid() && cache.touched == {} && dst != src && dst !in readers && src !in readers
      ensures cache.held == readers + {dst, src} && |cache.disk| == |old(cache.disk)|
      ensures Holding(cache.State(), dst) && Holding(cache.State(), src)
      ensures forall b | b in readers :: b < NBUF && Aside(cache.bufs[b].blockno)
      ensures cache.pins == old(cache.pins) && cache.writes == old(cache.writes)
      ensures cache.bufs[dst].blockno == to && from < |cache.logical| && cache.bufs[src].data == cache.logical[from]
    {
      var lbuf := Read(from);
      if cache.pins == {} {
        assert cache.Unfolded(0);
        assert cache.held == {lbuf.b};
        SpareBuffer(cache.State(), lbuf.b);
      }
      var dbuf := Read(to);
      dst, src := dbuf.b, lbuf.b;
    }

    /** One iteration of install_trans. */
    method InstallBlock(tail: nat) returns (ok: bool)
      requires Quiet() && GoodHomes(cache.logical, g, lh) && tail < |lh|
      requires Roomy(cache.State()) && (lh[tail] in cache.pins || cache.pins == readers == {})
      modifies cache
      ensures ok
      ensures
        var w := Write(lh[tail], old(cache.logical)[g.start + tail + 1]);
        && Quiet() && Roomy(cache.State()) && cache.base == old(cache.base)
        && cache.pins == old(cache.pins) - {w.a}
        && cache.writes == old(cache.writes) + [w]
        && cache.logical == old(cache.logical)[w.a := w.data]
    {
      var dst, src := ReadPair(g.start + tail + 1, lh[tail]);
      CopyAndRelease(dst, src);
      return true;
    }

    method WriteHead() returns (ok: bool)
      requires Quiet() && |lh| <= LOGSIZE && Roomy(cache.State())
      modifies cache
      ensures ok
      ensures
        var w := HeadWrite(old(cache.logical), g, lh);
        && Quiet() && Roomy(cache.State()) && cache.base == old(cache.base)
        && cache.pins == old(cache.pins)
        && cache.writes == old(cache.writes) + [w]
        && cache.logical == old(cache.logical)[w.a := w.data]
    {
      var buf := Read(g.start);
      var hb := FillHeader(cache.bufs[buf.b].data, lh);
      Store(buf.b, hb);
      Release(buf.b);
      assert cache.bufs[buf.b].Clean();
      return true;
    }

    method ReadHead() returns (ok: bool)
      requires Quiet() && readers == {} && Roomy(cache.State()) && GoodLog(cache.logical, g)
      modifies this`lh, cache
      ensures ok
      ensures Quiet() && Roomy(cache.State()) && cache.pins == old(cache.pins) && cache.base == old(cache.base)
      ensures cache.logical == old(cache.logical) && cache.writes == old(cache.writes)
      ensures lh == Homes(cache.logical[g.start])
    {
      var buf := Read(g.start);
      var hb := cache.bufs[buf.b].data;
      var n := HeaderCount(hb);
      var i, block: seq<Word> := 0, [];
      while i < n
        invariant 0 <= i <= n && |block| == i
        invariant forall j | 0 <= j < i :: block[j] == WordAt(hb, j + 1)
      {
        block := block + [WordAt(hb, i + 1)];
        i := i + 1;
      }
      Release(buf.b);
      assert cache.bufs[buf.b].Clean();
      lh := block;
      return true;
    }

    method WriteLog() returns (ok: bool)
      requires Quiet() && GoodHomes(cache.logical, g, lh) && forall i | 0 <= i < |lh| :: lh[i] in cache.pins
      modifies cache
      ensures ok <==> lh == [] || old(Roomy(cache.State()))
      ensures !ok ==> cache.writes == old(cache.writes) && cache.logical == old(cache.logical)
      ensures ok ==>
        && Quiet() && cache.pins == old(cache.pins) && cache.base == old(cache.base)
        && (lh != [] ==> Roomy(cache.State()))
        && cache.writes == old(cache.writes) + LogWrites(old(cache.logical), g, lh)
        && cache.logical == Apply(old(cache.logical), LogWrites(old(cache.logical), g, lh))
    {
      ghost var l := cache.logical;
      ghost var ws := LogWrites(l, g, lh);
      for tail := 0 to |lh|
        invariant Quiet() && cache.pins == old(cache.pins) && cache.base == old(cache.base)
        invariant Roomy(cache.State()) <==> old(Roomy(cache.State()))
        invariant if tail > 0 then Roomy(cache.State()) else cache.writes == old(cache.writes) && cache.logical == l
        invariant Progress(l, old(cache.writes), ws, tail, cache.logical, cache.writes)
        invariant forall a | 0 <= a < |l| && !g.InLog(a) :: cache.logical[a] == l[a]
      {
        ProgressStep(l, old(cache.writes), ws, tail, cache.logical, cache.writes);
        ok := WriteLogBlock(tail);
        if !ok {
          return;
        }
      }
      ProgressDone(l, old(cache.writes), ws, cache.logical, cache.writes);
      return true;
    }

    method InstallTrans() returns (ok: bool)
      requires Quiet() && Roomy(cache.State()) && GoodHomes(cache.logical, g, lh)
      requires cache.pins == readers == {} || (Distinct(lh) && forall i | 0 <= i < |lh| :: lh[i] in cache.pins)
      modifies cache
      ensures ok
      ensures Quiet() && Roomy(cache.State()) && cache.base == old(cache.base)
      ensures forall a | a in cache.pins :: a in old(cache.pins) && a !in lh
      ensures cache.writes == old(cache.writes) + InstallWrites(old(cache.logical), g, lh)
      ensures cache.logical == Apply(old(cache.logical), InstallWrites(old(cache.logical), g, lh))
    {
      ghost var l := cache.logical;
      ghost var ws := InstallWrites(l, g, lh);
      for tail := 0 to |lh|
        invariant Quiet() && Roomy(cache.State()) && cache.base == old(cache.base)
        invariant forall a | a in cache.pins :: a in old(cache.pins) && a !in lh[..tail]
        invariant cache.pins == readers == {} || forall i | tail <= i < |lh| :: lh[i] in cache.pins
        invariant Progress(l, old(cache.writes), ws, tail, cache.logical, cache.writes)
        invariant forall a | 0 <= a < |l| && g.InLog(a) :: cache.logical[a] == l[a]
      {
        ghost var pins := cache.pins;
        ProgressStep(l, old(cache.writes), ws, tail, cache.logical, cache.writes);
        ok := InstallBlock(tail);
        forall i | tail < i < |lh| && !(pins == readers == {}) ensures lh[i] in cache.pins {
          assert lh[i] != lh[tail];
        }
        assert lh[..tail + 1] == lh[..tail] + [lh[tail]];
      }
      assert lh[..|lh|] == lh;
      ProgressDone(l, old(cache.writes), ws, cache.logical, cache.writes);
      return true;
    }

    /** What is not pinned is on disk; the log region never is pinned. */
    lemma LogIsOnDisk()
      requires Quiet()
      ensures forall a | 0 <= a < |cache.disk| && a !in cache.pins :: cache.logical[a] == cache.disk[a]
      ensures forall a: nat | g.InLog(a) :: cache.logical[a] == cache.disk[a]
      ensures cache.pins == {} ==> cache.logical == cache.disk
      ensures cache.disk == Apply(cache.base, cache.writes)
    {
      assert cache.Unfolded(0);
      forall a | 0 <= a < |cache.disk| && a !in cache.pins ensures cache.logical[a] == cache.disk[a] {
        UnpinnedIsOnDisk(cache.State(), a);
      }
    }

    lemma RoomyIffPins()
      requires Quiet() && Distinct(lh) && forall a: nat :: a in cache.pins <==> a in lh
      ensures Roomy(cache.State()) <==> |lh| + |readers| < NBUF
    {
      assert cache.Unfolded(0);
      RoomyWith(cache.State(), readers);
      DistinctCard(lh);
      assert ToSet(lh) == cache.pins;
    }

    /** The log is empty on disk, and the pinned blocks are exactly the logged ones. */
    ghost predicate Ready()
      reads this, cache
    {
      && Quiet()
      && GoodLog(cache.disk, g) && HeaderCount(cache.disk[g.start]) == 0
      && GoodHomes(cache.disk, g, lh) && Distinct(lh)
      && forall a: nat :: a in cache.pins <==> a in lh
    }

    /** commit, up to the commit point. */
    method LogAndCommit() returns (ok: bool)
      requires Ready() && lh != []
      modifies cache
      ensures ok <==> |lh| + |readers| < NBUF
      ensures !ok ==> cache.writes == old(cache.writes) && cache.logical == old(cache.logical)
      ensures ok ==> Quiet() && Roomy(cache.State()) && cache.pins == old(cache.pins) && cache.base == old(cache.base)
      ensures ok ==> cache.writes == old(cache.writes) + CommitPrefix(old(cache.disk), old(cache.logical), g, lh)
      ensures ok ==> cache.disk == Apply(old(cache.disk), CommitPrefix(old(cache.disk), old(cache.logical), g, lh))
    {
      LogIsOnDisk();
      RoomyIffPins();
      CommitHead(cache.disk, cache.logical, g, lh);
      ApplyConcat(cache.base, cache.writes, CommitPrefix(cache.disk, cache.logical, g, lh));
      ok := WriteLog();
      if ok {
        ok := WriteHead();
        LogIsOnDisk();
      }
    }

    /** install_trans, then write_head with no blocks: the end of commit and of recovery. */
    method InstallAndClear() returns (ok: bool)
      requires Quiet() && Roomy(cache.State()) && GoodHomes(cache.disk, g, lh)
      requires cache.pins == {} || (Distinct(lh) && forall a | a in cache.pins :: a in lh)
      requires cache.pins == readers == {} || forall i | 0 <= i < |lh| :: lh[i] in cache.pins
      modifies this`lh, cache
      ensures ok
      ensures Quiet() && lh == [] && cache.pins == {} && cache.base == old(cache.base) && cache.disk == cache.logical
      ensures cache.writes ==
        old(cache.writes) + (InstallWrites(old(cache.disk), g, old(lh)) + [HeadWrite(old(cache.disk), g, [])])
      ensures cache.disk ==
        Apply(old(cache.disk), InstallWrites(old(cache.disk), g, old(lh)) + [HeadWrite(old(cache.disk), g, [])])
    {
      LogIsOnDisk();
      SameLog(cache.disk, cache.logical, g, lh);
      ApplyConcat(cache.base, cache.writes, InstallWrites(cache.disk, g, lh) + [HeadWrite(cache.disk, g, [])]);
      ok := InstallTrans();
      lh := [];
      ok := WriteHead();
      LogIsOnDisk();
    }

    /** commit. False where bget panics for want of a buffer: exactly when every
        buffer of the cache is pinned or held by a reader. */
    method Commit() returns (ok: bool)
      requires Ready() && committing && outstanding == 0
      modifies this`lh, cache
      ensures ok <==> old(lh) == [] || |old(lh)| + |readers| < NBUF
      ensures !ok ==> cache.writes == old(cache.writes) && cache.logical == old(cache.logical) && lh == old(lh)
      ensures ok ==> Ready() && lh == [] && cache.disk == cache.logical && cache.base == old(cache.base)
      ensures ok ==> cache.writes == old(cache.writes) + CommitWrites(old(cache.disk), old(cache.logical), g, old(lh))
      ensures ok ==> cache.disk == Apply(old(cache.disk), CommitWrites(old(cache.disk), old(cache.logical), g, old(lh)))
      ensures ok ==> |cache.disk| == |old(cache.logical)|
      ensures ok ==> forall a | 0 <= a < |cache.disk| && !g.InLog(a) :: cache.disk[a] == old(cache.logical)[a]
    {
      LogIsOnDisk();
      if |lh| > 0 {
        CommitSplit(cache.disk, cache.logical, g, lh, cache.writes);
        CommitDone(cache.disk, cache.logical, g, lh);
        ok := LogAndCommit();
        if !ok {
          return;
        }
        ok := InstallAndClear();
      }
      return true;
    }

    /** recover_from_log, on the cache of a machine that has just booted. */
    method RecoverFromLog() returns (ok: bool)
      requires Quiet() && cache.pins == readers == {} && GoodLog(cache.disk, g)
      modifies this`lh, cache
      ensures ok
      ensures Ready() && lh == [] && cache.disk == cache.logical && cache.base == old(cache.base)
      ensures cache.writes == old(cache.writes) + RecoverWrites(old(cache.disk), g)
      ensures |cache.disk| == |old(cache.disk)|
      ensures forall a | 0 <= a < |cache.disk| && !g.InLog(a) :: cache.disk[a] == Recovered(old(cache.disk), g, a)
    {
      LogIsOnDisk();
      NoPins();
      RecoveryDone(cache.disk, g);
      ok := ReadHead();
      LogIsOnDisk();
      ok := InstallAndClear();
    }

    /** log_write by the holder of `b`, on behalf of call `i`; false where it panics. Each logged block
        is pinned. */
    method LogWrite(b: nat, ghost i: nat) returns (ok: bool)
      requires cache.Valid() && Holding(cache.State(), b) && |ops| == outstanding
      requires forall a: nat :: a in cache.pins <==> a in lh
      modifies this`lh, this`ops, cache`bufs, cache`touched, cache`pins
      ensures cache.Valid() && |ops| == outstanding && forall a: nat :: a in cache.pins <==> a in lh
      ensures ok <==> !Reservation.TooBig(old(View()), g.size) && outstanding >= 1
      ensures Reservation.CanLog(old(View()), i, old(cache.bufs[b].blockno)) ==>
        (!ok <==> Reservation.Refused(g.size, old(View()), i))
      ensures ok ==> lh == Reservation.Absorb(old(lh), old(cache.bufs[b].blockno))
      ensures ok && Reservation.CanLog(old(View()), i, old(cache.bufs[b].blockno)) ==>
        Reservation.Logged(g.size, old(View()), i, old(cache.bufs[b].blockno), View())
      ensures ok ==> cache.touched == old(cache.touched) - {b}
      ensures ok ==> cache.bufs == old(cache.bufs)[b := old(cache.bufs[b]).(dirty := true)]
      ensures !ok ==> View() == old(View()) && cache.State() == old(cache.State())
    {
      if |lh| >= LOGSIZE || |lh| >= g.size - 1 {
        return false;
      }
      if outstanding < 1 {
        return false;
      }
      var blockno := cache.bufs[b].blockno;
      var j := 0;
      while j < |lh| && lh[j] != blockno
        invariant 0 <= j <= |lh|
        invariant blockno !in lh[..j]
      {
        j := j + 1;
      }
      if j == |lh| {
        assert lh[..j] == lh;
        lh := lh + [blockno];
      }
      if Reservation.CanLog(old(View()), i, blockno) {
        ops := ops[i := Reservation.Op(Reservation.Left(old(View()), i, blockno), false)];
        Reservation.LoggedIs(g.size, old(View()), i, blockno, View());
      }
      cache.Pin(b);
      return true;
    }

    /** Ready, but for buffer `b`, which its reader has and nobody else. */
    ghost predicate Fetched(b: nat)
      reads this, cache
    {
      && cache.Valid() && Holding(cache.State(), b)
      && b !in readers && cache.held == readers + {b} && cache.touched == {}
      && 0 < g.size && g.start + g.size <= |cache.logical| <= 0x1_0000_0000
      && |cache.base| == |cache.disk| == |cache.logical|
      && GoodLog(cache.disk, g) && HeaderCount(cache.disk[g.start]) == 0
      && GoodHomes(cache.disk, g, lh) && Distinct(lh)
      && (forall a: nat :: a in cache.pins <==> a in lh)
      && cache.bufs[b].blockno < |cache.disk| && !g.InLog(cache.bufs[b].blockno)
      && forall k | k in readers ::
           k < NBUF && Aside(cache.bufs[k].blockno) && cache.bufs[k].blockno != cache.bufs[b].blockno
    }

    /** The holder of `b` changes it, logs it for call `i` and releases it. */
    method Change(b: nat, data: Block, ghost i: nat) returns (ok: bool)
      requires Fetched(b) && |ops| == outstanding
      modifies this`lh, this`ops, cache
      ensures ok <==> !Reservation.TooBig(old(View()), g.size) && outstanding >= 1
      ensures ok ==> Ready() && |ops| == outstanding && lh == Reservation.Absorb(old(lh), old(cache.bufs[b].blockno))
      ensures ok ==> cache.logical == old(cache.logical)[old(cache.bufs[b].blockno) := data]
      ensures cache.disk == old(cache.disk) && cache.writes == old(cache.writes)
      ensures !ok ==> View() == old(View())
      ensures ok ==> cache.base == old(cache.base)
      ensures ok && Reservation.CanLog(old(View()), i, old(cache.bufs[b].blockno)) ==>
        Reservation.Logged(g.size, old(View()), i, old(cache.bufs[b].blockno), View())
      ensures ok ==> SameHeld(old(cache.bufs), cache.bufs, readers)
    {
      cache.SetData(b, data);
      ok := LogWrite(b, i);
      if ok {
        Release(b);
        SameHolders(old(cache.bufs), cache.bufs, readers);
        AbsorbGood(cache.disk, g, old(lh), old(cache.bufs[b].blockno));
      }
    }

    /** What a system call does to a block: bread, change, log_write, brelse. */
    method Update(a: Word, data: Block, ghost i: nat) returns (r: UpdateResult)
      requires Ready() && |ops| == outstanding && a < |cache.disk| && !g.InLog(a)
      modifies this`lh, this`ops, cache
      ensures r.Waits? <==> HeldIn(old(cache.bufs), readers, a)
      ensures r.Waits? ==> Ready() && View() == old(View()) && cache.logical == old(cache.logical)
      ensures r.Panicked? <==>
        && !r.Waits?
        && (|| (a !in old(lh) && |old(lh)| + |readers| >= NBUF)
            || Reservation.TooBig(old(View()), g.size)
            || outstanding == 0)
      ensures cache.disk == old(cache.disk) && cache.writes == old(cache.writes)
      ensures r.Panicked? ==> View() == old(View())
      ensures |ops| == outstanding
      ensures r.Updated? ==> Ready() && lh == Reservation.Absorb(old(lh), a)
      ensures r.Updated? ==> cache.logical == old(cache.logical)[a := data]
      ensures r.Updated? && Reservation.CanLog(old(View()), i, a) ==>
        Reservation.Logged(g.size, old(View()), i, a, View())
      ensures !r.Panicked? ==> SameHeld(old(cache.bufs), cache.bufs, readers)
    {
      var got := Fetch(a);
      if got.WouldSleep? {
        return Waits;
      }
      if !got.Buffer? {
        return Panicked;
      }
      ghost var bufs := cache.bufs;
      var ok := Change(got.b, data, i);
      if ok { SameHeldBoth(old(cache.bufs), bufs, cache.bufs, readers); }
      return if ok then Updated else Panicked;
    }

    /** The bread of an update. */
    method Fetch(a: Word) returns (r: BgetResult)
      requires Ready() && a < |cache.disk| && !g.InLog(a)
      modifies cache`bufs, cache`disk, cache`syncing, cache`writes, cache`held, cache`pins
      ensures cache.disk == old(cache.disk) && cache.writes == old(cache.writes)
      ensures r.WouldSleep? <==> HeldIn(old(cache.bufs), readers, a)
      ensures r.WouldSleep? ==> Ready() && SameHeld(old(cache.bufs), cache.bufs, readers)
      ensures r.Panic? <==> !r.WouldSleep? && a !in lh && |lh| + |readers| >= NBUF
      ensures r.Buffer? ==>
        Fetched(r.b) && cache.bufs[r.b].blockno == a && SameHeld(old(cache.bufs), cache.bufs, readers)
    {
      RoomyIffPins();
      r := Read(a);
      if !r.Panic? { SameHolders(old(cache.bufs), cache.bufs, readers); }
    }

    /** begin_op, once around its loop; false where it sleeps. */
    method BeginOp() returns (started: bool)
      requires |ops| == outstanding
      modifies this`outstanding, this`ops
      ensures |ops| == outstanding
      ensures started ==> Reservation.Next(g.size, old(View()), Reservation.Begin, View())
      ensures !started ==>
        View() == old(View()) && forall s' :: !Reservation.Next(g.size, View(), Reservation.Begin, s')
    {
      if committing {
        return false;
      }
      if |lh| + (outstanding + 1) * Reservation.MAXOPBLOCKS > LOGSIZE {
        return false;
      }
      outstanding := outstanding + 1;
      ops := ops + [Reservation.Op(Reservation.MAXOPBLOCKS, false)];
      return true;
    }

    /** end_op of call `i`; false where it panics. The last call out commits for everyone. */
    method EndOp(ghost i: nat) returns (ok: bool)
      requires i < |ops| == outstanding && !ops[i].checked
      requires outstanding == 1 ==> Ready()
      modifies this`lh, this`outstanding, this`committing, this`ops, cache
      ensures |ops| == outstanding == old(outstanding) - 1
      ensures old(committing) ==> !ok
      ensures !ok ==> cache.writes == old(cache.writes) && cache.logical == old(cache.logical) && lh == old(lh)
      ensures old(committing) || outstanding > 0 ==>
        committing == old(committing) && lh == old(lh) && unchanged(cache)
      ensures !old(committing) && outstanding > 0 ==>
        ok && Reservation.Next(g.size, old(View()), Reservation.End(i), View())
      ensures !old(committing) && outstanding == 0 ==>
        && (ok <==> old(lh) == [] || |old(lh)| + |readers| < NBUF)
        && (ok ==>
              && Ready() && lh == [] && Reservation.Ended(g.size, old(View()), i, View()) && cache.disk == cache.logical
              && cache.writes == old(cache.writes) + CommitWrites(old(cache.disk), old(cache.logical), g, old(lh))
              && cache.disk == Apply(old(cache.disk), CommitWrites(old(cache.disk), old(cache.logical), g, old(lh)))
              && |cache.disk| == |old(cache.logical)|
              && forall a | 0 <= a < |cache.disk| && !g.InLog(a) :: cache.disk[a] == old(cache.logical)[a])
    {
      outstanding := outstanding - 1;
      ops := Reservation.Without(ops, i);
      if committing {
        return false;
      }
      if outstanding > 0 {
        return true;
      }
      ok := LastOut();
      if ok { Reservation.EndedIs(g.size, old(View()), i, View()); }
    }

    /** The end of end_op for the last call. */
    method LastOut() returns (ok: bool)
      requires Ready() && outstanding == 0
      modifies this`lh, this`committing, cache
      ensures ok <==> old(lh) == [] || |old(lh)| + |readers| < NBUF
      ensures !ok ==>
        cache.writes == old(cache.writes) && cache.logical == old(cache.logical) && lh == old(lh) && committing
      ensures ok ==> Ready() && lh == [] && !committing && cache.disk == cache.logical
      ensures ok ==>
        var ws := CommitWrites(old(cache.disk), old(cache.logical), g, old(lh));
        && cache.writes == old(cache.writes) + ws && cache.disk == Apply(old(cache.disk), ws)
        && |cache.disk| == |old(cache.logical)|
      ensures ok ==> forall a | 0 <= a < |cache.disk| && !g.InLog(a) :: cache.disk[a] == old(cache.logical)[a]
    {
      committing := true;
      ok := Commit();
      if ok {
        committing := false;
      }
    }

    // ---------- group commit ----------

    /** Any number of calls are running and have so far made the updates `us`, in this order. The disk is
        still `d`. Folded (see Bio.Bcache.Valid). */
    ghost predicate Batch(d: Disk, us: seq<Write>)
      reads this, cache
    {
      && |ops| == outstanding && !committing
      && cache.disk == d && |cache.logical| == |d| <= 0x1_0000_0000 && cache.logical == Apply(d, us)
      && forall k: nat {:trigger Folded(k)} :: Folded(k)
    }

    ghost predicate Folded(k: nat)
      reads this, cache
    {
      Ready() && Reservation.Inv(View())
    }

    lemma FirstBatch()
      requires Ready() && View() == Reservation.INIT && outstanding == 0
      ensures Batch(cache.disk, [])
    {
      LogIsOnDisk();
      assert forall k: nat :: Folded(k);
    }

    /** begin_op joins the batch, or sleeps. */
    method Enter(ghost d: Disk, ghost us: seq<Write>) returns (started: bool)
      requires Batch(d, us)
      modifies this`outstanding, this`ops
      ensures Batch(d, us)
      ensures started ==> Reservation.Next(g.size, old(View()), Reservation.Begin, View())
      ensures !started ==>
        View() == old(View()) && forall s' :: !Reservation.Next(g.size, View(), Reservation.Begin, s')
    {
      assert Folded(0);
      started := BeginOp();
      if started { Reservation.StepKeeps(g.size, old(View()), Reservation.Begin, View()); }
      assert forall k: nat :: Folded(k);
    }

    /** An update by call `i`, which has not used up its allowance. */
    method Put(ghost i: nat, w: Write, ghost d: Disk, ghost us: seq<Write>) returns (r: UpdateResult)
      requires Batch(d, us) && w.a < |d| && !g.InLog(w.a) && Reservation.CanLog(View(), i, w.a)
      modifies this`lh, this`ops, cache
      ensures r.Waits? <==> HeldIn(old(cache.bufs), readers, w.a)
      ensures r.Waits? ==> Batch(d, us) && View() == old(View())
      ensures r.Panicked? <==>
        && !r.Waits?
        && ((w.a !in old(lh) && |old(lh)| + |readers| >= NBUF) || Reservation.Refused(g.size, old(View()), i))
      ensures r.Updated? ==> Batch(d, us + [w]) && Reservation.Logged(g.size, old(View()), i, w.a, View())
      ensures r.Updated? ==> lh == Reservation.Absorb(old(lh), w.a)
      ensures cache.writes == old(cache.writes)
      ensures !r.Panicked? ==> SameHeld(old(cache.bufs), cache.bufs, readers)
    {
      assert Folded(0);
      ApplySplit(d, us, w);
      r := Update(w.a, w.data, i);
      if r.Updated? { Reservation.LoggedKeeps(g.size, old(View()), i, w.a, View()); }
      if !r.Panicked? { assert forall k: nat :: Folded(k); }
    }

    /** end_op of call `i`. While others run nothing happens; the last one out commits the updates of all
        of them, and wherever the machine stops on the way it recovers to all of them or none. */
    method Leave(ghost i: nat, ghost d: Disk, ghost us: seq<Write>) returns (ok: bool)
      requires Batch(d, us) && i < |ops| && !ops[i].checked
      modifies this`lh, this`outstanding, this`committing, this`ops, cache
      ensures |old(ops)| > 1 ==>
        ok && unchanged(cache) && Batch(d, us) && Reservation.Next(g.size, old(View()), Reservation.End(i), View())
      ensures outstanding == old(outstanding) - 1
      ensures |old(ops)| == 1 ==> (ok <==> old(lh) == [] || |old(lh)| + |readers| < NBUF)
      ensures !ok ==> cache.writes == old(cache.writes) && cache.logical == old(cache.logical) && lh == old(lh)
      ensures |old(ops)| == 1 && readers == {} ==> (!ok <==> Reservation.Starves(NBUF, old(View()), i))
      ensures |old(ops)| == 1 && ok ==>
        && Batch(cache.disk, []) && Reservation.Ended(g.size, old(View()), i, View())
        && AllOrNothing(d, Apply(d, us), g, old(lh))
        && cache.writes == old(cache.writes) + CommitWrites(d, Apply(d, us), g, old(lh))
        && cache.disk == Apply(d, CommitWrites(d, Apply(d, us), g, old(lh)))
        && SameOutside(g, cache.disk, Apply(d, us))
    {
      if |ops| == 1 { BatchIsPending(d, us); }
      assert Folded(0);
      ok := EndOp(i);
      if |old(ops)| > 1 {
        Reservation.StepKeeps(g.size, old(View()), Reservation.End(i), View());
        assert forall k: nat :: Folded(k);
      } else if ok {
        Reservation.EndedInit(g.size, old(View()), i, View());
        FirstBatch();
      }
    }

    /** A system call that updates at most MAXOPBLOCKS blocks, each as often as it likes, with no other
        running. */
    method Transaction(us: seq<Write>) returns (r: UpdateResult, ghost homes: seq<Word>)
      requires Ready() && View() == Reservation.INIT && outstanding == 0
      requires |Addrs(us)| <= Reservation.MAXOPBLOCKS && forall w | w in us :: w.a < |cache.disk| && !g.InLog(w.a)
      modifies this`lh, this`outstanding, this`committing, this`ops, cache
      ensures Decided(old(cache.bufs), readers, g.size, us, r)
      ensures r.Waits? ==> exists w :: w in us && HeldIn(old(cache.bufs), readers, w.a)
      ensures |Addrs(us)| + 1 < g.size && |Addrs(us)| + |readers| < NBUF ==> !r.Panicked?
      ensures r.Updated? ==> Ready() && View() == Reservation.INIT && outstanding == 0
      ensures r.Updated? ==> SameOutside(g, cache.disk, Apply(old(cache.disk), us))
      ensures r.Updated? ==> AllOrNothing(old(cache.disk), Apply(old(cache.disk), us), g, homes)
      ensures r.Updated? ==>
        cache.writes == old(cache.writes) + CommitWrites(old(cache.disk), Apply(old(cache.disk), us), g, homes)
    {
      ghost var d := cache.disk;
      FirstBatch();
      r, homes := Whole(us, d);
      if r.Updated? { assert Folded(0); }
    }

    method Whole(us: seq<Write>, ghost d: Disk) returns (r: UpdateResult, ghost homes: seq<Word>)
      requires Batch(d, []) && View() == Reservation.INIT
      requires |Addrs(us)| <= Reservation.MAXOPBLOCKS && forall w | w in us :: w.a < |d| && !g.InLog(w.a)
      modifies this`lh, this`outstanding, this`committing, this`ops, cache
      ensures Decided(old(cache.bufs), readers, g.size, us, r)
      ensures r.Waits? ==> exists w :: w in us && HeldIn(old(cache.bufs), readers, w.a)
      ensures |Addrs(us)| + 1 < g.size && |Addrs(us)| + |readers| < NBUF ==> !r.Panicked?
      ensures r.Updated? ==> Batch(cache.disk, []) && View() == Reservation.INIT
      ensures r.Updated? ==> SameOutside(g, cache.disk, Apply(d, us)) && AllOrNothing(d, Apply(d, us), g, homes)
      ensures r.Updated? ==> cache.writes == old(cache.writes) + CommitWrites(d, Apply(d, us), g, homes)
    {
      Reservation.FirstBegins(g.size);
      var started := Enter(d, []);
      ghost var bufs := cache.bufs;
      ghost var n;
      r, n := PutAll(us, d);
      homes := lh;
      if r.Updated? {
        ghost var v := View();
        SpentAll(lh, us);
        var ok := Leave(0, d, us);
        r := if ok then Updated else Panicked;
        if ok { Reservation.EndedInit(g.size, v, 0, View()); }
      }
      IsDecided(bufs, readers, g.size, us, r, n);
    }

    /** The updates of a call, one after the other. */
    method PutAll(us: seq<Write>, ghost d: Disk) returns (r: UpdateResult, ghost n: nat)
      requires Batch(d, []) && lh == [] && ops == [Reservation.Op(Reservation.MAXOPBLOCKS, false)]
      requires |Addrs(us)| <= Reservation.MAXOPBLOCKS && forall w | w in us :: w.a < |d| && !g.InLog(w.a)
      modifies this`lh, this`ops, cache
      ensures r.Waits? ==> exists w :: w in us && HeldIn(old(cache.bufs), readers, w.a)
      ensures |Addrs(us)| + 1 < g.size && |Addrs(us)| + |readers| < NBUF ==> !r.Panicked?
      ensures r.Updated? ==> Batch(d, us) && Spent(lh, us, |us|) && |lh| <= |Addrs(us)| && |ops| == 1 && !ops[0].checked
      ensures cache.writes == old(cache.writes)
      ensures n <= |us| && forall k: nat | k < n :: Passes(old(cache.bufs), readers, g.size, us, k)
      ensures r.Updated? <==> n == |us|
      ensures n < |us| ==>
        && !Passes(old(cache.bufs), readers, g.size, us, n)
        && (r.Waits? <==> HeldIn(old(cache.bufs), readers, us[n].a))
    {
      assert us[..0] == [];
      var j := 0;
      n := 0;
      while j < |us|
        invariant j == n <= |us| && Batch(d, us[..j]) && Spent(lh, us, j) && |lh| <= |Addrs(us)|
        invariant ops == [Reservation.Op(Reservation.MAXOPBLOCKS - |lh|, false)]
        invariant cache.writes == old(cache.writes)
        invariant SameHeld(old(cache.bufs), cache.bufs, readers)
        invariant forall k: nat | k < n :: Passes(old(cache.bufs), readers, g.size, us, k)
      {
        SamePasses(old(cache.bufs), cache.bufs, readers, g.size, us, j);
        r := PutNext(us, j, d);
        if !r.Updated? {
          return;
        }
        j, n := j + 1, n + 1;
      }
      assert us[..|us|] == us;
      r := Updated;
    }

    method PutNext(us: seq<Write>, n: nat, ghost d: Disk) returns (r: UpdateResult)
      requires n < |us| && Batch(d, us[..n]) && Spent(lh, us, n) && |lh| <= |Addrs(us)|
      requires |Addrs(us)| <= Reservation.MAXOPBLOCKS && forall w | w in us :: w.a < |d| && !g.InLog(w.a)
      requires ops == [Reservation.Op(Reservation.MAXOPBLOCKS - |lh|, false)]
      modifies this`lh, this`ops, cache
      ensures r.Waits? ==> exists w :: w in us && HeldIn(old(cache.bufs), readers, w.a)
      ensures |Addrs(us)| + 1 < g.size && |Addrs(us)| + |readers| < NBUF ==> !r.Panicked?
      ensures r.Updated? <==> Passes(old(cache.bufs), readers, g.size, us, n)
      ensures r.Waits? <==> HeldIn(old(cache.bufs), readers, us[n].a)
      ensures r.Updated? ==> Batch(d, us[..n + 1]) && Spent(lh, us, n + 1) && |lh| <= |Addrs(us)|
      ensures r.Updated? ==> ops == [Reservation.Op(Reservation.MAXOPBLOCKS - |lh|, false)]
      ensures cache.writes == old(cache.writes)
      ensures !r.Panicked? ==> SameHeld(old(cache.bufs), cache.bufs, readers)
    {
      assert us[n] in us;
      assert us[..n + 1] == us[..n] + [us[n]];
      SpentNext(lh, us, n);
      assert SpentAt(lh, us, n, 0);
      ghost var v := View();
      r := Put(0, us[n], d, us[..n]);
      if r.Updated? { Reservation.LoggedOps(g.size, v, 0, us[n].a, View()); }
    }

    lemma BatchIsPending(d: Disk, us: seq<Write>)
      requires Batch(d, us)
      ensures AllOrNothing(d, Apply(d, us), g, lh)
    {
      assert Folded(0);
      LogIsOnDisk();
      AnyCut(cache.disk, cache.logical, g, lh);
    }

    lemma NoPins()
      requires Quiet() && cache.pins == readers == {}
      ensures Roomy(cache.State())
    {
      assert cache.Unfolded(0);
      RoomyWith(cache.State(), {});
    }
  }

  /** The log holds the blocks of the first n updates. Folded (see Bio.Bcache.Valid). */
  ghost predicate Spent(lh: seq<Word>, us: seq<Write>, n: nat) {
    forall k: nat {:trigger SpentAt(lh, us, n, k)} :: SpentAt(lh, us, n, k)
  }

  ghost predicate SpentAt(lh: seq<Word>, us: seq<Write>, n: nat, k: nat) {
    n <= |us| && |lh| == |Addrs(us[..n])| && forall a: nat :: a in lh <==> a in Addrs(us[..n])
  }

  /** Update k of a call goes through if those before it have: its block is not held by a reader, there is a
      buffer for it, and the log has room. */
  ghost predicate Passes(bufs: seq<Buf>, readers: set<nat>, size: nat, us: seq<Write>, k: nat) {
    k < |us| ==>
      var done := Addrs(us[..k]);
      && !HeldIn(bufs, readers, us[k].a) && (us[k].a in done || |done| + |readers| < NBUF)
      && |done| < LOGSIZE && |done| + 1 < size
  }

  ghost predicate StopsAt(bufs: seq<Buf>, readers: set<nat>, size: nat, us: seq<Write>, k: nat) {
    k < |us| && !Passes(bufs, readers, size, us, k) && forall j: nat | j < k :: Passes(bufs, readers, size, us, j)
  }

  ghost predicate DecidedAt(bufs: seq<Buf>, readers: set<nat>, size: nat, us: seq<Write>, r: UpdateResult, q: nat) {
    if k: nat :| StopsAt(bufs, readers, size, us, k) then
      r == if HeldIn(bufs, readers, us[k].a) then Waits else Panicked
    else
      r == if us == [] || |Addrs(us)| + |readers| < NBUF then Updated else Panicked
  }

  /** The result of a call that makes the updates `us` alone: that of the first update which does not go
      through, or of the commit. Folded (see Bio.Bcache.Valid). */
  ghost predicate Decided(bufs: seq<Buf>, readers: set<nat>, size: nat, us: seq<Write>, r: UpdateResult) {
    forall q: nat {:trigger DecidedAt(bufs, readers, size, us, r, q)} :: DecidedAt(bufs, readers, size, us, r, q)
  }

  lemma IsDecided(bufs: seq<Buf>, readers: set<nat>, size: nat, us: seq<Write>, r: UpdateResult, n: nat)
    requires n <= |us| && forall k: nat | k < n :: Passes(bufs, readers, size, us, k)
    requires n < |us| ==>
      && !Passes(bufs, readers, size, us, n)
      && r == if HeldIn(bufs, readers, us[n].a) then Waits else Panicked
    requires n == |us| ==> r == if us == [] || |Addrs(us)| + |readers| < NBUF then Updated else Panicked
    ensures Decided(bufs, readers, size, us, r)
  {
    forall q: nat ensures DecidedAt(bufs, readers, size, us, r, q) {
      assert n < |us| ==> StopsAt(bufs, readers, size, us, n);
    }
  }

  lemma SamePasses(bufs: seq<Buf>, bufs': seq<Buf>, readers: set<nat>, size: nat, us: seq<Write>, k: nat)
    requires SameHeld(bufs, bufs', readers) && k < |us|
    ensures Passes(bufs', readers, size, us, k) <==> Passes(bufs, readers, size, us, k)
    ensures HeldIn(bufs', readers, us[k].a) <==> HeldIn(bufs, readers, us[k].a)
  {
  }

  lemma SpentAll(lh: seq<Word>, us: seq<Write>)
    requires Spent(lh, us, |us|)
    ensures |lh| == |Addrs(us)| && (lh == [] <==> us == [])
  {
    assert SpentAt(lh, us, |us|, 0) && us[..|us|] == us;
    if us != [] { assert us[0].a in Addrs(us); }
  }

  /** The next update adds its block, or it is there already. */
  lemma SpentNext(lh: seq<Word>, us: seq<Write>, n: nat)
    requires Spent(lh, us, n) && n < |us| && us[n].a < 0x1_0000_0000
    ensures Spent(Reservation.Absorb(lh, us[n].a), us, n + 1)
    ensures |Reservation.Absorb(lh, us[n].a)| <= |Addrs(us)|
  {
    assert SpentAt(lh, us, n, 0);
    AddrsNext(us, n);
    AddrsOfPrefix(us, n + 1);
    var lh', m := Reservation.Absorb(lh, us[n].a), n + 1;
    assert us[n].a in lh ==> Addrs(us[..m]) == Addrs(us[..n]);
    forall k: nat ensures SpentAt(lh', us, m, k) {}
  }

  lemma AbsorbGood(d: Disk, g: Geometry, lh: seq<Word>, a: Word)
    requires GoodHomes(d, g, lh) && Distinct(lh) && |lh| < LOGSIZE && |lh| + 1 < g.size && a < |d| && !g.InLog(a)
    ensures GoodHomes(d, g, Reservation.Absorb(lh, a)) && Distinct(Reservation.Absorb(lh, a))
    ensures forall x: nat :: x in Reservation.Absorb(lh, a) <==> x in lh || x == a
  {
  }

  /** The same contents outside the log region. */
  ghost predicate SameOutside(g: Geometry, d: Disk, e: Disk) {
    |d| == |e| && forall a | 0 <= a < |d| && !g.InLog(a) :: d[a] == e[a]
  }

  /** Cut off after k writes, the commit of `l` over `d` leaves a disk that recovers to one of them. */
  ghost predicate CutAt(d: Disk, l: Disk, g: Geometry, lh: seq<Word>, k: nat)
    requires GoodLog(d, g) && GoodHomes(d, g, lh) && |l| == |d|
  {
    var ws := CommitWrites(d, l, g, lh);
    k <= |ws| ==> Holds(Apply(d, ws[..k]), g, if k > |lh| then l else d)
  }

  ghost predicate AllOrNothing(d: Disk, l: Disk, g: Geometry, lh: seq<Word>) {
    && GoodLog(d, g) && GoodHomes(d, g, lh) && Pending(d, l, g, lh)
    && forall k: nat {:trigger CutAt(d, l, g, lh, k)} :: CutAt(d, l, g, lh, k)
  }

  lemma AnyCut(d: Disk, l: Disk, g: Geometry, lh: seq<Word>)
    requires GoodLog(d, g) && HeaderCount(d[g.start]) == 0 && GoodHomes(d, g, lh) && Pending(d, l, g, lh)
    ensures AllOrNothing(d, l, g, lh)
  {
    forall k: nat ensures CutAt(d, l, g, lh, k) {
      if k <= |CommitWrites(d, l, g, lh)| { CommitCut(d, l, g, lh, k); }
    }
  }

  lemma CommitHead(d: Disk, l: Disk, g: Geometry, lh: seq<Word>)
    requires GoodLog(d, g) && GoodHomes(d, g, lh) && |l| == |d|
    requires forall a: nat | g.InLog(a) :: l[a] == d[a]
    ensures LogWrites(l, g, lh) + [HeadWrite(Apply(l, LogWrites(l, g, lh)), g, lh)] == CommitPrefix(d, l, g, lh)
  {
    assert LogWrites(l, g, lh)[..|lh|] == LogWrites(l, g, lh);
    LogPrefix(l, l, g, lh, |lh|);
  }

  lemma SameLog(d: Disk, l: Disk, g: Geometry, lh: seq<Word>)
    requires 0 < g.size && g.start + g.size <= |d| == |l| && GoodHomes(d, g, lh)
    requires forall a: nat | g.InLog(a) :: l[a] == d[a]
    ensures InstallWrites(l, g, lh) == InstallWrites(d, g, lh)
    ensures HeadWrite(Apply(l, InstallWrites(l, g, lh)), g, []) == HeadWrite(d, g, [])
  {
    assert InstallWrites(l, g, lh)[..|lh|] == InstallWrites(l, g, lh);
    InstallPrefix(l, g, lh, |lh|);
  }

  /** A commit is its two phases one after the other. */
  lemma CommitSplit(d: Disk, l: Disk, g: Geometry, lh: seq<Word>, ws0: seq<Write>)
    requires GoodLog(d, g) && GoodHomes(d, g, lh) && |l| == |d| && lh != []
    ensures var ps := CommitPrefix(d, l, g, lh);
            var d1 := Apply(d, ps);
            var rs := InstallWrites(d1, g, lh) + [HeadWrite(d1, g, [])];
            && ws0 + ps + rs == ws0 + CommitWrites(d, l, g, lh)
            && Apply(d1, rs) == Apply(d, CommitWrites(d, l, g, lh))
  {
    var ps := CommitPrefix(d, l, g, lh);
    var d1 := Apply(d, ps);
    var rs := InstallWrites(d1, g, lh) + [HeadWrite(d1, g, [])];
    assert ps + rs == CommitWrites(d, l, g, lh);
    ApplyConcat(d, ps, rs);
  }

  lemma CommitDone(d: Disk, l: Disk, g: Geometry, lh: seq<Word>)
    requires GoodLog(d, g) && HeaderCount(d[g.start]) == 0 && GoodHomes(d, g, lh) && lh != []
    requires Pending(d, l, g, lh)
    ensures var d' := Apply(d, CommitWrites(d, l, g, lh));
            && GoodLog(d', g) && HeaderCount(d'[g.start]) == 0
            && forall a | 0 <= a < |d| && !g.InLog(a) :: d'[a] == l[a]
  {
    var ws := CommitWrites(d, l, g, lh);
    assert ws[..|ws|] == ws;
    CommitCut(d, l, g, lh, |ws|);
    EmptyLog(Apply(d, ws), g);
  }
}
