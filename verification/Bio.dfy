/** The write-back block cache of bio.c.

    `Cache` is the abstract state, and `Next` the effect on it of each stretch of
    code between two points where other processes can run: bread and bwrite hand
    their buffer to the driver in one step and have it back in another. The run
    theorems below are about every sequence of such steps. The class `Bcache` at
    the end is the linked-list implementation over the driver of memide.c, and
    each of its methods is proved to take the matching steps. */
module Bio {
  import opened Params
  import opened Blocks

  const NBUF: nat := 30
  const HEAD: nat := NBUF              // index of the list head, next to the NBUF buffers
  const ROOTDEV: Word := 1
  const NODEV: Word := 0xFFFF_FFFF     // binit's dev = -1

  /** One block written to the disk. */
  datatype Write = Write(a: nat, data: Block)

  function Apply(d: seq<Block>, ws: seq<Write>): (r: seq<Block>)
    ensures |r| == |d|
    decreases |ws|
  {
    if ws == [] then d
    else
      var w := ws[0];
      Apply(if w.a < |d| then d[w.a := w.data] else d, ws[1..])
  }

  lemma {:induction false} ApplySplit(d: seq<Block>, ws: seq<Write>, w: Write)
    ensures Apply(d, ws + [w]) == (var m := Apply(d, ws); if w.a < |d| then m[w.a := w.data] else m)
    decreases |ws|
  {
    if ws == [] {
      assert [] + [w] == [w];
      assert Apply(d, [w]) == Apply(if w.a < |d| then d[w.a := w.data] else d, []);
    } else {
      assert (ws + [w])[1..] == ws[1..] + [w];
      ApplySplit(if ws[0].a < |d| then d[ws[0].a := ws[0].data] else d, ws[1..], w);
    }
  }

  lemma {:induction false} ApplyConcat(d: seq<Block>, ws: seq<Write>, us: seq<Write>)
    ensures Apply(d, ws + us) == Apply(Apply(d, ws), us)
    decreases |ws|
  {
    if ws == [] {
      assert ws + us == us;
    } else {
      assert (ws + us)[1..] == ws[1..] + us;
      ApplyConcat(if ws[0].a < |d| then d[ws[0].a := ws[0].data] else d, ws[1..], us);
    }
  }

  /** The blocks that some writes go to. */
  ghost function Addrs(ws: seq<Write>): (r: set<nat>)
    ensures forall w | w in ws :: w.a in r
  {
    if ws == [] then {} else Addrs(ws[..|ws| - 1]) + {ws[|ws| - 1].a}
  }

  lemma AddrsNext(ws: seq<Write>, n: nat)
    requires n < |ws|
    ensures Addrs(ws[..n + 1]) == Addrs(ws[..n]) + {ws[n].a} && Addrs(ws[..n]) <= Addrs(ws[..n + 1])
  {
    assert ws[..n + 1][..n] == ws[..n];
  }

  lemma AddrsSnoc(ws: seq<Write>, w: Write)
    ensures Addrs(ws + [w]) == Addrs(ws) + {w.a}
  {
    assert (ws + [w])[..|ws|] == ws;
  }

  lemma {:induction false} AddrsConcat(ws: seq<Write>, us: seq<Write>)
    ensures Addrs(ws + us) == Addrs(ws) + Addrs(us)
  {
    if us == [] {
      assert ws + us == ws;
    } else {
      var most := us[..|us| - 1];
      assert ws + us == ws + most + [us[|us| - 1]];
      AddrsConcat(ws, most);
      AddrsSnoc(ws + most, us[|us| - 1]);
    }
  }

  lemma {:induction false} AddrsOfPrefix(ws: seq<Write>, n: nat)
    requires n <= |ws|
    ensures Addrs(ws[..n]) <= Addrs(ws) && |Addrs(ws[..n])| <= |Addrs(ws)|
    decreases |ws| - n
  {
    if n < |ws| {
      AddrsNext(ws, n);
      AddrsOfPrefix(ws, n + 1);
      Subset(Addrs(ws[..n]), Addrs(ws));
    } else {
      assert ws[..n] == ws;
    }
  }

  lemma {:induction false} Subset(s: set<nat>, t: set<nat>)
    requires s <= t
    ensures |s| <= |t|
  {
    if s != {} {
      var x :| x in s;
      Subset(s - {x}, t - {x});
    }
  }

  datatype Buf = Buf(busy: bool, valid: bool, dirty: bool, dev: Word, blockno: Word, data: Block) {
    predicate Names(d: Word, a: Word) { dev == d && blockno == a }
    predicate Clean() { !busy && !dirty }
    /** The buffer holds a copy of block `a` of the disk. */
    predicate Caches(a: nat) { valid && blockno == a }
  }

  /** `order` lists the buffers from most to least recently released. `touched`
      are the buffers whose holder changed the data and has neither written nor
      logged it yet; `syncing` those whose holder is waiting in iderw. */
  datatype Cache =
    Cache(bufs: seq<Buf>, order: seq<nat>, disk: seq<Block>, touched: set<nat>, syncing: set<nat>)

  ghost predicate IsOrder(order: seq<nat>) {
    && |order| == NBUF
    && (forall i | 0 <= i < NBUF :: order[i] < NBUF)
    && Distinct(order)
    && (forall b: nat | b < NBUF :: b in order)
  }

  ghost predicate Unique(bufs: seq<Buf>) {
    forall i, j | 0 <= i < j < |bufs| && bufs[i].dev != NODEV ::
      !bufs[j].Names(bufs[i].dev, bufs[i].blockno)
  }

  ghost predicate GoodBuf(c: Cache, b: nat, buf: Buf) {
    && (buf.dirty ==> buf.valid)
    && (buf.valid || b in c.syncing ==> buf.dev == ROOTDEV && buf.blockno < |c.disk|)
    && (buf.valid && !buf.dirty && b !in c.touched ==> buf.data == c.disk[buf.blockno])
    && (b in c.touched ==> buf.busy && buf.valid)
    && (buf.busy ==> buf.valid || b in c.syncing)
    && (b in c.syncing ==> buf.busy && (!buf.valid || (buf.dirty && b !in c.touched)))
  }

  ghost predicate Inv(c: Cache) {
    && |c.bufs| == NBUF
    && IsOrder(c.order)
    && Unique(c.bufs)
    && (forall b | b in c.syncing :: b < NBUF)
    && forall b | 0 <= b < NBUF :: GoodBuf(c, b, c.bufs[b])
  }

  /** The disk as the rest of the kernel sees it: the cached copy if there is
      one, and else the block on disk. */
  ghost function LogicalAt(c: Cache, a: nat): Block
    requires a < |c.disk|
  {
    if exists b :: 0 <= b < |c.bufs| && c.bufs[b].Caches(a)
    then var b :| 0 <= b < |c.bufs| && c.bufs[b].Caches(a); c.bufs[b].data
    else c.disk[a]
  }

  ghost function Logical(c: Cache): (l: seq<Block>)
    ensures |l| == |c.disk|
  {
    seq(|c.disk|, a requires 0 <= a < |c.disk| => LogicalAt(c, a))
  }

  // ---------- the steps ----------

  ghost predicate Cached(c: Cache, dev: Word, blockno: Word) {
    exists b :: 0 <= b < |c.bufs| && c.bufs[b].Names(dev, blockno)
  }

  /** `b` is the clean buffer nearest to the least recently used end. */
  ghost predicate LeastRecent(c: Cache, b: nat) {
    |c.bufs| == NBUF && IsOrder(c.order) &&
    exists p :: 0 <= p < NBUF && c.order[p] == b && c.bufs[b].Clean() &&
                forall q | p < q < NBUF :: !c.bufs[c.order[q]].Clean()
  }

  /** bget hands out `b`: the buffer that already names the block, or a recycled one. */
  ghost predicate Got(c: Cache, dev: Word, blockno: Word, b: nat, bufs: seq<Buf>) {
    && b < NBUF == |c.bufs|
    && if Cached(c, dev, blockno) then
         && c.bufs[b].Names(dev, blockno)
         && !c.bufs[b].busy
         && bufs == c.bufs[b := c.bufs[b].(busy := true)]
       else
         && LeastRecent(c, b)
         && bufs == c.bufs[b := Buf(true, false, false, dev, blockno, c.bufs[b].data)]
  }

  /** What the driver does to a buffer: a dirty one is written, another read. */
  function SyncedBuf(d: seq<Block>, buf: Buf): Buf
    requires buf.blockno < |d|
  {
    if buf.dirty then buf.(dirty := false, valid := true) else buf.(data := d[buf.blockno], valid := true)
  }

  /** And to the disk. */
  function SyncedDisk(d: seq<Block>, buf: Buf): seq<Block>
    requires buf.blockno < |d|
  {
    if buf.dirty then d[buf.blockno := buf.data] else d
  }

  ghost function Synced(c: Cache, b: nat): Cache
    requires b < |c.bufs| && c.bufs[b].blockno < |c.disk|
  {
    c.(bufs := c.bufs[b := SyncedBuf(c.disk, c.bufs[b])],
       disk := SyncedDisk(c.disk, c.bufs[b]),
       syncing := c.syncing - {b})
  }

  datatype Step =
    | Bget(a: Word, b: nat)           // bread(ROOTDEV, a) gets b, and calls iderw if b is not valid
    | Modify(b: nat, data: Block)     // the holder of b changes its data
    | LogWrite(b: nat)                // log_write pins b with B_DIRTY
    | Mark(b: nat)                    // bwrite sets B_DIRTY and calls iderw
    | Sync(b: nat)                    // the driver has served b, and iderw returns
    | Brelse(b: nat)

  /** The holder of `b` is running, and not waiting for the disk. */
  ghost predicate Holding(c: Cache, b: nat) {
    b < |c.bufs| && c.bufs[b].busy && c.bufs[b].valid && b !in c.syncing
  }

  /** brelse's relinking: `b` becomes the most recently used buffer. */
  ghost predicate ToFront(order: seq<nat>, b: nat, order': seq<nat>) {
    exists p :: 0 <= p < |order| && order[p] == b && order' == [b] + order[..p] + order[p + 1..]
  }

  /** Any change the holder of `b` made to it is logged, or is on the disk already. */
  ghost predicate Settled(c: Cache, b: nat)
    requires b < |c.bufs|
  {
    b in c.touched ==> c.bufs[b].dirty || (c.bufs[b].blockno < |c.disk| && c.bufs[b].data == c.disk[c.bufs[b].blockno])
  }

  ghost predicate Next(c: Cache, s: Step, c': Cache) {
    |c.bufs| == NBUF && IsOrder(c.order) &&
    match s
    case Bget(a, b) =>
      && a < |c.disk| && Got(c, ROOTDEV, a, b, c'.bufs)
      && c' == c.(bufs := c'.bufs, syncing := if c'.bufs[b].valid then c.syncing else c.syncing + {b})
    case Modify(b, data) =>
      && Holding(c, b)
      && c' == c.(bufs := c.bufs[b := c.bufs[b].(data := data)], touched := c.touched + {b})
    case LogWrite(b) =>
      && Holding(c, b)
      && c' == c.(bufs := c.bufs[b := c.bufs[b].(dirty := true)], touched := c.touched - {b})
    case Mark(b) =>
      && Holding(c, b)
      && c' == c.(bufs := c.bufs[b := c.bufs[b].(dirty := true)],
                  touched := c.touched - {b},
                  syncing := c.syncing + {b})
    case Sync(b) =>
      && b in c.syncing && b < NBUF && c.bufs[b].blockno < |c.disk|
      && c' == Synced(c, b)
    case Brelse(b) =>
      && Holding(c, b) && Settled(c, b) && ToFront(c.order, b, c'.order)
      && c' == c.(bufs := c.bufs[b := c.bufs[b].(busy := false)], order := c'.order, touched := c.touched - {b})
  }

  // ---------- what every step keeps ----------

  ghost predicate Distinct(s: seq<nat>) {
    forall i, j | 0 <= i < j < |s| :: s[i] != s[j]
  }

  lemma FrontDistinct(s: seq<nat>, p: nat)
    requires Distinct(s) && p < |s|
    ensures Distinct([s[p]] + s[..p] + s[p + 1..])
  {
    var r := [s[p]] + s[..p] + s[p + 1..];
    assert forall i | 0 < i < |r| :: r[i] == if i <= p then s[i - 1] else s[i];
  }

  lemma FrontMembers(s: seq<nat>, p: nat, x: nat)
    requires p < |s|
    ensures x in [s[p]] + s[..p] + s[p + 1..] <==> x in s
  {
    assert s == s[..p] + [s[p]] + s[p + 1..];
  }

  lemma ToFrontIsOrder(order: seq<nat>, b: nat, order': seq<nat>)
    requires IsOrder(order) && ToFront(order, b, order')
    ensures IsOrder(order') && order'[0] == b
  {
    var p :| 0 <= p < |order| && order[p] == b && order' == [b] + order[..p] + order[p + 1..];
    FrontDistinct(order, p);
    forall x: nat ensures x in order' <==> x in order { FrontMembers(order, p, x); }
    forall i | 0 <= i < NBUF ensures order'[i] < NBUF { assert order'[i] in order'; }
  }

  /** A cached copy is the logical block. */
  lemma LogicalCached(c: Cache, b: nat)
    requires Inv(c) && b < NBUF && c.bufs[b].valid
    ensures LogicalAt(c, c.bufs[b].blockno) == c.bufs[b].data
  {
  }

  lemma LogicalUncached(c: Cache, a: nat)
    requires a < |c.disk|
    requires forall b | 0 <= b < |c.bufs| :: !c.bufs[b].Caches(a)
    ensures LogicalAt(c, a) == c.disk[a]
  {
  }

  /** The effect of a step on the logical disk: none, unless a holder writes its data. */
  ghost function LogicalAfter(c: Cache, s: Step): seq<Block> {
    if s.Modify? && s.b < |c.bufs| && c.bufs[s.b].blockno < |c.disk|
    then Logical(c)[c.bufs[s.b].blockno := s.data]
    else Logical(c)
  }

  /** A step changes buffer `s.b` only. */
  lemma StepIsLocal(c: Cache, s: Step, c': Cache)
    requires Inv(c) && Next(c, s, c')
    ensures s.b < NBUF && |c'.bufs| == NBUF && forall i | 0 <= i < NBUF && i != s.b :: c'.bufs[i] == c.bufs[i]
  {
  }

  lemma BgetKeeps(c: Cache, s: Step, c': Cache)
    requires Inv(c) && s.Bget? && Next(c, s, c')
    ensures Inv(c') && Logical(c') == Logical(c)
    ensures c'.bufs[s.b].busy && c'.bufs[s.b].Names(ROOTDEV, s.a)
    ensures c'.bufs[s.b].valid ==> c'.bufs[s.b].data == Logical(c)[s.a]
  {
    var a, b := s.a, s.b;
    assert Inv(c');
    forall x | 0 <= x < |c.disk| ensures LogicalAt(c', x) == LogicalAt(c, x) {
      if i :| 0 <= i < NBUF && i != b && c.bufs[i].Caches(x) {
        assert c'.bufs[i] == c.bufs[i];
        LogicalCached(c, i);
        LogicalCached(c', i);
      } else if c.bufs[b].Caches(x) {
        LogicalCached(c, b);
        if c'.bufs[b].Caches(x) { LogicalCached(c', b); } else { LogicalUncached(c', x); }
      } else {
        LogicalUncached(c, x);
        LogicalUncached(c', x);
      }
    }
    if c'.bufs[b].valid { LogicalCached(c', b); }
  }

  /** A buffer comes back from the driver with the logical block, and clean. */
  lemma SyncKeeps(c: Cache, s: Step, c': Cache)
    requires Inv(c) && s.Sync? && Next(c, s, c')
    ensures Inv(c') && Logical(c') == Logical(c)
    ensures Holding(c', s.b) && !c'.bufs[s.b].dirty
    ensures c'.bufs[s.b].data == Logical(c)[c.bufs[s.b].blockno]
  {
    var b := s.b;
    assert Inv(c');
    forall x | 0 <= x < |c.disk| ensures LogicalAt(c', x) == LogicalAt(c, x) {
      if i :| 0 <= i < NBUF && i != b && c.bufs[i].Caches(x) {
        assert c'.bufs[i] == c.bufs[i];
        LogicalCached(c, i);
        LogicalCached(c', i);
      } else if c'.bufs[b].Caches(x) {
        LogicalCached(c', b);
        if c.bufs[b].valid { LogicalCached(c, b); } else { LogicalUncached(c, x); }
      } else {
        LogicalUncached(c, x);
        LogicalUncached(c', x);
      }
    }
    LogicalCached(c', b);
  }

  /** The steps of a holder that is running. */
  lemma HolderKeepsInv(c: Cache, s: Step, c': Cache)
    requires Inv(c) && !s.Bget? && !s.Sync? && Next(c, s, c')
    ensures Inv(c') && c'.disk == c.disk
  {
    if s.Brelse? { ToFrontIsOrder(c.order, s.b, c'.order); }
    StepIsLocal(c, s, c');
    assert GoodBuf(c, s.b, c.bufs[s.b]);
    forall b | 0 <= b < NBUF ensures GoodBuf(c', b, c'.bufs[b]) { assert GoodBuf(c, b, c.bufs[b]); }
  }

  lemma HolderLogical(c: Cache, s: Step, c': Cache)
    requires Inv(c) && Inv(c') && !s.Bget? && !s.Sync? && Next(c, s, c')
    ensures Logical(c') == LogicalAfter(c, s)
  {
    forall x | 0 <= x < |c.disk| ensures LogicalAt(c', x) == LogicalAfter(c, s)[x] {
      if i :| 0 <= i < NBUF && c.bufs[i].Caches(x) {
        assert c'.bufs[i].Caches(x);
        LogicalCached(c, i);
        LogicalCached(c', i);
      } else {
        LogicalUncached(c, x);
        assert forall i | 0 <= i < NBUF :: !c'.bufs[i].Caches(x);
        LogicalUncached(c', x);
      }
    }
  }

  lemma StepKeeps(c: Cache, s: Step, c': Cache)
    requires Inv(c) && Next(c, s, c')
    ensures Inv(c')
    ensures |c'.disk| == |c.disk| && Logical(c') == LogicalAfter(c, s)
  {
    if s.Bget? {
      BgetKeeps(c, s, c');
    } else if s.Sync? {
      SyncKeeps(c, s, c');
    } else {
      HolderKeepsInv(c, s, c');
      HolderLogical(c, s, c');
    }
  }

  lemma StepKeepsInv(c: Cache, s: Step, c': Cache)
    requires Inv(c) && Next(c, s, c')
    ensures Inv(c') && |c'.disk| == |c.disk|
  {
    StepKeeps(c, s, c');
  }

  // ---------- every run ----------

  ghost predicate IsRun(cs: seq<Cache>, steps: seq<Step>) {
    && |cs| == |steps| + 1
    && forall i | 0 <= i < |steps| :: Next(cs[i], steps[i], cs[i + 1])
  }

  lemma {:induction false} RunKeepsInv(cs: seq<Cache>, steps: seq<Step>, i: nat)
    requires IsRun(cs, steps) && Inv(cs[0]) && i < |cs|
    ensures Inv(cs[i]) && |cs[i].disk| == |cs[0].disk|
  {
    if i > 0 {
      RunKeepsInv(cs, steps, i - 1);
      var c, s, c' := cs[i - 1], steps[i - 1], cs[i - 1 + 1];
      assert Next(c, s, c');
      StepKeepsInv(c, s, c');
    }
  }

  /** The cache is invisible: at every moment of every run each valid buffer holds the
      logical block, a buffer comes back from the disk with the logical block, and only
      a holder's own change alters the logical disk. (That no two buffers ever name the
      same block is part of `Inv`.) */
  lemma CacheIsTransparent(cs: seq<Cache>, steps: seq<Step>, i: nat)
    requires IsRun(cs, steps) && Inv(cs[0]) && i < |steps|
    ensures Inv(cs[i]) && Inv(cs[i + 1])
    ensures Logical(cs[i + 1]) == LogicalAfter(cs[i], steps[i])
    ensures forall b | 0 <= b < NBUF && cs[i].bufs[b].valid ::
              cs[i].bufs[b].data == Logical(cs[i])[cs[i].bufs[b].blockno]
    ensures steps[i].Sync? ==>
              && Holding(cs[i + 1], steps[i].b)
              && cs[i + 1].bufs[steps[i].b].data == Logical(cs[i])[cs[i].bufs[steps[i].b].blockno]
  {
    RunKeepsInv(cs, steps, i);
    StepKeeps(cs[i], steps[i], cs[i + 1]);
    forall b: nat | b < NBUF && cs[i].bufs[b].valid
      ensures cs[i].bufs[b].data == Logical(cs[i])[cs[i].bufs[b].blockno]
    {
      LogicalCached(cs[i], b);
    }
    if steps[i].Sync? { SyncKeeps(cs[i], steps[i], cs[i + 1]); }
  }

  lemma WaitingKeeps(c: Cache, s: Step, c': Cache, b: nat)
    requires Inv(c) && Next(c, s, c') && b in c.syncing && b in c'.syncing
    ensures c'.bufs[b] == c.bufs[b] && Logical(c')[c.bufs[b].blockno] == Logical(c)[c.bufs[b].blockno]
  {
    StepKeeps(c, s, c');
    assert s.b != b;
  }

  /** While a holder waits in iderw, whatever else runs, neither its buffer nor the logical
      block it names changes: bread returns the block as it was when bget chose the buffer,
      and bwrite writes the data it was called with. */
  lemma {:induction false} WaitingIsUndisturbed(cs: seq<Cache>, steps: seq<Step>, b: nat, i: nat)
    requires IsRun(cs, steps) && Inv(cs[0]) && i < |cs|
    requires forall k | 0 <= k <= i :: b in cs[k].syncing
    ensures b < NBUF && |cs[i].bufs| == NBUF && cs[i].bufs[b] == cs[0].bufs[b]
    ensures
      var a := cs[0].bufs[b].blockno;
      a < |cs[0].disk| == |cs[i].disk| && Logical(cs[i])[a] == Logical(cs[0])[a]
  {
    if i > 0 {
      WaitingIsUndisturbed(cs, steps, b, i - 1);
      RunKeepsInv(cs, steps, i - 1);
      var c, s, c' := cs[i - 1], steps[i - 1], cs[i - 1 + 1];
      assert Next(c, s, c');
      StepKeepsInv(c, s, c');
      WaitingKeeps(c, s, c', b);
    }
  }

  /** Block `a` is held in the cache by B_DIRTY. */
  ghost predicate Pinned(c: Cache, a: nat) {
    exists b :: 0 <= b < |c.bufs| && b !in c.syncing && c.bufs[b].Caches(a) && c.bufs[b].dirty
  }

  lemma StepKeepsPin(c: Cache, s: Step, c': Cache, a: nat)
    requires Inv(c) && Next(c, s, c') && Pinned(c, a)
    requires s.Mark? ==> c.bufs[s.b].blockno != a
    ensures Pinned(c', a) && a < |c.disk| && |c'.disk| == |c.disk| && c'.disk[a] == c.disk[a]
  {
    var b :| 0 <= b < |c.bufs| && b !in c.syncing && c.bufs[b].Caches(a) && c.bufs[b].dirty;
    assert c'.bufs[b].Caches(a) && c'.bufs[b].dirty && b !in c'.syncing;
  }

  /** Once logged, a block is neither evicted nor written home until a bwrite
      (install_trans, after the commit point) names it. */
  lemma {:induction false} LoggedStaysPinned(cs: seq<Cache>, steps: seq<Step>, a: nat, i: nat)
    requires IsRun(cs, steps) && Inv(cs[0]) && Pinned(cs[0], a) && i < |cs|
    requires forall k | 0 <= k < i && steps[k].Mark? ::
               steps[k].b < |cs[k].bufs| ==> cs[k].bufs[steps[k].b].blockno != a
    ensures Pinned(cs[i], a)
    ensures a < |cs[i].disk| == |cs[0].disk| && cs[i].disk[a] == cs[0].disk[a]
  {
    if i > 0 {
      LoggedStaysPinned(cs, steps, a, i - 1);
      RunKeepsInv(cs, steps, i - 1);
      assert Next(cs[i - 1], steps[i - 1], cs[i - 1 + 1]);
      StepKeepsPin(cs[i - 1], steps[i - 1], cs[i], a);
    }
  }

  // ---------- bookkeeping: who is busy, what is pinned ----------

  /** The busy buffers and the pinned blocks, counted over the first k buffers. */
  ghost function BusyBelow(bufs: seq<Buf>, k: nat): (s: set<nat>)
    requires k <= |bufs|
    ensures forall b | b in s :: b < k && bufs[b].busy
  {
    if k == 0 then {} else if bufs[k - 1].busy then BusyBelow(bufs, k - 1) + {k - 1} else BusyBelow(bufs, k - 1)
  }

  ghost function PinsBelow(bufs: seq<Buf>, k: nat): set<nat>
    requires k <= |bufs|
  {
    if k == 0 then {}
    else if bufs[k - 1].dirty then PinsBelow(bufs, k - 1) + {bufs[k - 1].blockno as nat}
    else PinsBelow(bufs, k - 1)
  }

  ghost function Busy(c: Cache): set<nat> { BusyBelow(c.bufs, |c.bufs|) }

  ghost function Pins(c: Cache): set<nat> { PinsBelow(c.bufs, |c.bufs|) }

  lemma {:induction false} InBusyBelow(bufs: seq<Buf>, k: nat, b: nat)
    requires k <= |bufs|
    ensures b in BusyBelow(bufs, k) <==> b < k && bufs[b].busy
  {
    if k > 0 { InBusyBelow(bufs, k - 1, b); }
  }

  lemma {:induction false} InPinsBelow(bufs: seq<Buf>, k: nat, a: nat)
    requires k <= |bufs|
    ensures a in PinsBelow(bufs, k) <==> exists b :: 0 <= b < k && bufs[b].dirty && bufs[b].blockno == a
  {
    if k > 0 { InPinsBelow(bufs, k - 1, a); }
  }

  lemma InBusy(c: Cache, b: nat)
    ensures b in Busy(c) <==> b < |c.bufs| && c.bufs[b].busy
  {
    InBusyBelow(c.bufs, |c.bufs|, b);
  }

  lemma InPins(c: Cache, a: nat)
    ensures a in Pins(c) <==> exists b :: 0 <= b < |c.bufs| && c.bufs[b].dirty && c.bufs[b].blockno == a
  {
    InPinsBelow(c.bufs, |c.bufs|, a);
  }

  ghost function BusyAfter(c: Cache, s: Step): set<nat> {
    if s.Bget? then Busy(c) + {s.b} else if s.Brelse? then Busy(c) - {s.b} else Busy(c)
  }

  /** The pinned blocks after a step; a block that is being written counts until it is. */
  ghost function PinsAfter(c: Cache, s: Step): set<nat> {
    if s.b < |c.bufs| && s.Sync? then Pins(c) - {c.bufs[s.b].blockno}
    else if s.b < |c.bufs| && (s.LogWrite? || s.Mark?) then Pins(c) + {c.bufs[s.b].blockno}
    else Pins(c)
  }

  lemma StepPins(c: Cache, s: Step, c': Cache, a: nat)
    requires Inv(c) && Next(c, s, c')
    ensures a in Pins(c') <==> a in PinsAfter(c, s)
  {
    var b := s.b;
    StepIsLocal(c, s, c');
    InPins(c, a);
    InPins(c', a);
    if i :| 0 <= i < NBUF && i != b && c.bufs[i].dirty && c.bufs[i].blockno == a {
      assert c'.bufs[i].dirty && c'.bufs[i].blockno == a;
      assert s.Sync? ==> c.bufs[b].blockno != a;
    } else {
      assert a in Pins(c) <==> c.bufs[b].dirty && c.bufs[b].blockno == a;
      assert a in Pins(c') <==> c'.bufs[b].dirty && c'.bufs[b].blockno == a;
    }
  }

  lemma StepBooks(c: Cache, s: Step, c': Cache)
    requires Inv(c) && Next(c, s, c')
    ensures Busy(c') == BusyAfter(c, s)
    ensures s.Bget? ==> s.b !in Busy(c)
    ensures Pins(c') == PinsAfter(c, s)
  {
    StepIsLocal(c, s, c');
    forall b: nat ensures b in Busy(c') <==> b in BusyAfter(c, s) {
      InBusy(c, b);
      InBusy(c', b);
    }
    InBusy(c, s.b);
    forall a: nat ensures a in Pins(c') <==> a in PinsAfter(c, s) { StepPins(c, s, c', a); }
  }

  /** bget can recycle a buffer. */
  ghost predicate Roomy(c: Cache) {
    exists b :: 0 <= b < |c.bufs| && c.bufs[b].Clean()
  }

  ghost function ToSet(s: seq<nat>): set<nat> { set x: nat | x in s }

  lemma {:induction false} DistinctCard(s: seq<nat>)
    requires Distinct(s)
    ensures |ToSet(s)| == |s|
  {
    if s != [] {
      var t := s[1..];
      DistinctCard(t);
      assert s[0] !in t;
      assert s == [s[0]] + t;
      assert ToSet(s) == ToSet(t) + {s[0]};
    }
  }

  /** The buffers that are held without being pinned. */
  ghost function ReadersBelow(bufs: seq<Buf>, k: nat): (s: set<nat>)
    requires k <= |bufs|
    ensures forall b | b in s :: b < k
  {
    if k == 0 then {}
    else if bufs[k - 1].busy && !bufs[k - 1].dirty then ReadersBelow(bufs, k - 1) + {k - 1}
    else ReadersBelow(bufs, k - 1)
  }

  ghost function Readers(c: Cache): set<nat> { ReadersBelow(c.bufs, |c.bufs|) }

  lemma {:induction false} InReadersBelow(bufs: seq<Buf>, k: nat, b: nat)
    requires k <= |bufs|
    ensures b in ReadersBelow(bufs, k) <==> b < k && bufs[b].busy && !bufs[b].dirty
  {
    if k > 0 { InReadersBelow(bufs, k - 1, b); }
  }

  /** Among the first k buffers each one that is not clean is counted once: with its block if it is
      pinned, and else with the buffer. */
  lemma {:induction false} Census(c: Cache, k: nat)
    requires Inv(c) && k <= NBUF
    ensures |PinsBelow(c.bufs, k)| + |ReadersBelow(c.bufs, k)| <= k
    ensures |PinsBelow(c.bufs, k)| + |ReadersBelow(c.bufs, k)| < k <==> exists b :: 0 <= b < k && c.bufs[b].Clean()
  {
    if k > 0 {
      Census(c, k - 1);
      var a := c.bufs[k - 1].blockno;
      InPinsBelow(c.bufs, k - 1, a);
      assert GoodBuf(c, k - 1, c.bufs[k - 1]);
      forall b | 0 <= b < k - 1 && c.bufs[b].dirty && c.bufs[k - 1].dirty ensures c.bufs[b].blockno != a {
        assert GoodBuf(c, b, c.bufs[b]);
      }
    }
  }

  /** bget can recycle a buffer exactly if the pinned blocks and the buffers held without being
      pinned are together fewer than the buffers. */
  lemma RoomyIff(c: Cache)
    requires Inv(c)
    ensures Roomy(c) <==> |Pins(c)| + |Readers(c)| < NBUF
  {
    Census(c, NBUF);
  }

  /** A block that is not pinned is the same in the cache and on disk, once nobody is changing it. */
  lemma UnpinnedIsOnDisk(c: Cache, a: nat)
    requires Inv(c) && c.touched == {} && a < |c.disk| && a !in Pins(c)
    ensures Logical(c)[a] == c.disk[a]
  {
    InPins(c, a);
    if b :| 0 <= b < NBUF && c.bufs[b].Caches(a) {
      LogicalCached(c, b);
    } else {
      LogicalUncached(c, a);
    }
  }

  // ---------- the linked-list implementation ----------

  ghost function Ring(order: seq<nat>): seq<nat> { [HEAD] + order + [HEAD] }

  /** `next` and `prev` run through the head and the buffers in the given order, and back. */
  ghost predicate Linked(next: seq<nat>, prev: seq<nat>, order: seq<nat>) {
    && |next| == |prev| == NBUF + 1
    && (forall i | 0 <= i < |order| :: order[i] < NBUF)
    && Distinct(order)
    && forall i, j | 0 <= i <= |order| && j == i + 1 ::
         next[Ring(order)[i]] == Ring(order)[j] && prev[Ring(order)[j]] == Ring(order)[i]
  }

  lemma LinkAt(next: seq<nat>, prev: seq<nat>, order: seq<nat>, i: nat)
    requires Linked(next, prev, order) && i <= |order|
    ensures next[Ring(order)[i]] == Ring(order)[i + 1] && prev[Ring(order)[i + 1]] == Ring(order)[i]
  {
    var j := i + 1;
    assert next[Ring(order)[i]] == Ring(order)[j];
  }

  lemma LinkFront(next: seq<nat>, prev: seq<nat>, order: seq<nat>, b: nat)
    requires Linked(next, prev, order) && b < NBUF && b !in order
    ensures next[HEAD] <= NBUF
    ensures Linked(next[b := next[HEAD]][HEAD := b], prev[b := HEAD][next[HEAD] := b], [b] + order)
  {
    var r, r' := Ring(order), Ring([b] + order);
    LinkAt(next, prev, order, 0);
    assert r'[0] == HEAD && r'[1] == b;
    assert forall i | 1 < i < |r'| :: r'[i] == r[i - 1];
  }

  lemma Unlink(next: seq<nat>, prev: seq<nat>, order: seq<nat>, p: nat)
    requires Linked(next, prev, order) && p < |order|
    ensures var b := order[p];
            next[b] <= NBUF && prev[b] <= NBUF &&
            Linked(next[prev[b] := next[b]], prev[next[b] := prev[b]], order[..p] + order[p + 1..])
  {
    var b, rest := order[p], order[..p] + order[p + 1..];
    var r, r' := Ring(order), Ring(rest);
    assert r[p + 1] == b;
    LinkAt(next, prev, order, p);
    LinkAt(next, prev, order, p + 1);
    var next', prev' := next[prev[b] := next[b]], prev[next[b] := prev[b]];
    forall i, j | 0 <= i <= |rest| && j == i + 1
      ensures next'[r'[i]] == r'[j] && prev'[r'[j]] == r'[i]
    {
      if i < p {
        assert r'[i] == r[i] && r'[j] == r[j];
      } else if i > p {
        assert r'[i] == r[i + 1] && r'[j] == r[j + 1];
      }
    }
  }

  /** What bread does when nothing else runs meanwhile. */
  ghost predicate ReadBy(c: Cache, a: Word, b: nat, c': Cache) {
    exists m :: Next(c, Step.Bget(a, b), m) && b < |m.bufs| && if m.bufs[b].valid then c' == m else Next(m, Sync(b), c')
  }

  /** And bwrite. */
  ghost predicate WrittenBy(c: Cache, b: nat, c': Cache) {
    exists m :: Next(c, Mark(b), m) && Next(m, Sync(b), c')
  }

  /** bget for a block that is not on the disk finds no valid buffer. */
  lemma NoSuchBlock(c: Cache, dev: Word, blockno: Word, b: nat, bufs: seq<Buf>)
    requires Inv(c) && Got(c, dev, blockno, b, bufs) && (dev != ROOTDEV || blockno >= |c.disk|)
    ensures !bufs[b].valid && bufs[b].dev == dev && bufs[b].blockno == blockno
  {
    assert GoodBuf(c, b, c.bufs[b]);
  }

  lemma ReadByKeeps(c: Cache, a: Word, b: nat, c': Cache)
    requires Inv(c) && ReadBy(c, a, b, c')
    ensures Inv(c') && Logical(c') == Logical(c) && a < |c.disk|
    ensures Holding(c', b) && c'.bufs[b].Names(ROOTDEV, a) && c'.bufs[b].data == Logical(c)[a]
    ensures c'.disk == c.disk && c'.touched == c.touched && c'.syncing == c.syncing && c'.order == c.order
    ensures forall i | 0 <= i < NBUF && i != b :: c'.bufs[i] == c.bufs[i]
    ensures b !in Busy(c) && Busy(c') == Busy(c) + {b} && Pins(c') == Pins(c)
  {
    var m :| Next(c, Step.Bget(a, b), m) && b < |m.bufs| && if m.bufs[b].valid then c' == m else Next(m, Sync(b), c');
    BgetKeeps(c, Step.Bget(a, b), m);
    StepBooks(c, Step.Bget(a, b), m);
    InBusy(c, b);
    assert GoodBuf(c, b, c.bufs[b]);
    assert b !in c.syncing;
    if !m.bufs[b].valid {
      SyncKeeps(m, Sync(b), c');
      StepBooks(m, Sync(b), c');
      NotPinned(m, b);
      assert c'.syncing == c.syncing;
    }
  }

  /** No block is pinned through two buffers. */
  lemma NotPinned(c: Cache, b: nat)
    requires Inv(c) && b < NBUF && b in c.syncing && !c.bufs[b].dirty
    ensures c.bufs[b].blockno !in Pins(c)
  {
    InPins(c, c.bufs[b].blockno);
  }

  lemma WrittenIs(c: Cache, b: nat, m: Cache, c': Cache)
    requires Next(c, Mark(b), m) && Next(m, Sync(b), c')
    ensures b < NBUF == |c.bufs| && c.bufs[b].blockno < |c.disk|
    ensures c' == c.(bufs := c.bufs[b := c.bufs[b].(dirty := false)],
                     disk := c.disk[c.bufs[b].blockno := c.bufs[b].data],
                     touched := c.touched - {b})
  {
    assert c'.syncing == c.syncing;
    assert c'.bufs == c.bufs[b := c.bufs[b].(dirty := false)];
  }

  lemma WrittenByKeeps(c: Cache, b: nat, c': Cache)
    requires Inv(c) && WrittenBy(c, b, c')
    ensures Inv(c') && Logical(c') == Logical(c) && b < NBUF && c.bufs[b].blockno < |c.disk|
    ensures c' == c.(bufs := c.bufs[b := c.bufs[b].(dirty := false)],
                     disk := c.disk[c.bufs[b].blockno := c.bufs[b].data],
                     touched := c.touched - {b})
    ensures Busy(c') == Busy(c) && Pins(c') == Pins(c) - {c.bufs[b].blockno}
  {
    var m :| Next(c, Mark(b), m) && Next(m, Sync(b), c');
    StepKeeps(c, Mark(b), m);
    StepBooks(c, Mark(b), m);
    SyncKeeps(m, Sync(b), c');
    StepBooks(m, Sync(b), c');
    WrittenIs(c, b, m, c');
  }

  datatype BgetResult = Buffer(b: nat) | WouldSleep | Panic

  class Bcache {
    var bufs: seq<Buf>
    var next: seq<nat>
    var prev: seq<nat>
    var disk: seq<Block>
    ghost var order: seq<nat>
    ghost var touched: set<nat>
    ghost var syncing: set<nat>
    ghost var base: seq<Block>     // the disk at boot
    ghost var writes: seq<Write>   // every block written to it since, in order
    ghost var logical: seq<Block>  // Logical, Busy and Pins of the state
    ghost var held: set<nat>
    ghost var pins: set<nat>

    ghost function State(): Cache
      reads this
    {
      Cache(bufs, order, disk, touched, syncing)
    }

    ghost predicate Unfolded(k: nat)
      reads this
    {
      && Inv(State())
      && Linked(next, prev, order)
      && logical == Logical(State()) && held == Busy(State()) && pins == Pins(State())
      && disk == Apply(base, writes)
    }

    /** The class invariant. It stays folded for clients: its quantifiers come
        into play only where `Unfolded` is mentioned. */
    ghost predicate Valid()
      reads this
    {
      && |bufs| == NBUF && |logical| == |disk| == |base|
      && forall k: nat {:trigger Unfolded(k)} :: Unfolded(k)
    }

    /** A step from a valid state leaves a valid state, once the ghost fields follow it. */
    lemma Fold(c: Cache, s: Step)
      requires Inv(c) && Next(c, s, State())
      requires Linked(next, prev, order) && disk == Apply(base, writes) && |base| == |c.disk|
      requires logical == LogicalAfter(c, s) && held == BusyAfter(c, s) && pins == PinsAfter(c, s)
      ensures Valid()
    {
      StepKeeps(c, s, State());
      StepBooks(c, s, State());
      assert forall k: nat :: Unfolded(k);
    }

    /** binit, on a machine whose disk holds `d`. */
    constructor (d: seq<Block>)
      ensures Valid() && disk == base == logical == d && touched == syncing == held == pins == {} && writes == []
      ensures forall b | 0 <= b < NBUF :: bufs[b] == Buf(false, false, false, NODEV, 0, bufs[b].data)
      ensures order == seq(NBUF, i requires 0 <= i < NBUF => NBUF - 1 - i)
    {
      disk, base, logical, touched, syncing, held, pins, writes := d, d, d, {}, {}, {}, {}, [];
      bufs := seq(NBUF, _ => Buf(false, false, false, NODEV, 0, ZERO_BLOCK));
      var nx: seq<nat>, pv: seq<nat> := seq(NBUF + 1, _ => HEAD), seq(NBUF + 1, _ => HEAD);
      ghost var ord: seq<nat> := [];
      for b: nat := 0 to NBUF
        invariant Linked(nx, pv, ord)
        invariant |ord| == b
        invariant forall i | 0 <= i < b :: ord[i] == b - 1 - i
      {
        LinkFront(nx, pv, ord, b);
        nx := nx[b := nx[HEAD]];
        pv := pv[b := HEAD];
        pv := pv[nx[HEAD] := b];
        nx := nx[HEAD := b];
        ord := [b] + ord;
      }
      next, prev, order := nx, pv, ord;
      forall b: nat | b < NBUF ensures b in ord {
        assert ord[NBUF - 1 - b] == b;
      }
      new;
      forall a | 0 <= a < |d| ensures LogicalAt(State(), a) == d[a] {
        LogicalUncached(State(), a);
      }
      forall a: nat ensures a !in Pins(State()) { InPins(State(), a); }
      forall b: nat ensures b !in Busy(State()) { InBusy(State(), b); }
    }

    /** bget's first loop, from the most recently used end. */
    method FindNamed(dev: Word, blockno: Word) returns (b: nat)
      requires Inv(State()) && Linked(next, prev, order)
      ensures b <= NBUF
      ensures b < NBUF ==> bufs[b].Names(dev, blockno)
      ensures b == HEAD ==> !Cached(State(), dev, blockno)
    {
      b := next[HEAD];
      ghost var k: nat := 0;
      assert Ring(order)[0] == HEAD && Ring(order)[1] == b;
      while b != HEAD
        invariant k <= NBUF && b == Ring(order)[k + 1] && b <= NBUF
        invariant forall q | 0 <= q < k :: !bufs[order[q]].Names(dev, blockno)
        decreases NBUF - k
      {
        assert b == order[k];
        if bufs[b].dev == dev && bufs[b].blockno == blockno {
          return;
        }
        b := next[b];
        k := k + 1;
      }
      forall i: nat | i < NBUF ensures !bufs[i].Names(dev, blockno) {
        assert i in order;
      }
    }

    /** bget's second loop, from the least recently used end. */
    method FindClean() returns (b: nat)
      requires Inv(State()) && Linked(next, prev, order)
      ensures b <= NBUF
      ensures b < NBUF ==> LeastRecent(State(), b)
      ensures b == HEAD ==> forall i | 0 <= i < NBUF :: !bufs[i].Clean()
    {
      b := prev[HEAD];
      ghost var k: nat := NBUF;
      assert Ring(order)[NBUF] == b && Ring(order)[NBUF + 1] == HEAD;
      while b != HEAD
        invariant k <= NBUF && b == Ring(order)[k] && b <= NBUF
        invariant forall q | k <= q < NBUF :: !bufs[order[q]].Clean()
        decreases k
      {
        assert b == order[k - 1];
        if !bufs[b].busy && !bufs[b].dirty {
          return;
        }
        b := prev[b];
        k := k - 1;
      }
      forall i: nat | i < NBUF ensures !bufs[i].Clean() {
        assert i in order;
      }
    }

    /** bget's choice of a buffer. */
    method Claim(dev: Word, blockno: Word) returns (r: BgetResult)
      requires Inv(State()) && Linked(next, prev, order)
      modifies this`bufs
      ensures r.Buffer? ==> Got(old(State()), dev, blockno, r.b, bufs)
      ensures !r.Buffer? ==> bufs == old(bufs)
      ensures dev != NODEV ==> (r.WouldSleep? <==>
                exists b :: 0 <= b < NBUF && old(bufs)[b].Names(dev, blockno) && old(bufs)[b].busy)
      ensures r.Panic? <==> !Cached(old(State()), dev, blockno) && !Roomy(old(State()))
    {
      var b := FindNamed(dev, blockno);
      if b != HEAD {
        if bufs[b].busy {
          return WouldSleep;
        }
        bufs := bufs[b := bufs[b].(busy := true)];
        return Buffer(b);
      }
      b := FindClean();
      if b == HEAD {
        return Panic;
      }
      bufs := bufs[b := Buf(true, false, false, dev, blockno, bufs[b].data)];
      return Buffer(b);
    }

    /** bget. For a block of the disk the state stays valid, and a buffer without the block is now
        its holder's to fill through iderw. */
    method Bget(dev: Word, blockno: Word) returns (r: BgetResult)
      requires Valid()
      modifies this`bufs, this`held, this`syncing
      ensures r.Buffer? ==> Got(old(State()), dev, blockno, r.b, bufs)
      ensures r.Buffer? && dev == ROOTDEV && blockno < |disk| ==>
        && Valid() && Next(old(State()), Step.Bget(blockno, r.b), State())
        && r.b !in old(held) && held == old(held) + {r.b}
      ensures !r.Buffer? ==> Valid() && State() == old(State()) && held == old(held)
      ensures dev != NODEV ==> (r.WouldSleep? <==>
                exists b :: 0 <= b < NBUF && old(bufs)[b].Names(dev, blockno) && old(bufs)[b].busy)
      ensures r.Panic? <==> !Cached(old(State()), dev, blockno) && !Roomy(old(State()))
    {
      assert Unfolded(0);
      r := Claim(dev, blockno);
      if r.Buffer? && dev == ROOTDEV && blockno < |disk| {
        InBusy(old(State()), r.b);
        syncing := if bufs[r.b].valid then syncing else syncing + {r.b};
        held := held + {r.b};
        Fold(old(State()), Step.Bget(blockno, r.b));
      }
    }

    /** memide.c's iderw: sync a buffer with the disk; false where it panics. */
    method Iderw(b: nat) returns (ok: bool)
      requires |bufs| == NBUF && b < NBUF
      modifies this`bufs, this`disk, this`syncing, this`writes
      ensures ok <==> && old(bufs[b].busy)
                      && !(old(bufs[b].valid) && !old(bufs[b].dirty))
                      && old(bufs[b].dev) == ROOTDEV
                      && old(bufs[b].blockno) < |old(disk)|
      ensures ok ==> State() == Synced(old(State()), b)
      ensures ok && old(bufs[b].dirty) ==> writes == old(writes) + [Write(old(bufs[b].blockno), old(bufs[b].data))]
      ensures !ok || !old(bufs[b].dirty) ==> writes == old(writes)
      ensures !ok ==> State() == old(State())
    {
      var buf := bufs[b];
      if !buf.busy || (buf.valid && !buf.dirty) || buf.dev != ROOTDEV || buf.blockno >= |disk| {
        return false;
      }
      if buf.dirty {
        buf := buf.(dirty := false);
        disk := disk[buf.blockno := buf.data];
        writes := writes + [Write(buf.blockno, buf.data)];
      } else {
        buf := buf.(data := disk[buf.blockno]);
      }
      bufs := bufs[b := buf.(valid := true)];
      syncing := syncing - {b};
      return true;
    }

    /** iderw for a holder that bget or bwrite has left waiting for it: it cannot panic. */
    method Transfer(b: nat)
      requires Valid() && b in syncing
      modifies this`bufs, this`disk, this`syncing, this`writes, this`pins
      ensures Valid() && Next(old(State()), Sync(b), State())
      ensures writes ==
        old(writes) + if old(bufs[b].dirty) then [Write(old(bufs[b].blockno), old(bufs[b].data))] else []
      ensures pins == old(pins) - {old(bufs[b].blockno)}
    {
      assert Unfolded(0);
      assert GoodBuf(State(), b, bufs[b]);
      if bufs[b].dirty { ApplySplit(base, writes, Write(bufs[b].blockno, bufs[b].data)); }
      pins := pins - {bufs[b].blockno};
      var ok := Iderw(b);
      Fold(old(State()), Sync(b));
    }

    /** bread when nothing else runs between its two steps. */
    method Bread(dev: Word, blockno: Word) returns (r: BgetResult)
      requires Valid()
      modifies this`bufs, this`disk, this`syncing, this`writes, this`held, this`pins
      ensures disk == old(disk) && writes == old(writes) && pins == old(pins)
      ensures r.Buffer? ==> Valid() && dev == ROOTDEV && ReadBy(old(State()), blockno, r.b, State())
      ensures r.Buffer? ==>
        && r.b !in old(held) && held == old(held) + {r.b} && syncing == old(syncing)
        && Holding(State(), r.b) && blockno < |logical| && bufs[r.b].data == logical[blockno]
      ensures dev != NODEV ==> (r.WouldSleep? <==>
                exists b :: 0 <= b < NBUF && old(bufs)[b].Names(dev, blockno) && old(bufs)[b].busy)
      ensures r.WouldSleep? ==> Valid() && State() == old(State()) && held == old(held)
      ensures r.Panic? <==>
        && !r.WouldSleep?
        && (|| dev != ROOTDEV || blockno >= |disk|
            || (!Cached(old(State()), dev, blockno) && !Roomy(old(State()))))
    {
      assert Unfolded(0);
      r := Bget(dev, blockno);
      if r.Buffer? {
        if dev != ROOTDEV || blockno >= |disk| {
          NoSuchBlock(old(State()), dev, blockno, r.b, bufs);
          var ok := Iderw(r.b);
          return Panic;
        }
        if !bufs[r.b].valid {
          assert Unfolded(0);
          NotPinned(State(), r.b);
          Transfer(r.b);
        }
        ReadByKeeps(old(State()), blockno, r.b, State());
      }
    }

    /** The holder of `b` changes its data. */
    method SetData(b: nat, data: Block)
      requires Valid() && Holding(State(), b)
      modifies this`bufs, this`touched, this`logical
      ensures Valid() && Next(old(State()), Modify(b, data), State())
      ensures old(bufs[b].blockno) < |old(logical)| && logical == old(logical)[old(bufs[b].blockno) := data]
    {
      assert Unfolded(0);
      bufs := bufs[b := bufs[b].(data := data)];
      touched := touched + {b};
      logical := logical[bufs[b].blockno := data];
      Fold(old(State()), Modify(b, data));
    }

    /** log_write's B_DIRTY: keep `b` in the cache until it is installed. */
    method Pin(b: nat)
      requires Valid() && Holding(State(), b)
      modifies this`bufs, this`touched, this`pins
      ensures Valid() && Next(old(State()), LogWrite(b), State())
      ensures pins == old(pins) + {bufs[b].blockno}
    {
      assert Unfolded(0);
      bufs := bufs[b := bufs[b].(dirty := true)];
      touched := touched - {b};
      pins := pins + {bufs[b].blockno as nat};
      Fold(old(State()), LogWrite(b));
    }

    /** bwrite up to its call of iderw; false where it panics. */
    method MarkDirty(b: nat) returns (ok: bool)
      requires Valid() && b < NBUF && b !in syncing
      modifies this`bufs, this`touched, this`syncing, this`pins
      ensures Valid() && ok == old(bufs[b].busy)
      ensures !ok ==> State() == old(State()) && pins == old(pins)
      ensures ok ==> Next(old(State()), Mark(b), State()) && pins == old(pins) + {bufs[b].blockno}
    {
      assert Unfolded(0);
      if !bufs[b].busy {
        return false;
      }
      bufs := bufs[b := bufs[b].(dirty := true)];
      touched, syncing := touched - {b}, syncing + {b};
      pins := pins + {bufs[b].blockno as nat};
      Fold(old(State()), Mark(b));
      return true;
    }

    /** bwrite when nothing else runs between its two steps. */
    method Bwrite(b: nat) returns (ok: bool)
      requires Valid() && b < NBUF && b !in syncing
      modifies this`bufs, this`disk, this`touched, this`syncing, this`writes, this`pins
      ensures Valid() && ok == old(bufs[b].busy)
      ensures !ok ==> State() == old(State()) && writes == old(writes) && pins == old(pins)
      ensures ok ==> WrittenBy(old(State()), b, State())
      ensures ok ==> writes == old(writes) + [Write(old(bufs[b].blockno), old(bufs[b].data))]
      ensures ok ==> pins == old(pins) - {old(bufs[b].blockno)}
    {
      ok := MarkDirty(b);
      if ok {
        Transfer(b);
      }
    }

    /** brelse's list surgery. */
    method Relink(b: nat)
      requires Linked(next, prev, order) && IsOrder(order) && b < NBUF
      modifies this`next, this`prev, this`order
      ensures Linked(next, prev, order) && IsOrder(order) && ToFront(old(order), b, order)
    {
      assert b in order;
      ghost var p :| 0 <= p < NBUF && order[p] == b;
      ghost var rest := order[..p] + order[p + 1..];
      Unlink(next, prev, order, p);
      prev := prev[next[b] := prev[b]];
      next := next[prev[b] := next[b]];
      LinkFront(next, prev, rest, b);
      next := next[b := next[HEAD]];
      prev := prev[b := HEAD];
      prev := prev[next[HEAD] := b];
      next := next[HEAD := b];
      order := [b] + order[..p] + order[p + 1..];
      assert order == [b] + rest;
      ToFrontIsOrder(old(order), b, order);
    }

    /** brelse; false where it panics. It keeps the cache transparent exactly if the holder has left no
        change of its own in a buffer that may be recycled. */
    method Brelse(b: nat) returns (ok: bool)
      requires Valid() && b < NBUF && b !in syncing
      modifies this`bufs, this`next, this`prev, this`order, this`held, this`touched
      ensures ok == old(bufs[b].busy)
      ensures !ok ==> Valid() && State() == old(State()) && held == old(held)
      ensures ok ==> (Valid() <==> Settled(old(State()), b))
      ensures ok ==>
        && bufs == old(bufs)[b := old(bufs)[b].(busy := false)] && ToFront(old(order), b, order)
        && held == old(held) - {b} && touched == old(touched) - {b}
      ensures ok && Settled(old(State()), b) ==> Next(old(State()), Step.Brelse(b), State())
    {
      assert Unfolded(0);
      if !bufs[b].busy {
        return false;
      }
      Relink(b);
      bufs := bufs[b := bufs[b].(busy := false)];
      held := held - {b};
      touched := touched - {b};
      if Settled(old(State()), b) {
        Fold(old(State()), Step.Brelse(b));
      } else {
        assert !Unfolded(0) by { assert !GoodBuf(State(), b, bufs[b]); }
      }
      return true;
    }
  }
}
