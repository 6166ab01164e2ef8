/** Group commit: any number of system calls update blocks in any interleaving, and whenever the last of
    them leaves, the updates of all are committed together. The calls are a run of module Reservation. */
module GroupCommit {
  import opened Params
  import opened Blocks
  import opened Bio
  import opened Crash
  import opened Log
  import Reservation
  import opened Schedule

  /** Where a run is: the number of steps of module Reservation, the disk, and the updates made since the
      last commit. */
  datatype Trace = Trace(steps: nat, d: Disk, us: seq<Write>)

  /** Disks that agree outside the log region still do after the same write. */
  lemma SameAfter(g: Geometry, d: Disk, us: seq<Write>, e: Disk, vs: seq<Write>, w: Write)
    requires SameOutside(g, Apply(d, us), Apply(e, vs)) && w.a < |d| == |e|
    ensures SameOutside(g, Apply(d, us + [w]), Apply(e, vs + [w]))
  {
    ApplySplit(d, us, w);
    ApplySplit(e, vs, w);
  }

  /** A run that began on disk `d0` has made the updates `done` and come to `tr`. Folded (see Bio.Bcache.Valid). */
  ghost predicate Along(g: Geometry, d0: Disk, done: seq<Write>, tr: Trace) {
    forall k: nat {:trigger AlongAt(g, d0, done, tr, k)} :: AlongAt(g, d0, done, tr, k)
  }

  ghost predicate AlongAt(g: Geometry, d0: Disk, done: seq<Write>, tr: Trace, k: nat) {
    |d0| == |tr.d| && SameOutside(g, Apply(tr.d, tr.us), Apply(d0, done))
  }

  /** The log's view `v` is reached in n steps, and no call is inside log_write. Folded. */
  ghost predicate Reached(size: nat, v: Reservation.State, n: nat) {
    forall k: nat {:trigger ReachedAt(size, v, n, k)} :: ReachedAt(size, v, n, k)
  }

  ghost predicate ReachedAt(size: nat, v: Reservation.State, n: nat, k: nat) {
    Reservation.Reach(size, v, n) && forall j | 0 <= j < |v.ops| :: !v.ops[j].checked
  }

  lemma AlongStart(g: Geometry, d0: Disk)
    ensures Along(g, d0, [], Trace(0, d0, []))
    ensures Reached(g.size, Reservation.INIT, 0)
  {
    var tr := Trace(0, d0, []);
    forall k: nat ensures ReachedAt(g.size, Reservation.INIT, 0, k) {}
    forall k: nat ensures AlongAt(g, d0, [], tr, k) {}
  }

  lemma AlongWait(g: Geometry, d0: Disk, done: seq<Write>, tr: Trace, n: nat)
    requires Along(g, d0, done, tr)
    ensures Along(g, d0, done, tr.(steps := n))
  {
    assert AlongAt(g, d0, done, tr, 0);
    var tr' := tr.(steps := n);
    forall k: nat ensures AlongAt(g, d0, done, tr', k) {}
  }

  lemma ReachedStep(size: nat, v: Reservation.State, n: nat, e: Reservation.Step, v': Reservation.State)
    requires Reached(size, v, n) && Reservation.Next(size, v, e, v') && (e.Begin? || e.End?)
    ensures Reached(size, v', n + 1)
  {
    assert ReachedAt(size, v, n, 0);
    var m := n + 1;
    forall k: nat ensures ReachedAt(size, v', m, k) {}
  }

  lemma ReachedStore(size: nat, v: Reservation.State, n: nat, i: nat, a: Word, v': Reservation.State)
    requires Reached(size, v, n) && Reservation.Logged(size, v, i, a, v')
    ensures Reached(size, v', n + 2)
    ensures Reservation.CanLog(v, i, a)
    ensures var op := Reservation.Op(Reservation.Left(v, i, a), false);
      v' == v.(lh := Reservation.Absorb(v.lh, a), ops := v.ops[i := op])
  {
    assert ReachedAt(size, v, n, 0);
    Reservation.LoggedReach(size, v, i, a, v', n);
    Reservation.LoggedOps(size, v, i, a, v');
    var m := n + 2;
    forall k: nat ensures ReachedAt(size, v', m, k) {}
  }

  lemma ReachedCommit(size: nat, v: Reservation.State, n: nat, i: nat, v': Reservation.State)
    requires Reached(size, v, n) && Reservation.Ended(size, v, i, v') && |v.ops| == 1
    ensures Reached(size, v', n + 2)
  {
    assert ReachedAt(size, v, n, 0);
    Reservation.EndedReach(size, v, i, v', n);
    Reservation.EndedInit(size, v, i, v');
    var m := n + 2;
    forall k: nat ensures ReachedAt(size, v', m, k) {}
  }

  lemma AlongStore(g: Geometry, d0: Disk, done: seq<Write>, tr: Trace, w: Write)
    requires Along(g, d0, done, tr) && w.a < |d0|
    ensures Along(g, d0, done + [w], tr.(steps := tr.steps + 2, us := tr.us + [w]))
  {
    assert AlongAt(g, d0, done, tr, 0);
    SameAfter(g, tr.d, tr.us, d0, done, w);
    var tr' := tr.(steps := tr.steps + 2, us := tr.us + [w]);
    var all := done + [w];
    forall k: nat ensures AlongAt(g, d0, all, tr', k) {}
  }

  lemma AlongCommit(g: Geometry, d0: Disk, done: seq<Write>, tr: Trace, d: Disk)
    requires Along(g, d0, done, tr) && SameOutside(g, d, Apply(tr.d, tr.us))
    ensures Along(g, d0, done, Trace(tr.steps + 2, d, []))
  {
    assert AlongAt(g, d0, done, tr, 0);
    SameTrans(g, d, Apply(tr.d, tr.us), Apply(d0, done));
    var tr' := Trace(tr.steps + 2, d, []);
    forall k: nat ensures AlongAt(g, d0, done, tr', k) {}
  }

  lemma SameTrans(g: Geometry, d: Disk, e: Disk, f: Disk)
    requires SameOutside(g, d, e) && SameOutside(g, e, f)
    ensures SameOutside(g, d, f) && Apply(d, []) == d
  {
  }

  /** A call that may log a block finds the log less than full, or the block in it. */
  lemma ReachedRoom(size: nat, v: Reservation.State, n: nat, i: nat)
    requires Reached(size, v, n) && i < |v.ops|
    ensures !v.ops[i].checked && (v.ops[i].left > 0 ==> |v.lh| < LOGSIZE)
  {
    assert ReachedAt(size, v, n, 0);
    Reservation.Reserved(size, v, n);
    Reservation.AllowanceAt(v.ops, i, v.ops[i]);
  }

  /** The blocks written are those of a commit of the updates so far, of the blocks `lh`. */
  ghost predicate CommitsBy(g: Geometry, tr: Trace, lh: seq<Word>, ws0: seq<Write>, ws: seq<Write>, d: Disk) {
    var l := Apply(tr.d, tr.us);
    && AllOrNothing(tr.d, l, g, lh)
    && ws == ws0 + CommitWrites(tr.d, l, g, lh) && d == Apply(tr.d, CommitWrites(tr.d, l, g, lh))
  }

  ghost predicate Commits(g: Geometry, tr: Trace, ws0: seq<Write>, ws: seq<Write>, d: Disk) {
    exists lh :: CommitsBy(g, tr, lh, ws0, ws, d)
  }

  ghost predicate Running(log: Log, d0: Disk, done: seq<Write>, tr: Trace)
    reads log, log.cache
  {
    log.Batch(tr.d, tr.us) && |tr.d| == |d0| && Along(log.g, d0, done, tr) && Reached(log.g.size, log.View(), tr.steps)
  }

  method JoinIn(log: Log, ghost d0: Disk, ghost done: seq<Write>, ghost tr: Trace)
    returns (r: Outcome, ghost tr': Trace)
    requires Running(log, d0, done, tr)
    modifies log`outstanding, log`ops
    ensures !r.Broke? && Running(log, d0, done, tr')
    ensures r.Sleeps? <==> Delays(old(log.View()), Join)
    ensures log.View() == if r.Went? then After(old(log.View()), Join) else old(log.View())
    ensures tr'.d == tr.d && tr'.us == tr.us
  {
    ghost var v := log.View();
    var started := log.Enter(tr.d, tr.us);
    assert !started ==> !Reservation.Next(log.g.size, v, Reservation.Begin, After(v, Join));
    tr' := tr;
    if started {
      ReachedStep(log.g.size, v, tr.steps, Reservation.Begin, log.View());
      AlongWait(log.g, d0, done, tr, tr.steps + 1);
      tr' := tr.(steps := tr.steps + 1);
    }
    r := if started then Went else Sleeps;
  }

  method StoreOne(log: Log, ghost i: nat, w: Write, ghost d0: Disk, ghost done: seq<Write>, ghost tr: Trace)
    returns (r: Outcome, ghost tr': Trace)
    requires Running(log, d0, done, tr) && Fits(log.View(), Store(i, w)) && w.a < |d0| && !log.g.InLog(w.a)
    modifies log`lh, log`ops, log.cache
    ensures r.Went? ==> Running(log, d0, done + [w], tr') && log.View() == After(old(log.View()), Store(i, w))
    ensures log.cache.writes == old(log.cache.writes) && tr'.d == tr.d
    ensures r.Sleeps? <==> HeldIn(old(log.cache.bufs), log.readers, w.a)
    ensures r.Sleeps? ==> Running(log, d0, done, tr') && log.View() == old(log.View())
    ensures log.readers == {} ==> (r.Broke? <==> Breaks(log.g.size, old(log.View()), Store(i, w)))
  {
    ghost var v := log.View();
    ReachedRoom(log.g.size, v, tr.steps, i);
    var u := log.Put(i, w, tr.d, tr.us);
    tr' := tr;
    if u.Updated? {
      ReachedStore(log.g.size, v, tr.steps, i, w.a, log.View());
      AlongStore(log.g, d0, done, tr, w);
      tr' := tr.(steps := tr.steps + 2, us := tr.us + [w]);
    }
    r := if u.Updated? then Went else if u.Waits? then Sleeps else Broke;
  }

  method QuitOne(log: Log, ghost i: nat, ghost d0: Disk, ghost done: seq<Write>, ghost tr: Trace)
    returns (r: Outcome, ghost tr': Trace)
    requires Running(log, d0, done, tr) && Fits(log.View(), Quit(i))
    modifies log`lh, log`outstanding, log`committing, log`ops, log.cache
    ensures !r.Sleeps? && (|old(log.ops)| > 1 ==> r.Went? && log.lh == old(log.lh) && tr'.d == tr.d)
    ensures log.outstanding == old(log.outstanding) - 1
    ensures r.Broke? || |old(log.ops)| > 1 ==>
      && log.cache.writes == old(log.cache.writes) && log.cache.logical == old(log.cache.logical)
      && log.lh == old(log.lh)
    ensures r.Went? && |old(log.ops)| == 1 ==> Commits(log.g, tr, old(log.cache.writes), log.cache.writes, tr'.d)
    ensures r.Went? ==> Running(log, d0, done, tr') && log.View() == After(old(log.View()), Quit(i))
    ensures log.readers == {} ==> (r.Broke? <==> Breaks(log.g.size, old(log.View()), Quit(i)))
  {
    ghost var v := log.View();
    ReachedRoom(log.g.size, v, tr.steps, i);
    var ok := log.Leave(i, tr.d, tr.us);
    r := if ok then Went else Broke;
    tr' := tr;
    if ok && |v.ops| > 1 {
      ReachedStep(log.g.size, v, tr.steps, Reservation.End(i), log.View());
      AlongWait(log.g, d0, done, tr, tr.steps + 1);
      tr' := tr.(steps := tr.steps + 1);
    } else if ok {
      ReachedCommit(log.g.size, v, tr.steps, i, log.View());
      AlongCommit(log.g, d0, done, tr, log.cache.disk);
      tr' := Trace(tr.steps + 2, log.cache.disk, []);
      assert CommitsBy(log.g, tr, v.lh, old(log.cache.writes), log.cache.writes, tr'.d);
    }
  }

  /** One action. With no readers it is known beforehand whether it sleeps or panics. */
  method Act(log: Log, a: Action, ghost d0: Disk, ghost done: seq<Write>, ghost tr: Trace)
    returns (r: Outcome, ghost tr': Trace)
    requires Running(log, d0, done, tr) && Fits(log.View(), a) && (a.Store? ==> a.w.a < |d0| && !log.g.InLog(a.w.a))
    modifies log`lh, log`outstanding, log`committing, log`ops, log.cache
    ensures r.Went? ==> Running(log, d0, done + Made(a), tr') && log.View() == After(old(log.View()), a)
    ensures r.Sleeps? ==> Running(log, d0, done, tr') && log.View() == old(log.View())
    ensures !(r.Went? && Last(old(log.View()), a)) ==> log.cache.writes == old(log.cache.writes)
    ensures r.Sleeps? || (r.Went? && !Last(old(log.View()), a)) ==> tr'.d == tr.d
    ensures r.Went? && Last(old(log.View()), a) ==>
      Commits(log.g, tr, old(log.cache.writes), log.cache.writes, tr'.d)
    ensures log.readers == {} ==>
      (r.Sleeps? <==> Delays(old(log.View()), a)) && (r.Broke? <==> Breaks(log.g.size, old(log.View()), a))
  {
    match a
    case Join =>
      assert done + [] == done;
      r, tr' := JoinIn(log, d0, done, tr);
    case Store(i, w) =>
      r, tr' := StoreOne(log, i, w, d0, done, tr);
    case Quit(i) =>
      assert done + [] == done;
      r, tr' := QuitOne(log, i, d0, done, tr);
  }

  ghost predicate GoingAt(log: Log, d0: Disk, ws0: seq<Write>, acts: seq<Action>, n: nat, tr: Trace, h: History, k: nat)
    reads log, log.cache
  {
    && n <= |acts| && Running(log, d0, Updates(acts[..n]), tr) && log.View() == AfterAll(acts[..n])
    && tr.d == Apply(d0, h.ws) && Written(log, d0, ws0, acts, n, h)
    && (log.readers == {} ==> forall k: nat | k < n :: GoesAt(log.g.size, acts, k))
  }

  /** The first `n` actions have gone through. Folded (see Bio.Bcache.Valid). */
  ghost predicate Going(log: Log, d0: Disk, ws0: seq<Write>, acts: seq<Action>, n: nat, tr: Trace, h: History)
    reads log, log.cache
  {
    forall k: nat {:trigger GoingAt(log, d0, ws0, acts, n, tr, h, k)} :: GoingAt(log, d0, ws0, acts, n, tr, h, k)
  }

  /** The disk has received the blocks of history `h`, after those of `ws0`, and it is durable. */
  ghost predicate Written(log: Log, d0: Disk, ws0: seq<Write>, acts: seq<Action>, n: nat, h: History)
    reads log, log.cache
  {
    log.cache.writes == ws0 + h.ws && Durable(log.g, d0, acts, n, h)
  }

  lemma CommitWritten(g: Geometry, d0: Disk, ws0: seq<Write>, acts: seq<Action>, n: nat, tr: Trace, h: History,
                      ws: seq<Write>, d: Disk) returns (h': History)
    requires Durable(g, d0, acts, n, h) && n < |acts| && FitsAt(acts, n) && tr.d == Apply(d0, h.ws)
    requires 0 < g.size && g.start + g.size <= |tr.d| && HeaderCount(tr.d[g.start]) == 0
    requires Along(g, d0, Updates(acts[..n]), tr) && Last(AfterAll(acts[..n]), acts[n])
    requires Commits(g, tr, ws0 + h.ws, ws, d)
    ensures Durable(g, d0, acts, n + 1, h') && ws == ws0 + h'.ws && d == Apply(d0, h'.ws)
  {
    var lh :| CommitsBy(g, tr, lh, ws0 + h.ws, ws, d);
    assert AlongAt(g, d0, Updates(acts[..n]), tr, 0);
    var l := Apply(tr.d, tr.us);
    var cw := CommitWrites(tr.d, l, g, lh);
    DurableCommit(g, d0, acts, n, h, tr.d, l, lh);
    h' := Longer(h, cw);
    Assoc(ws0, h.ws, cw);
  }

  lemma Assoc(a: seq<Write>, b: seq<Write>, c: seq<Write>)
    ensures a + b + c == a + (b + c)
  {
  }

  /** The history goes on with what action n wrote. */
  lemma NextWritten(g: Geometry, d0: Disk, ws0: seq<Write>, acts: seq<Action>, n: nat, tr: Trace, h: History,
                    ws: seq<Write>, d: Disk) returns (h': History)
    requires Durable(g, d0, acts, n, h) && n < |acts| && FitsAt(acts, n) && tr.d == Apply(d0, h.ws)
    requires 0 < g.size && g.start + g.size <= |tr.d| && HeaderCount(tr.d[g.start]) == 0
    requires Along(g, d0, Updates(acts[..n]), tr)
    requires if Last(AfterAll(acts[..n]), acts[n]) then Commits(g, tr, ws0 + h.ws, ws, d)
             else ws == ws0 + h.ws && d == tr.d
    ensures Durable(g, d0, acts, n + 1, h') && ws == ws0 + h'.ws && d == Apply(d0, h'.ws)
  {
    if Last(AfterAll(acts[..n]), acts[n]) {
      h' := CommitWritten(g, d0, ws0, acts, n, tr, h, ws, d);
    } else {
      DurableWait(g, d0, acts, n, h);
      h' := Longer(h, []);
      assert h'.ws == h.ws;
    }
  }

  lemma EmptyLogOnDisk(log: Log, d0: Disk, done: seq<Write>, tr: Trace)
    requires Running(log, d0, done, tr)
    ensures 0 < log.g.size && log.g.start + log.g.size <= |tr.d| && HeaderCount(tr.d[log.g.start]) == 0
  {
    assert log.Folded(0);
  }

  /** The n-th action of a run. */
  method Turn(log: Log, a: Action, ghost acts: seq<Action>, ghost n: nat, ghost d0: Disk, ghost ws0: seq<Write>,
              ghost tr: Trace, ghost h: History)
    returns (r: Outcome, ghost tr': Trace, ghost h': History)
    requires n < |acts| && acts[n] == a && FitsAt(acts, n) && Going(log, d0, ws0, acts, n, tr, h)
    requires a.Store? ==> a.w.a < |d0| && !log.g.InLog(a.w.a)
    modifies log`lh, log`outstanding, log`committing, log`ops, log.cache
    ensures r.Went? ==> Going(log, d0, ws0, acts, n + 1, tr', h')
    ensures r.Sleeps? ==> Going(log, d0, ws0, acts, n, tr', h')
    ensures r.Broke? ==> Written(log, d0, ws0, acts, n, h')
    ensures log.readers == {} ==> forall k: nat | k < n :: GoesAt(log.g.size, acts, k)
    ensures log.readers == {} ==> (r.Sleeps? <==> DelaysAt(acts, n)) && (r.Broke? <==> BreaksAt(log.g.size, acts, n))
  {
    assert GoingAt(log, d0, ws0, acts, n, tr, h, 0);
    EmptyLogOnDisk(log, d0, Updates(acts[..n]), tr);
    UpdatesNext(acts, n);
    AfterNext(acts, n);
    r, tr' := Act(log, a, d0, Updates(acts[..n]), tr);
    h' := h;
    if r.Went? {
      h' := NextWritten(log.g, d0, ws0, acts, n, tr, h, log.cache.writes, tr'.d);
      assert log.readers == {} ==> GoesAt(log.g.size, acts, n);
      GoesOn(log, d0, ws0, acts, n + 1, tr', h');
    } else if r.Sleeps? {
      GoesOn(log, d0, ws0, acts, n, tr', h);
    }
  }

  lemma GoesOn(log: Log, d0: Disk, ws0: seq<Write>, acts: seq<Action>, n: nat, tr: Trace, h: History)
    requires n <= |acts| && Running(log, d0, Updates(acts[..n]), tr) && log.View() == AfterAll(acts[..n])
    requires tr.d == Apply(d0, h.ws) && Written(log, d0, ws0, acts, n, h)
    requires log.readers == {} ==> forall k: nat | k < n :: GoesAt(log.g.size, acts, k)
    ensures Going(log, d0, ws0, acts, n, tr, h)
  {
    forall k: nat ensures GoingAt(log, d0, ws0, acts, n, tr, h, k) {}
  }

  lemma IsWritten(log: Log, d0: Disk, ws0: seq<Write>, acts: seq<Action>, n: nat, tr: Trace, h: History)
    requires Going(log, d0, ws0, acts, n, tr, h)
    ensures Written(log, d0, ws0, acts, n, h)
  {
    assert GoingAt(log, d0, ws0, acts, n, tr, h, 0);
  }

  /** A schedule after which no call is running leaves the log as at the start, and its updates on the disk. */
  lemma AllDone(log: Log, d0: Disk, ws0: seq<Write>, acts: seq<Action>, tr: Trace, h: History)
    requires Going(log, d0, ws0, acts, |acts|, tr, h) && AfterAll(acts).ops == []
    ensures log.Ready() && log.View() == Reservation.INIT && log.outstanding == 0
    ensures SameOutside(log.g, log.cache.disk, Apply(d0, Updates(acts)))
  {
    assert GoingAt(log, d0, ws0, acts, |acts|, tr, h, 0) && acts[..|acts|] == acts;
    assert log.Folded(0);
    AllOnDisk(log, d0, Updates(acts), tr);
  }

  lemma GoingMore(log: Log, d0: Disk, ws0: seq<Write>, acts: seq<Action>, a: Action, tr: Trace, h: History)
    requires Going(log, d0, ws0, acts, |acts|, tr, h)
    ensures Going(log, d0, ws0, acts + [a], |acts|, tr, h)
  {
    assert GoingAt(log, d0, ws0, acts, |acts|, tr, h, 0);
    var acts' := acts + [a];
    assert acts[..|acts|] == acts'[..|acts|];
    DurableMore(log.g, d0, acts, a, h);
    forall k: nat | k < |acts| ensures GoesAt(log.g.size, acts', k) == GoesAt(log.g.size, acts, k) {
      assert acts'[..k] == acts[..k] && acts'[k] == acts[k];
    }
    GoesOn(log, d0, ws0, acts', |acts|, tr, h);
  }

  /** One more action at the end of a schedule. */
  method Step(log: Log, ghost acts: seq<Action>, a: Action, ghost d0: Disk, ghost ws0: seq<Write>, ghost tr: Trace,
              ghost h: History)
    returns (r: Outcome, ghost tr': Trace, ghost h': History)
    requires Going(log, d0, ws0, acts, |acts|, tr, h) && Fits(AfterAll(acts), a)
    requires a.Store? ==> a.w.a < |d0| && !log.g.InLog(a.w.a)
    modifies log`lh, log`outstanding, log`committing, log`ops, log.cache
    ensures r.Went? ==> Going(log, d0, ws0, acts + [a], |acts| + 1, tr', h')
    ensures !r.Went? ==> Written(log, d0, ws0, acts + [a], |acts|, h')
    ensures log.readers == {} ==>
      (r.Sleeps? <==> Delays(AfterAll(acts), a)) && (r.Broke? <==> Breaks(log.g.size, AfterAll(acts), a))
  {
    ghost var acts' := acts + [a];
    GoingMore(log, d0, ws0, acts, a, tr, h);
    assert acts'[..|acts|] == acts;
    r, tr', h' := Turn(log, a, acts', |acts|, d0, ws0, tr, h);
    if r.Sleeps? { assert GoingAt(log, d0, ws0, acts', |acts|, tr', h', 0); }
  }

  /** Any number of calls, their updates interleaved in any order, with a commit whenever the last of them
      leaves. The first `n` actions go through; with no readers the next one is the first that must sleep
      or panic. Even then, what has been written to the disk is durable: see Schedule.PowerFails. */
  method Run(log: Log, acts: seq<Action>) returns (n: nat, r: Outcome, ghost tr: Trace, ghost h: History)
    requires log.Ready() && log.View() == Reservation.INIT && log.outstanding == 0
    requires forall k: nat :: FitsAt(acts, k)
    requires forall a | a in acts && a.Store? :: a.w.a < |log.cache.disk| && !log.g.InLog(a.w.a)
    modifies log`lh, log`outstanding, log`committing, log`ops, log.cache
    ensures n <= |acts| && (r.Went? <==> n == |acts|)
    ensures Written(log, old(log.cache.disk), old(log.cache.writes), acts, n, h)
    ensures !r.Broke? ==> Running(log, old(log.cache.disk), Updates(acts[..n]), tr) && log.View() == AfterAll(acts[..n])
    ensures log.readers == {} ==> forall k: nat | k < n :: GoesAt(log.g.size, acts, k)
    ensures log.readers == {} ==> (r.Sleeps? <==> DelaysAt(acts, n)) && (r.Broke? <==> BreaksAt(log.g.size, acts, n))
  {
    ghost var d0, ws0 := log.cache.disk, log.cache.writes;
    tr, h := Begun(log, acts);
    n, r := 0, Went;
    while n < |acts|
      invariant n <= |acts| && r.Went? && Going(log, d0, ws0, acts, n, tr, h)
    {
      assert acts[n] in acts;
      r, tr, h := Turn(log, acts[n], acts, n, d0, ws0, tr, h);
      if !r.Went? {
        break;
      }
      n := n + 1;
    }
    if !r.Broke? { assert GoingAt(log, d0, ws0, acts, n, tr, h, 0); }
  }

  lemma Begun(log: Log, acts: seq<Action>) returns (tr: Trace, h: History)
    requires log.Ready() && log.View() == Reservation.INIT && log.outstanding == 0
    ensures Going(log, log.cache.disk, log.cache.writes, acts, 0, tr, h)
  {
    var d0, ws0 := log.cache.disk, log.cache.writes;
    tr := Start(log);
    EmptyLogOnDisk(log, d0, [], tr);
    h := History([], [0]);
    DurableStart(log.g, d0, acts);
    assert acts[..0] == [] && ws0 + [] == ws0;
    GoesOn(log, d0, ws0, acts, 0, tr, h);
  }

  lemma Start(log: Log) returns (tr: Trace)
    requires log.Ready() && log.View() == Reservation.INIT && log.outstanding == 0
    ensures Running(log, log.cache.disk, [], tr) && tr.d == log.cache.disk
  {
    var d := log.cache.disk;
    tr := Trace(0, d, []);
    AlongStart(log.g, d);
    log.FirstBatch();
  }

  /** Once no call is left running, every update made is on the disk. */
  lemma AllOnDisk(log: Log, d0: Disk, done: seq<Write>, tr: Trace)
    requires Running(log, d0, done, tr) && log.outstanding == 0
    ensures SameOutside(log.g, log.cache.disk, Apply(d0, done))
  {
    assert AlongAt(log.g, d0, done, tr, 0);
    assert log.Folded(0);
    log.LogIsOnDisk();
  }

  // ---------- a run to the panic in bget ----------

  method FillUp(log: Log, us: seq<Write>, ghost d0: Disk, ghost tr0: Trace) returns (ghost tr: Trace)
    requires Running(log, d0, [], tr0) && log.View() == Reservation.Busy(0) && log.readers == {} && log.g.size > LOGSIZE
    requires |us| == LOGSIZE && forall w | w in us :: w.a < |d0| && !log.g.InLog(w.a)
    requires forall j, k | 0 <= j < k < |us| :: us[j].a != us[k].a
    modifies log`lh, log`ops, log.cache
    ensures Running(log, d0, us, tr) && |log.lh| == LOGSIZE && |log.ops| == 3
    ensures log.cache.writes == old(log.cache.writes) && forall j | 0 <= j < LOGSIZE :: log.lh[j] == us[j].a
  {
    tr := tr0;
    for k := 0 to LOGSIZE
      invariant Running(log, d0, us[..k], tr) && log.ops == Reservation.Busy(k).ops && !log.committing
      invariant |log.lh| == k && forall j | 0 <= j < k :: log.lh[j] == us[j].a
      invariant log.cache.writes == old(log.cache.writes)
    {
      assert us[k] in us;
      assert us[..k + 1] == us[..k] + [us[k]];
      var r;
      r, tr := StoreOne(log, Reservation.Turn(k), us[k], d0, us[..k], tr);
    }
    assert us[..LOGSIZE] == us;
  }

  method ThreeCalls(log: Log, ghost d0: Disk) returns (ghost tr: Trace)
    requires log.Ready() && log.View() == Reservation.INIT && log.outstanding == 0 && d0 == log.cache.disk
    modifies log`outstanding, log`ops
    ensures Running(log, d0, [], tr) && log.View() == Reservation.Busy(0)
  {
    tr := Start(log);
    var r;
    r, tr := JoinIn(log, d0, [], tr);
    r, tr := JoinIn(log, d0, [], tr);
    r, tr := JoinIn(log, d0, [], tr);
    assert !log.committing && log.lh == [];
  }

  /** Three calls of ten updates each fill a log region that is large enough for them, and pin every
      buffer: the last end_op finds none for its commit. */
  method FullLog(log: Log, us: seq<Write>) returns (r: Outcome)
    requires log.Ready() && log.View() == Reservation.INIT && log.outstanding == 0
    requires log.readers == {} && log.g.size > LOGSIZE
    requires |us| == LOGSIZE && forall w | w in us :: w.a < |log.cache.disk| && !log.g.InLog(w.a)
    requires forall j, k | 0 <= j < k < |us| :: us[j].a != us[k].a
    modifies log`lh, log`outstanding, log`committing, log`ops, log.cache
    ensures r.Broke? && log.outstanding == 0 && log.cache.writes == old(log.cache.writes)
    ensures |log.lh| == LOGSIZE && forall j | 0 <= j < LOGSIZE :: log.lh[j] == us[j].a
  {
    ghost var d0 := log.cache.disk;
    ghost var tr := ThreeCalls(log, d0);
    tr := FillUp(log, us, d0, tr);
    r, tr := QuitOne(log, 0, d0, us, tr);
    r, tr := QuitOne(log, 0, d0, us, tr);
    r := LastQuits(log, d0, us, tr);
  }

  method LastQuits(log: Log, ghost d0: Disk, ghost us: seq<Write>, ghost tr: Trace) returns (r: Outcome)
    requires Running(log, d0, us, tr) && |log.ops| == 1 && |log.lh| == LOGSIZE && log.readers == {}
    modifies log`lh, log`outstanding, log`committing, log`ops, log.cache
    ensures r.Broke? && log.outstanding == 0 && log.lh == old(log.lh)
    ensures log.cache.writes == old(log.cache.writes)
  {
    ReachedRoom(log.g.size, log.View(), tr.steps, 0);
    assert log.outstanding == |log.ops|;
    ghost var tr';
    r, tr' := QuitOne(log, 0, d0, us, tr);
  }
}
