/** Schedules of system calls that share the log, by their effect on its state in module Reservation, and
    what a power loss may leave of them. */
module Schedule {
  import opened Params
  import opened Blocks
  import opened Bio
  import opened Crash
  import Log
  import Reservation

  /** What a process does next: begin_op, an update by call `i`, or its end_op. */
  datatype Action = Join | Store(i: nat, w: Write) | Quit(i: nat)

  datatype Outcome = Went | Sleeps | Broke   // Broke is a panic

  /** The action is one of a running call that keeps to its allowance. */
  ghost predicate Fits(v: Reservation.State, a: Action) {
    match a
    case Join => true
    case Store(i, w) => w.a < 0x1_0000_0000 && Reservation.MayLog(v, i, w.a)
    case Quit(i) => i < |v.ops|
  }

  /** The log after it, with the commit if the last call left. */
  ghost function After(v: Reservation.State, a: Action): Reservation.State {
    if !Fits(v, a) then v else
    match a
    case Join => v.(ops := v.ops + [Reservation.Op(Reservation.MAXOPBLOCKS, false)])
    case Store(i, w) =>
      v.(lh := Reservation.Absorb(v.lh, w.a), ops := v.ops[i := Reservation.Op(Reservation.Left(v, i, w.a), false)])
    case Quit(i) => if |v.ops| == 1 then Reservation.INIT else v.(ops := Reservation.Without(v.ops, i))
  }

  ghost function AfterAll(acts: seq<Action>): Reservation.State {
    if acts == [] then Reservation.INIT else After(AfterAll(acts[..|acts| - 1]), acts[|acts| - 1])
  }

  lemma AfterNext(acts: seq<Action>, n: nat)
    requires n < |acts|
    ensures AfterAll(acts[..n + 1]) == After(AfterAll(acts[..n]), acts[n])
  {
    assert acts[..n + 1][..n] == acts[..n];
  }

  /** begin_op sleeps, if nobody reads meanwhile. */
  ghost predicate Delays(v: Reservation.State, a: Action) {
    a.Join? && |v.lh| + (|v.ops| + 1) * Reservation.MAXOPBLOCKS > LOGSIZE
  }

  /** Action k fits, in the state that the ones before it lead to. */
  ghost predicate FitsAt(acts: seq<Action>, k: nat) {
    k < |acts| ==> Fits(AfterAll(acts[..k]), acts[k])
  }

  ghost predicate DelaysAt(acts: seq<Action>, k: nat) {
    k < |acts| && Delays(AfterAll(acts[..k]), acts[k])
  }

  ghost predicate BreaksAt(size: nat, acts: seq<Action>, k: nat) {
    k < |acts| && Breaks(size, AfterAll(acts[..k]), acts[k])
  }

  /** It neither sleeps nor panics. */
  ghost predicate GoesAt(size: nat, acts: seq<Action>, k: nat) {
    !DelaysAt(acts, k) && !BreaksAt(size, acts, k)
  }

  /** The kernel panics: in log_write, or in the commit of the last end_op. */
  ghost predicate Breaks(size: nat, v: Reservation.State, a: Action) {
    match a
    case Join => false
    case Store(i, _) => Reservation.Refused(size, v, i)
    case Quit(i) => Reservation.Starves(NBUF, v, i)
  }

  function Made(a: Action): seq<Write> {
    if a.Store? then [a.w] else []
  }

  /** The updates among some actions, in their order. */
  function Updates(acts: seq<Action>): seq<Write> {
    if acts == [] then [] else Updates(acts[..|acts| - 1]) + Made(acts[|acts| - 1])
  }

  lemma UpdatesNext(acts: seq<Action>, n: nat)
    requires n < |acts|
    ensures Updates(acts[..n + 1]) == Updates(acts[..n]) + Made(acts[n])
  {
    assert acts[..n + 1][..n] == acts[..n];
  }

  // ---------- whole batches ----------

  /** The last of the running calls leaves, and commits. */
  ghost predicate Last(v: Reservation.State, a: Action) {
    a.Quit? && |v.ops| == 1
  }

  /** The number of actions, of the first `k`, after which for the last time no call was running. */
  ghost function Rest(acts: seq<Action>, k: nat): (m: nat)
    requires k <= |acts|
    ensures m <= k && AfterAll(acts[..m]).ops == []
  {
    if k == 0 || AfterAll(acts[..k]).ops == [] then k else Rest(acts, k - 1)
  }

  lemma {:induction false} RestIsLast(acts: seq<Action>, k: nat, q: nat)
    requires q <= k <= |acts| && AfterAll(acts[..q]).ops == []
    ensures q <= Rest(acts, k)
  {
    if q < k { RestIsLast(acts, k - 1, q); }
  }

  lemma RestNext(acts: seq<Action>, n: nat)
    requires n < |acts| && FitsAt(acts, n)
    ensures Rest(acts, n + 1) == if Last(AfterAll(acts[..n]), acts[n]) then n + 1 else Rest(acts, n)
  {
    AfterNext(acts, n);
  }

  /** The updates of whole batches among the first `k` actions, and nothing else, on the disk `d0`. */
  ghost function Home(d0: Disk, acts: seq<Action>, k: nat): (d: Disk)
    requires k <= |acts|
    ensures |d| == |d0|
  {
    Apply(d0, Updates(acts[..Rest(acts, k)]))
  }

  lemma HomeNext(d0: Disk, acts: seq<Action>, n: nat)
    requires n < |acts| && FitsAt(acts, n) && Last(AfterAll(acts[..n]), acts[n])
    ensures Home(d0, acts, n + 1) == Apply(d0, Updates(acts[..n]))
  {
    RestNext(acts, n);
    UpdatesNext(acts, n);
    assert Updates(acts[..n]) + [] == Updates(acts[..n]);
  }

  /** The blocks written so far, in order, and how many of them after each action. */
  datatype History = History(ws: seq<Write>, at: seq<nat>)

  /** If the power fails between actions k - 1 and k, the disk recovers to the whole batches so far. */
  ghost predicate KeptAt(g: Geometry, d0: Disk, acts: seq<Action>, h: History, k: nat) {
    k < |h.at| && k <= |acts| ==>
      && (k > 0 ==> h.at[k - 1] <= h.at[k]) && h.at[k] <= |h.ws|
      && Holds(Apply(d0, h.ws[..h.at[k]]), g, Home(d0, acts, k))
  }

  /** If it fails in action k, after `p` writes in all, the disk recovers to the whole batches before it or
      after it. */
  ghost predicate TornAt(g: Geometry, d0: Disk, acts: seq<Action>, h: History, k: nat, p: nat) {
    k + 1 < |h.at| && k < |acts| && h.at[k] <= p <= h.at[k + 1] && p <= |h.ws| ==>
      Holds(Apply(d0, h.ws[..p]), g, Home(d0, acts, k)) || Holds(Apply(d0, h.ws[..p]), g, Home(d0, acts, k + 1))
  }

  /** At every moment of the first `n` actions a power loss leaves whole batches. */
  ghost predicate Durable(g: Geometry, d0: Disk, acts: seq<Action>, n: nat, h: History) {
    && n <= |acts| && |h.at| == n + 1 && h.at[0] == 0 && h.at[n] == |h.ws|
    && (forall k: nat {:trigger KeptAt(g, d0, acts, h, k)} :: KeptAt(g, d0, acts, h, k))
    && (forall k: nat, p: nat {:trigger TornAt(g, d0, acts, h, k, p)} :: TornAt(g, d0, acts, h, k, p))
  }

  lemma HoldsSame(d: Disk, g: Geometry, home: Disk, home': Disk)
    requires Holds(d, g, home) && Log.SameOutside(g, home, home')
    ensures Holds(d, g, home')
  {
  }

  lemma DurableStart(g: Geometry, d0: Disk, acts: seq<Action>)
    requires 0 < g.size && g.start + g.size <= |d0| && HeaderCount(d0[g.start]) == 0
    ensures Durable(g, d0, acts, 0, History([], [0]))
  {
    EmptyLog(d0, g);
    var h := History([], [0]);
    assert Updates(acts[..0]) == [] && h.ws[..0] == [];
    forall k: nat ensures KeptAt(g, d0, acts, h, k) {}
  }

  /** Action n writes the blocks `more`. */
  ghost function Longer(h: History, more: seq<Write>): History {
    History(h.ws + more, h.at + [|h.ws| + |more|])
  }

  /** What is written later changes nothing about earlier moments. */
  lemma Earlier(g: Geometry, d0: Disk, acts: seq<Action>, n: nat, h: History, more: seq<Write>, k: nat, p: nat)
    requires Durable(g, d0, acts, n, h) && n < |acts| && k <= n && p <= |h.ws|
    ensures var h' := Longer(h, more);
      KeptAt(g, d0, acts, h', k) && (k < n ==> TornAt(g, d0, acts, h', k, p))
  {
    assert KeptAt(g, d0, acts, h, k) && TornAt(g, d0, acts, h, k, p);
    assert (h.ws + more)[..p] == h.ws[..p] && (h.ws + more)[..h.at[k]] == h.ws[..h.at[k]];
  }

  lemma DurableNext(g: Geometry, d0: Disk, acts: seq<Action>, n: nat, h: History, more: seq<Write>, h': History)
    requires Durable(g, d0, acts, n, h) && n < |acts| && h' == Longer(h, more)
    requires KeptAt(g, d0, acts, h', n + 1) && forall p: nat :: TornAt(g, d0, acts, h', n, p)
    ensures Durable(g, d0, acts, n + 1, h')
  {
    forall k: nat ensures KeptAt(g, d0, acts, h', k) {
      if k <= n { Earlier(g, d0, acts, n, h, more, k, 0); }
    }
    forall k: nat, p: nat ensures TornAt(g, d0, acts, h', k, p) {
      if k < n {
        assert KeptAt(g, d0, acts, h, k + 1);
        if p <= |h.ws| { Earlier(g, d0, acts, n, h, more, k, p); }
      }
    }
  }

  /** An action other than the last end_op of a batch writes nothing. */
  lemma DurableWait(g: Geometry, d0: Disk, acts: seq<Action>, n: nat, h: History)
    requires Durable(g, d0, acts, n, h) && n < |acts| && FitsAt(acts, n) && !Last(AfterAll(acts[..n]), acts[n])
    ensures Durable(g, d0, acts, n + 1, Longer(h, []))
  {
    RestNext(acts, n);
    var h', m := Longer(h, []), n + 1;
    assert h'.ws == h.ws && h.ws[..|h.ws|] == h.ws;
    assert KeptAt(g, d0, acts, h, n);
    forall p: nat ensures TornAt(g, d0, acts, h', n, p) {}
    DurableNext(g, d0, acts, n, h, [], h');
  }

  /** After `j` of the writes `ws` disk `d` recovers to `before` or to `after`, and after all to `after`. */
  ghost predicate TornTo(g: Geometry, d: Disk, ws: seq<Write>, before: Disk, after: Disk, j: nat) {
    j <= |ws| ==>
      && (Holds(Apply(d, ws[..j]), g, before) || Holds(Apply(d, ws[..j]), g, after))
      && (j == |ws| ==> Holds(Apply(d, ws[..j]), g, after))
  }

  /** A commit of what is pending on the disk, cut off after `j` of its writes. */
  lemma TornCommit(g: Geometry, d: Disk, l: Disk, lh: seq<Word>, before: Disk, after: Disk, j: nat)
    requires Log.AllOrNothing(d, l, g, lh) && Log.SameOutside(g, d, before) && Log.SameOutside(g, l, after)
    ensures TornTo(g, d, CommitWrites(d, l, g, lh), before, after, j)
  {
    var cw := CommitWrites(d, l, g, lh);
    assert Log.CutAt(d, l, g, lh, j);
    if j <= |cw| {
      var d' := Apply(d, cw[..j]);
      if j > |lh| {
        HoldsSame(d', g, l, after);
      } else {
        HoldsSame(d', g, d, before);
        assert j == |cw| ==> lh == [] && Log.SameOutside(g, d, after);
        if j == |cw| { HoldsSame(d', g, d, after); }
      }
    }
  }

  /** A disk whose log is empty is what it recovers to. */
  lemma InPlace(d: Disk, g: Geometry, home: Disk)
    requires Holds(d, g, home) && HeaderCount(d[g.start]) == 0
    ensures Log.SameOutside(g, d, home)
  {
    EmptyLog(d, g);
  }

  lemma DurableBy(g: Geometry, d0: Disk, acts: seq<Action>, n: nat, h: History, d: Disk, cw: seq<Write>,
                  before: Disk, after: Disk)
    requires Durable(g, d0, acts, n, h) && n < |acts| && d == Apply(d0, h.ws)
    requires before == Home(d0, acts, n) && after == Home(d0, acts, n + 1)
    requires forall j: nat :: TornTo(g, d, cw, before, after, j)
    ensures Durable(g, d0, acts, n + 1, Longer(h, cw)) && Apply(d0, h.ws + cw) == Apply(d, cw)
  {
    var h' := Longer(h, cw);
    assert KeptAt(g, d0, acts, h, n);
    forall p: nat ensures TornAt(g, d0, acts, h', n, p) {
      if |h.ws| <= p <= |h'.ws| {
        CutConcat(d0, h.ws, cw, p - |h.ws|);
        assert TornTo(g, d, cw, before, after, p - |h.ws|);
      }
    }
    CutConcat(d0, h.ws, cw, |cw|);
    assert TornTo(g, d, cw, before, after, |cw|);
    assert (h.ws + cw)[..|h.ws| + |cw|] == h.ws + cw && cw[..|cw|] == cw;
    DurableNext(g, d0, acts, n, h, cw, h');
  }

  /** The last end_op of a batch commits it. */
  lemma DurableCommit(g: Geometry, d0: Disk, acts: seq<Action>, n: nat, h: History, d: Disk, l: Disk, lh: seq<Word>)
    requires Durable(g, d0, acts, n, h) && n < |acts| && FitsAt(acts, n) && Last(AfterAll(acts[..n]), acts[n])
    requires d == Apply(d0, h.ws) && Log.AllOrNothing(d, l, g, lh) && HeaderCount(d[g.start]) == 0
    requires Log.SameOutside(g, l, Apply(d0, Updates(acts[..n])))
    ensures var cw := CommitWrites(d, l, g, lh);
      Durable(g, d0, acts, n + 1, Longer(h, cw)) && Apply(d0, h.ws + cw) == Apply(d, cw)
  {
    HomeNext(d0, acts, n);
    var cw, before, after := CommitWrites(d, l, g, lh), Home(d0, acts, n), Home(d0, acts, n + 1);
    assert KeptAt(g, d0, acts, h, n) && h.ws[..|h.ws|] == h.ws;
    InPlace(d, g, before);
    forall j: nat ensures TornTo(g, d, cw, before, after, j) { TornCommit(g, d, l, lh, before, after, j); }
    DurableBy(g, d0, acts, n, h, d, cw, before, after);
  }

  // ---------- a longer schedule ----------

  lemma {:induction false} RestMore(acts: seq<Action>, a: Action, k: nat)
    requires k <= |acts|
    ensures Rest(acts + [a], k) == Rest(acts, k) && (acts + [a])[..k] == acts[..k]
  {
    assert (acts + [a])[..k] == acts[..k];
    if k > 0 { RestMore(acts, a, k - 1); }
  }

  lemma HomeMore(d0: Disk, acts: seq<Action>, a: Action, k: nat)
    requires k <= |acts|
    ensures Home(d0, acts + [a], k) == Home(d0, acts, k)
  {
    RestMore(acts, a, k);
    RestMore(acts, a, Rest(acts, k));
  }

  /** What comes later changes nothing about the actions before. */
  lemma DurableMore(g: Geometry, d0: Disk, acts: seq<Action>, a: Action, h: History)
    requires Durable(g, d0, acts, |acts|, h)
    ensures Durable(g, d0, acts + [a], |acts|, h)
  {
    var acts' := acts + [a];
    forall k: nat ensures KeptAt(g, d0, acts', h, k) {
      assert KeptAt(g, d0, acts, h, k);
      if k <= |acts| { HomeMore(d0, acts, a, k); }
    }
    forall k: nat, p: nat ensures TornAt(g, d0, acts', h, k, p) {
      assert TornAt(g, d0, acts, h, k, p);
      if k < |acts| {
        HomeMore(d0, acts, a, k);
        HomeMore(d0, acts, a, k + 1);
      }
    }
  }

  // ---------- power losses and recoveries ----------

  /** The disk after recoveries of which the i-th gets as far as `ks[i]` writes, a whole one if that is more
      than it makes. */
  ghost function Rebooted(d: Disk, g: Geometry, ks: seq<nat>): (r: Disk)
    ensures |r| == |d|
    decreases |ks|
  {
    if ks == [] || !GoodLog(d, g) then d
    else Rebooted(Apply(d, RecoverWrites(d, g)[..Upto(ks[0], |RecoverWrites(d, g)|)]), g, ks[1..])
  }

  function Upto(k: nat, n: nat): nat { if k < n then k else n }

  lemma {:induction false} RebootedHolds(d: Disk, g: Geometry, home: Disk, ks: seq<nat>)
    requires Holds(d, g, home)
    ensures Holds(Rebooted(d, g, ks), g, home)
    decreases |ks|
  {
    if ks != [] {
      var k := Upto(ks[0], |RecoverWrites(d, g)|);
      RecoveryCut(d, g, k);
      RebootedHolds(Apply(d, RecoverWrites(d, g)[..k]), g, home, ks[1..]);
    }
  }

  /** The power fails after `p` of a run's block writes, wherever that is, and again and again while the
      machine recovers: what the disk will recover to are the updates of the first m actions, where no call
      was running after them. No batch is lost whose commit had been written by then. */
  lemma PowerFails(g: Geometry, d0: Disk, acts: seq<Action>, n: nat, h: History, p: nat, ks: seq<nat>) returns (m: nat)
    requires Durable(g, d0, acts, n, h) && p <= |h.ws|
    ensures m <= n && AfterAll(acts[..m]).ops == []
    ensures forall q: nat | q <= n && h.at[q] <= p && AfterAll(acts[..q]).ops == [] :: q <= m
    ensures Holds(Rebooted(Apply(d0, h.ws[..p]), g, ks), g, Apply(d0, Updates(acts[..m])))
  {
    var k := During(h.at, p, n);
    forall q: nat | q <= k && AfterAll(acts[..q]).ops == []
      ensures q <= Rest(acts, k) && (k < n ==> q <= Rest(acts, k + 1))
    {
      RestIsLast(acts, k, q);
      if k < n { RestIsLast(acts, k + 1, q); }
    }
    var d := Apply(d0, h.ws[..p]);
    if k == n {
      assert KeptAt(g, d0, acts, h, n);
      m := Rest(acts, n);
    } else {
      assert TornAt(g, d0, acts, h, k, p);
      m := if Holds(d, g, Home(d0, acts, k)) then Rest(acts, k) else Rest(acts, k + 1);
    }
    RebootedHolds(d, g, Apply(d0, Updates(acts[..m])), ks);
  }

  /** The action in which the p-th write happens, or `n` if it is the last. */
  lemma {:induction false} During(at: seq<nat>, p: nat, n: nat) returns (k: nat)
    requires |at| == n + 1 && at[0] == 0 && p <= at[n]
    ensures k <= n && (if k == n then p == at[n] else at[k] <= p <= at[k + 1])
    ensures forall q: nat | q <= n && at[q] <= p :: q <= k
    decreases n
  {
    if n == 0 || p == at[n] {
      k := n;
    } else if at[n - 1] <= p {
      k := n - 1;
    } else {
      k := During(at[..n], p, n - 1);
    }
  }
}
