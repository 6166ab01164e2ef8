/** ide.c's request queue. Buffers wait in a list linked through qnext; the disk works on the first of
    them and interrupts when it is done. Port input and output is the field `active`: what the disk
    was last told to do. What an interrupt does to the cache is Bio's step `Sync`. */
module Ide {
  import opened Params
  import opened Blocks
  import opened Bio

  const NONE: int := -1

  datatype Request = Idle | Reading(drive: nat, blockno: nat) | Writing(drive: nat, blockno: nat, data: Block)

  predicate Finished(b: Buf) {
    b.valid && !b.dirty
  }

  /** The drive that idestart selects. */
  function Drive(b: Buf): nat {
    b.dev % 2
  }

  function RequestFor(b: Buf): Request {
    if b.dirty then Writing(Drive(b), b.blockno, b.data) else Reading(Drive(b), b.blockno)
  }

  ghost function First(queue: seq<nat>): int {
    if queue == [] then NONE else queue[0]
  }

  ghost predicate LinkOk(bufs: seq<Buf>, qnext: seq<int>, queue: seq<nat>, k: nat) {
    k < |queue| ==>
      && queue[k] < |bufs| == |qnext| && queue[k] !in queue[k + 1..]
      && qnext[queue[k]] == First(queue[k + 1..])
      && !Finished(bufs[queue[k]])
  }

  ghost predicate Chain(bufs: seq<Buf>, qnext: seq<int>, queue: seq<nat>) {
    forall k: nat {:trigger LinkOk(bufs, qnext, queue, k)} :: LinkOk(bufs, qnext, queue, k)
  }

  class Disk {
    const havedisk1: bool
    var bufs: seq<Buf>
    var qnext: seq<int>
    var idequeue: int
    var disks: seq<seq<Block>>
    var active: Request
    ghost var queue: seq<nat>

    /** The list is the queue, and the disk is at work for its first buffer. */
    ghost predicate Valid()
      reads this
    {
      && |qnext| == |bufs|
      && |disks| == 2 && |disks[0]| == |disks[1]| == FSSIZE
      && idequeue == First(queue)
      && Chain(bufs, qnext, queue)
      && (queue == [] ==> active == Idle)
      && (queue != [] ==> queue[0] < |bufs| && bufs[queue[0]].blockno < FSSIZE && active == RequestFor(bufs[queue[0]]))
    }

    constructor (bufs: seq<Buf>, disks: seq<seq<Block>>, havedisk1: bool)
      requires |disks| == 2 && |disks[0]| == |disks[1]| == FSSIZE
      ensures Valid() && queue == [] && this.bufs == bufs && this.disks == disks && this.havedisk1 == havedisk1
    {
      this.bufs, qnext, idequeue, this.disks, this.havedisk1 := bufs, seq(|bufs|, _ => NONE), NONE, disks, havedisk1;
      active, queue := Idle, [];
    }

    /** idestart. False is a panic. */
    method Idestart(b: nat) returns (ok: bool)
      requires b < |bufs|
      modifies `active
      ensures ok <==> bufs[b].blockno < FSSIZE
      ensures active == if ok then RequestFor(bufs[b]) else old(active)
    {
      if bufs[b].blockno >= FSSIZE {
        return false;
      }
      active := RequestFor(bufs[b]);
      return true;
    }

    /** The last buffer of the list. */
    method Last() returns (p: nat, ghost at: nat)
      requires Valid() && queue != []
      ensures at == |queue| - 1 && p == queue[at]
    {
      p, at := idequeue, 0;
      assert LinkOk(bufs, qnext, queue, 0);
      while qnext[p] != NONE
        invariant at < |queue| && p == queue[at] && p < |bufs|
        invariant LinkOk(bufs, qnext, queue, at)
        decreases |queue| - at
      {
        p, at := qnext[p], at + 1;
        assert LinkOk(bufs, qnext, queue, at);
      }
    }

    /** iderw up to its wait: the request joins the end of the queue. False is a panic. */
    method Iderw(b: nat) returns (ok: bool)
      requires Valid() && b < |bufs| && b !in queue
      modifies `qnext, `idequeue, `active, `queue
      ensures ok <==>
        && bufs[b].busy && !Finished(bufs[b]) && (bufs[b].dev == 0 || havedisk1)
        && (old(queue) == [] ==> bufs[b].blockno < FSSIZE)
      ensures ok ==> Valid() && queue == old(queue) + [b]
    {
      if !bufs[b].busy || Finished(bufs[b]) || (bufs[b].dev != 0 && !havedisk1) {
        return false;
      }
      ghost var next0, q0 := qnext, queue;
      if idequeue == NONE {
        qnext := qnext[b := NONE];
        idequeue := b;
        queue := [b];
        ok := Idestart(b);
        assert q0 == [];
        forall k: nat ensures LinkOk(bufs, qnext, queue, k) {}
      } else {
        var p, at := Last();
        assert LinkOk(bufs, qnext, queue, at);
        qnext := qnext[b := NONE];
        qnext := qnext[p := b];
        queue := queue + [b];
        ok := true;
        forall k: nat ensures LinkOk(bufs, qnext, queue, k) { Joined(bufs, next0, q0, b, qnext, k); }
        assert LinkOk(bufs, next0, q0, 0);
      }
    }

    /** The disk has done what it was told, for buffer `b`. */
    method Complete(b: nat, error: bool)
      requires b < |bufs| && |disks| == 2 && |disks[0]| == |disks[1]| == FSSIZE
      requires bufs[b].blockno < FSSIZE && active == RequestFor(bufs[b])
      modifies `bufs, `disks
      ensures
        var buf, d := old(bufs)[b], Drive(old(bufs)[b]);
        && bufs == old(bufs)[b := if error && !buf.dirty then buf.(valid := true) else SyncedBuf(old(disks)[d], buf)]
        && disks == old(disks)[d := SyncedDisk(old(disks)[d], buf)]
        && |disks[0]| == |disks[1]| == FSSIZE
    {
      if active.Writing? {
        var d: seq<Block> := disks[active.drive][active.blockno := active.data];
        disks := disks[active.drive := d];
      }
      if !bufs[b].dirty && !error {
        bufs := bufs[b := bufs[b].(data := disks[active.drive][active.blockno])];
      }
      bufs := bufs[b := bufs[b].(valid := true, dirty := false)];
    }

    /** ideintr, with whether the disk reports an error: the oldest request is done, as the synchronous
        driver would do it now, and the disk goes on with the next. A read that fails leaves the
        buffer's old data, marked valid. False is a panic: the next request is for no block of the
        disk. For a cache `c` whose buffers these are, it is the step `Sync`. */
    method Ideintr(error: bool, ghost c: Cache) returns (ok: bool)
      requires Valid()
      modifies `bufs, `idequeue, `disks, `active, `queue
      ensures ok <==> |old(queue)| >= 2 && old(queue)[1] < |old(bufs)| ==> old(bufs)[old(queue)[1]].blockno < FSSIZE
      ensures ok ==> Valid()
      ensures old(queue) == [] ==> bufs == old(bufs) && disks == old(disks) && queue == []
      ensures old(queue) != [] ==>
        var b := old(queue)[0];
        var buf, d := old(bufs)[b], Drive(old(bufs)[b]);
        && queue == old(queue)[1..] && buf.blockno < |old(disks)[d]|
        && bufs == old(bufs)[b := if error && !buf.dirty then buf.(valid := true) else SyncedBuf(old(disks)[d], buf)]
        && disks == old(disks)[d := SyncedDisk(old(disks)[d], buf)]
        && Finished(bufs[b])
        && (!error || buf.dirty ==> IsStep(c, old(bufs), old(disks), b, bufs, disks))
    {
      if idequeue == NONE {
        return true;
      }
      ghost var bufs0, q0 := bufs, queue;
      var b: nat := idequeue;
      assert LinkOk(bufs, qnext, queue, 0) && LinkOk(bufs, qnext, queue, 1);
      idequeue := qnext[b];
      Complete(b, error);
      if !error || bufs0[b].dirty { IsSync(c, bufs0, old(disks), b, bufs, disks); }
      queue := queue[1..];
      active := Idle;
      forall k: nat ensures LinkOk(bufs, qnext, queue, k) { Left(bufs0, qnext, q0, bufs, k); }
      ok := true;
      if idequeue != NONE {
        assert LinkOk(bufs, qnext, queue, 0);
        ok := Idestart(idequeue);
      }
    }
  }

  lemma Joined(bufs: seq<Buf>, next0: seq<int>, q0: seq<nat>, b: nat, qnext: seq<int>, k: nat)
    requires q0 != [] && b < |bufs| == |next0| && b !in q0 && Chain(bufs, next0, q0) && !Finished(bufs[b])
    requires q0[|q0| - 1] < |bufs| && qnext == next0[b := NONE][q0[|q0| - 1] := b]
    ensures LinkOk(bufs, qnext, q0 + [b], k)
  {
    var q := q0 + [b];
    assert LinkOk(bufs, next0, q0, k);
    if k < |q0| {
      assert q[k + 1..] == q0[k + 1..] + [b];
      if k < |q0| - 1 {
        assert q0[|q0| - 1] in q0[k + 1..];
      }
    }
  }

  lemma Left(bufs0: seq<Buf>, qnext: seq<int>, q0: seq<nat>, bufs: seq<Buf>, k: nat)
    requires q0 != [] && Chain(bufs0, qnext, q0) && |bufs| == |bufs0|
    requires forall i | 0 <= i < |bufs| && i != q0[0] :: bufs[i] == bufs0[i]
    ensures LinkOk(bufs, qnext, q0[1..], k)
  {
    assert LinkOk(bufs0, qnext, q0, 0) && LinkOk(bufs0, qnext, q0, k + 1);
    if k < |q0| - 1 {
      assert q0[1..][k + 1..] == q0[k + 2..];
      assert q0[k + 1] in q0[1..];
    }
  }

  /** If the buffers and drive 1 are those of cache `c`, and the holder of `b` waits, the change is its step `Sync`. */
  ghost predicate IsStep(c: Cache, bufs: seq<Buf>, disks: seq<seq<Block>>, b: nat, bufs': seq<Buf>,
                         disks': seq<seq<Block>>)
    requires |disks| == |disks'| == 2
  {
    Inv(c) && c.bufs == bufs && c.disk == disks[1] && b in c.syncing ==>
      Next(c, Sync(b), c.(bufs := bufs', disk := disks'[1], syncing := c.syncing - {b}))
  }

  lemma IsSync(c: Cache, bufs: seq<Buf>, disks: seq<seq<Block>>, b: nat, bufs': seq<Buf>, disks': seq<seq<Block>>)
    requires b < |bufs| && |disks| == 2 && bufs[b].blockno < |disks[Drive(bufs[b])]|
    requires bufs' == bufs[b := SyncedBuf(disks[Drive(bufs[b])], bufs[b])]
    requires disks' == disks[Drive(bufs[b]) := SyncedDisk(disks[Drive(bufs[b])], bufs[b])]
    ensures IsStep(c, bufs, disks, b, bufs', disks')
  {
    if Inv(c) && c.bufs == bufs && b in c.syncing { assert GoodBuf(c, b, bufs[b]); }
  }

  // ---------- the queue among the steps of the cache ----------

  /** Every queued buffer has a holder that waits for it in iderw. */
  ghost predicate Awaited(c: Cache, queue: seq<nat>) {
    forall b | b in queue :: b in c.syncing
  }

  /** Whatever the rest of the kernel does with the cache between two interrupts leaves the queue and
      the queued buffers alone, so the disk finds them as they were when they joined. */
  lemma OthersKeep(c: Cache, s: Step, c': Cache, qnext: seq<int>, queue: seq<nat>)
    requires Inv(c) && Next(c, s, c') && !s.Sync?
    requires Awaited(c, queue) && Chain(c.bufs, qnext, queue)
    ensures Inv(c') && Awaited(c', queue) && Chain(c'.bufs, qnext, queue)
    ensures forall b | b in queue :: b < NBUF && c'.bufs[b] == c.bufs[b]
  {
    StepKeeps(c, s, c');
    forall b | b in queue ensures b in c'.syncing && b < NBUF && c'.bufs[b] == c.bufs[b] {
      assert GoodBuf(c, b, c.bufs[b]);
    }
    forall k: nat ensures LinkOk(c'.bufs, qnext, queue, k) { assert LinkOk(c.bufs, qnext, queue, k); }
  }

  /** A buffer that bget or bwrite hands to iderw passes all its tests. */
  lemma RequestIsGood(c: Cache, b: nat)
    requires Inv(c) && b in c.syncing && |c.disk| <= FSSIZE
    ensures b < NBUF && c.bufs[b].busy && !Finished(c.bufs[b])
    ensures c.bufs[b].dev == ROOTDEV && Drive(c.bufs[b]) == 1 && c.bufs[b].blockno < FSSIZE
  {
    assert GoodBuf(c, b, c.bufs[b]);
  }
}
