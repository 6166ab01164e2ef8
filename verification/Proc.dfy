/** The process table of proc.c. Each method is one segment of code that runs
    with ptable.lock held (or one unlocked store), so a run of the kernel is any
    sequence of these calls; `Valid` is what holds whenever the lock is free. */
module Proc {
  import opened Params

  datatype PState = UNUSED | EMBRYO | SLEEPING | RUNNABLE | RUNNING | ZOMBIE

  /** What a process sleeps on: a process (as wait does), or anything else. */
  datatype Chan = NoChan | Of(p: nat) | Other(n: nat)

  datatype Proc = Proc(state: PState, pid: nat, parent: Option<nat>, chan: Chan, killed: bool)

  type Table = t: seq<Proc> | |t| == NPROC witness seq(NPROC, _ => Proc(UNUSED, 0, None, NoChan, false))

  /** A process that can still run. */
  predicate Alive(p: Proc) { p.state == SLEEPING || p.state == RUNNABLE || p.state == RUNNING }

  // ---------- what the code segments do ----------

  function Woken(p: Proc, c: Chan): Proc {
    if p.state == SLEEPING && p.chan == c then p.(state := RUNNABLE) else p
  }

  /** wakeup1 */
  function WakeAll(t: Table, c: Chan): Table {
    seq(NPROC, i requires 0 <= i < NPROC => Woken(t[i], c))
  }

  /** After wakeup1 nobody sleeps on `c`: who did is runnable, and that is all. */
  lemma WakeMeans(t: Table, c: Chan, i: nat)
    requires i < NPROC
    ensures var p, q := t[i], WakeAll(t, c)[i];
      && (p.state == SLEEPING && p.chan == c ==> q == p.(state := RUNNABLE))
      && (!(p.state == SLEEPING && p.chan == c) ==> q == p)
      && !(q.state == SLEEPING && q.chan == c)
  {
  }

  function ParentChan(p: Proc): Chan {
    if p.parent.Some? then Of(p.parent.value) else NoChan
  }

  ghost predicate ZombieChild(t: Table, p: nat) {
    exists i :: 0 <= i < NPROC && t[i].parent == Some(p) && t[i].state == ZOMBIE
  }

  ghost predicate HasChild(t: Table, p: nat) {
    exists i :: 0 <= i < NPROC && t[i].parent == Some(p)
  }

  function Adopted(p: Proc, cur: nat, init: nat, passed: bool): Proc {
    if passed && p.parent == Some(cur) then p.(parent := Some(init)) else p
  }

  ghost function Reparented(t: Table, cur: nat, init: nat, i: nat): Proc
    requires i < NPROC
  {
    Adopted(if ZombieChild(t, cur) then Woken(t[i], Of(init)) else t[i], cur, init, true)
  }

  /** One entry of the table after exit(cur). */
  ghost function Exited(t: Table, cur: nat, init: nat, i: nat): Proc
    requires cur < NPROC && i < NPROC
  {
    var p := Reparented(WakeAll(t, ParentChan(t[cur])), cur, init, i);
    if i == cur then p.(state := ZOMBIE) else p
  }

  /** What exit does, process by process: who waits for `cur` as its parent becomes runnable; so does init
      if it waits and gets a zombie; the children go to init; and `cur` is a zombie. */
  lemma ExitMeans(t: Table, cur: nat, init: nat, i: nat)
    requires cur < NPROC && i < NPROC && init < NPROC && cur != init && t[cur].state == RUNNING
    requires t[cur].parent.Some? && forall j: nat | j < NPROC && t[j].state == SLEEPING :: t[j].chan != NoChan
    ensures Exited(t, cur, init, i).parent == if t[i].parent == Some(cur) then Some(init) else t[i].parent
    ensures Exited(t, cur, init, i).state ==
      if i == cur then ZOMBIE
      else if t[i].state == SLEEPING && t[i].chan == Of(t[cur].parent.value) then RUNNABLE
      else if t[i].state == SLEEPING && t[i].chan == Of(init) && ZombieChild(t, cur) then RUNNABLE
      else t[i].state
    ensures Exited(t, cur, init, i) ==
      t[i].(parent := Exited(t, cur, init, i).parent, state := Exited(t, cur, init, i).state)
  {
    SameZombies(t, ParentChan(t[cur]), cur);
  }

  lemma SameZombies(t: Table, c: Chan, p: nat)
    ensures ZombieChild(WakeAll(t, c), p) <==> ZombieChild(t, p)
  {
    if i :| 0 <= i < NPROC && t[i].parent == Some(p) && t[i].state == ZOMBIE {
      assert WakeAll(t, c)[i] == t[i];
    }
    if i :| 0 <= i < NPROC && WakeAll(t, c)[i].parent == Some(p) && WakeAll(t, c)[i].state == ZOMBIE {
      assert WakeAll(t, c)[i] == t[i];
    }
  }

  // ---------- the invariant ----------

  /** A reaped process: its pid, and who got it. */
  datatype Reap = Reap(pid: nat, waiter: nat)

  /** Process `i` sleeps in wait(). */
  predicate Waiting(t: Table, i: nat)
    requires i < NPROC
  {
    t[i].state == SLEEPING && t[i].chan == Of(i)
  }

  ghost predicate FamilyOk(t: Table, init: Option<nat>, forking: map<nat, nat>, i: nat)
    requires i < NPROC
  {
    var p := t[i];
    && (p.state == SLEEPING ==> p.chan != NoChan)
    && match p.parent
       case None =>  // only init, and embryos not yet given a parent, have none
         p.state == UNUSED || p.state == EMBRYO || init == Some(i)
       case Some(q) =>
         && p.state != UNUSED && init != Some(i) && q != i
         && q < NPROC && Alive(t[q])                             // a parent is alive
         && (p.state == ZOMBIE ==> !Waiting(t, q))               // and does not wait for a zombie child
         && (p.state == EMBRYO ==> q in forking && forking[q] == i)
  }

  ghost predicate ForkOk(t: Table, forking: map<nat, nat>, q: nat) {
    q in forking ==>
      && q < NPROC && Alive(t[q])
      && forking[q] < NPROC && t[forking[q]].state == EMBRYO
      && t[forking[q]].parent in {None, Some(q)}
      && forall r | r in forking && r != q :: forking[r] != forking[q]
  }

  ghost predicate Families(t: Table, init: Option<nat>, forking: map<nat, nat>) {
    && (forall i: nat {:trigger FamilyOk(t, init, forking, i)} | i < NPROC :: FamilyOk(t, init, forking, i))
    && (forall q: nat {:trigger ForkOk(t, forking, q)} :: ForkOk(t, forking, q))
    && (init.Some? ==> init.value < NPROC && Alive(t[init.value]))
  }

  /** Pids in use are distinct and below nextpid, and none of them was ever returned by wait. */
  ghost predicate Pids(t: Table, nextpid: nat, reaped: seq<Reap>) {
    && (forall i | 0 <= i < NPROC && t[i].state != UNUSED :: 0 < t[i].pid < nextpid)
    && (forall i, j | 0 <= i < j < NPROC && t[i].state != UNUSED && t[j].state != UNUSED :: t[i].pid != t[j].pid)
    && (forall k | 0 <= k < |reaped| :: reaped[k].pid < nextpid)
    && (forall k, i | 0 <= k < |reaped| && 0 <= i < NPROC && t[i].state != UNUSED :: reaped[k].pid != t[i].pid)
    && (forall k, m | 0 <= k < m < |reaped| :: reaped[k].pid != reaped[m].pid)
  }

  /** A parent that could reap a child does not sleep in wait. */
  lemma NobodyForgotten(t: Table, init: Option<nat>, forking: map<nat, nat>, i: nat, q: nat)
    requires Families(t, init, forking) && i < NPROC && t[i].state == ZOMBIE && t[i].parent == Some(q)
    ensures q < NPROC && q != i && Alive(t[q]) && !(t[q].state == SLEEPING && t[q].chan == Of(q))
  {
    assert FamilyOk(t, init, forking, i);
  }

  // ---------- exit ----------

  lemma ExitFamily(t: Table, init: nat, forking: map<nat, nat>, cur: nat, t': Table, i: nat)
    requires Families(t, Some(init), forking)
    requires cur < NPROC && cur != init && t[cur].state == RUNNING && cur !in forking
    requires forall j: nat | j < NPROC :: t'[j] == Exited(t, cur, init, j)
    requires i < NPROC
    ensures FamilyOk(t', Some(init), forking, i)
  {
    assert FamilyOk(t, Some(init), forking, cur) && FamilyOk(t, Some(init), forking, init);
    assert FamilyOk(t, Some(init), forking, i);
    SameZombies(t, ParentChan(t[cur]), cur);
    assert t'[i] == Exited(t, cur, init, i) && t'[init] == Exited(t, cur, init, init);
    if t[i].parent.Some? {
      var q := t[i].parent.value;
      assert t'[q] == Exited(t, cur, init, q);
      assert q == cur && t[i].state == ZOMBIE ==> ZombieChild(t, cur);
    }
  }

  lemma ExitKeeps(t: Table, init: nat, forking: map<nat, nat>, cur: nat, t': Table)
    requires Families(t, Some(init), forking)
    requires cur < NPROC && cur != init && t[cur].state == RUNNING && cur !in forking
    requires forall i: nat | i < NPROC :: t'[i] == Exited(t, cur, init, i)
    ensures Families(t', Some(init), forking)
  {
    forall i: nat | i < NPROC ensures FamilyOk(t', Some(init), forking, i) { ExitFamily(t, init, forking, cur, t', i); }
    forall q: nat ensures ForkOk(t', forking, q) {
      assert ForkOk(t, forking, q);
      if q in forking { assert FamilyOk(t, Some(init), forking, forking[q]); }
    }
  }

  lemma ExitPids(t: Table, init: nat, cur: nat, t': Table)
    requires cur < NPROC && t[cur].state == RUNNING
    requires forall i: nat | i < NPROC :: t'[i] == Exited(t, cur, init, i)
    ensures forall i: nat | i < NPROC :: t'[i].pid == t[i].pid && (t'[i].state == UNUSED <==> t[i].state == UNUSED)
  {
  }

  lemma PidsKept(t: Table, nextpid: nat, reaped: seq<Reap>, t': Table)
    requires Pids(t, nextpid, reaped)
    requires forall i: nat | i < NPROC :: t'[i].pid == t[i].pid && (t'[i].state == UNUSED <==> t[i].state == UNUSED)
    ensures Pids(t', nextpid, reaped)
  {
  }

  // ---------- the other segments ----------

  /** A change to one process that leaves its family alone. */
  lemma OneKeeps(t: Table, init: Option<nat>, forking: map<nat, nat>, i: nat, p: Proc)
    requires Families(t, init, forking) && i < NPROC
    requires p.parent == t[i].parent && Alive(p) && Alive(t[i]) && (p.state == SLEEPING ==> p.chan != NoChan)
    requires p.state == SLEEPING && p.chan == Of(i) ==> !ZombieChild(t, i)
    ensures Families(t[i := p], init, forking)
  {
    var t' := t[i := p];
    forall j: nat | j < NPROC ensures FamilyOk(t', init, forking, j) { assert FamilyOk(t, init, forking, j); }
    forall q: nat ensures ForkOk(t', forking, q) { assert ForkOk(t, forking, q); }
  }

  lemma WakeKeeps(t: Table, init: Option<nat>, forking: map<nat, nat>, c: Chan)
    requires Families(t, init, forking)
    ensures Families(WakeAll(t, c), init, forking)
  {
    var t' := WakeAll(t, c);
    forall j: nat | j < NPROC ensures FamilyOk(t', init, forking, j) { assert FamilyOk(t, init, forking, j); }
    forall q: nat ensures ForkOk(t', forking, q) { assert ForkOk(t, forking, q); }
  }

  lemma AllocKeeps(t: Table, init: Option<nat>, forking: map<nat, nat>, i: nat, p: Proc)
    requires Families(t, init, forking) && i < NPROC && t[i].state == UNUSED
    requires p.state == EMBRYO && p.parent == None
    ensures Families(t[i := p], init, forking)
    ensures forall q: nat | q < NPROC && Alive(t[q]) && q !in forking ::
              Families(t[i := p], init, forking[q := i])
  {
    var t' := t[i := p];
    assert FamilyOk(t, init, forking, i);
    forall j: nat | j < NPROC ensures FamilyOk(t', init, forking, j) { assert FamilyOk(t, init, forking, j); }
    forall q: nat ensures ForkOk(t', forking, q) { assert ForkOk(t, forking, q); }
    forall q: nat | q < NPROC && Alive(t[q]) && q !in forking ensures Families(t', init, forking[q := i]) {
      var fk := forking[q := i];
      forall j: nat | j < NPROC ensures FamilyOk(t', init, fk, j) { assert FamilyOk(t', init, forking, j); }
      forall r: nat ensures ForkOk(t', fk, r) {
        assert ForkOk(t', forking, r);
        forall x | x in forking ensures forking[x] != i { assert ForkOk(t, forking, x); }
      }
    }
  }

  /** The end of a fork, either way: the embryo leaves `forking`. */
  lemma ForkEnds(t: Table, init: Option<nat>, forking: map<nat, nat>, q: nat, p: Proc)
    requires Families(t, init, forking) && q in forking && q < NPROC && forking[q] < NPROC
    requires
      || (p.state == RUNNABLE && p.parent == Some(q))
      || (p.state == UNUSED && p.parent == None == t[forking[q]].parent)
    ensures Families(t[forking[q] := p], init, forking - {q})
  {
    var np := forking[q];
    assert ForkOk(t, forking, q) && FamilyOk(t, init, forking, np);
    var t', fk := t[np := p], forking - {q};
    forall j: nat | j < NPROC ensures FamilyOk(t', init, fk, j) {
      assert FamilyOk(t, init, forking, j);
    }
    forall r: nat ensures ForkOk(t', fk, r) { assert ForkOk(t, forking, r); }
  }

  /** fork's `np->parent = proc`. */
  lemma AdoptKeeps(t: Table, init: Option<nat>, forking: map<nat, nat>, q: nat)
    requires Families(t, init, forking) && q in forking && q < NPROC && forking[q] < NPROC
    ensures Families(t[forking[q] := t[forking[q]].(parent := Some(q))], init, forking)
  {
    var np := forking[q];
    assert ForkOk(t, forking, q) && FamilyOk(t, init, forking, np);
    var t' := t[np := t[np].(parent := Some(q))];
    forall j: nat | j < NPROC ensures FamilyOk(t', init, forking, j) { assert FamilyOk(t, init, forking, j); }
    forall r: nat ensures ForkOk(t', forking, r) { assert ForkOk(t, forking, r); }
  }

  /** wait's reaping of zombie `i`. */
  lemma ReapKeeps(t: Table, init: Option<nat>, forking: map<nat, nat>, i: nat, p: Proc)
    requires Families(t, init, forking) && i < NPROC && t[i].state == ZOMBIE
    requires p.state == UNUSED && p.parent == None
    ensures Families(t[i := p], init, forking)
  {
    var t' := t[i := p];
    assert FamilyOk(t, init, forking, i);
    forall j: nat | j < NPROC ensures FamilyOk(t', init, forking, j) { assert FamilyOk(t, init, forking, j); }
    forall r: nat ensures ForkOk(t', forking, r) { assert ForkOk(t, forking, r); }
  }

  datatype WaitResult = Reaped(pid: nat) | NoChild | Slept

  class Ptable {
    var procs: Table
    var nextpid: nat
    var initproc: Option<nat>
    ghost var forking: map<nat, nat>   // who is inside fork(), with which embryo
    ghost var reaped: seq<Reap>        // every result wait() has returned

    ghost predicate Valid()
      reads this
    {
      Families(procs, initproc, forking) && Pids(procs, nextpid, reaped) && nextpid > 0
    }

    constructor ()
      ensures Valid() && nextpid == 1 && initproc == None && forking == map[] && reaped == []
      ensures forall i: nat | i < NPROC :: procs[i] == Proc(UNUSED, 0, None, NoChan, false)
    {
      procs := seq(NPROC, _ => Proc(UNUSED, 0, None, NoChan, false));
      nextpid, initproc, forking, reaped := 1, None, map[], [];
      new;
      forall j: nat | j < NPROC ensures FamilyOk(procs, initproc, forking, j) { }
    }

    /** allocproc's locked part; the lowest free slot becomes an embryo. */
    method Allocproc() returns (r: Option<nat>)
      requires Valid()
      modifies this`procs, this`nextpid
      ensures Valid()
      ensures r.None? <==> forall i: nat | i < NPROC :: old(procs)[i].state != UNUSED
      ensures r.None? ==> procs == old(procs) && nextpid == old(nextpid)
      ensures r.Some? ==>
        && r.value < NPROC && old(procs)[r.value].state == UNUSED
        && (forall i: nat | i < r.value :: old(procs)[i].state != UNUSED)
        && procs == old(procs)[r.value := old(procs)[r.value].(state := EMBRYO, pid := old(nextpid))]
        && nextpid == old(nextpid) + 1
    {
      for i: nat := 0 to NPROC
        invariant procs == old(procs) && nextpid == old(nextpid)
        invariant forall j: nat | j < i :: procs[j].state != UNUSED
      {
        if procs[i].state == UNUSED {
          var p := procs[i].(state := EMBRYO, pid := nextpid);
          assert FamilyOk(procs, initproc, forking, i);
          AllocKeeps(procs, initproc, forking, i, p);
          procs := procs[i := p];
          nextpid := nextpid + 1;
          return Some(i);
        }
      }
      return None;
    }

    /** userinit, before any other process exists. */
    method Userinit() returns (r: Option<nat>)
      requires Valid() && initproc == None && forall i: nat | i < NPROC :: procs[i].state == UNUSED
      modifies this
      ensures Valid() && r == initproc == Some(0)
      ensures procs == old(procs)[0 := old(procs)[0].(state := RUNNABLE, pid := old(nextpid))]
      ensures nextpid == old(nextpid) + 1
    {
      forall j: nat | j < NPROC ensures procs[j].parent == None { assert FamilyOk(procs, initproc, forking, j); }
      assert procs[0].state == UNUSED;
      r := Allocproc();
      initproc := r;
      procs := procs[r.value := procs[r.value].(state := RUNNABLE)];
      forall j: nat | j < NPROC ensures FamilyOk(procs, initproc, forking, j) { }
      forall q: nat ensures ForkOk(procs, forking, q) { assert ForkOk(old(procs), forking, q); }
    }

    /** fork, first step: allocproc. */
    method ForkStart(cur: nat) returns (r: Option<nat>)
      requires Valid() && cur < NPROC && procs[cur].state == RUNNING && cur !in forking
      modifies this
      ensures Valid() && reaped == old(reaped) && initproc == old(initproc)
      ensures r.None? <==> forall i: nat | i < NPROC :: old(procs)[i].state != UNUSED
      ensures r.None? ==> procs == old(procs) && nextpid == old(nextpid) && forking == old(forking)
      ensures r.Some? ==>
        && r.value < NPROC && old(procs)[r.value].state == UNUSED
        && (forall i: nat | i < r.value :: old(procs)[i].state != UNUSED)
        && procs == old(procs)[r.value := old(procs)[r.value].(state := EMBRYO, pid := old(nextpid))]
        && nextpid == old(nextpid) + 1 && forking == old(forking)[cur := r.value]
    {
      r := Allocproc();
      if r.Some? {
        assert FamilyOk(old(procs), initproc, forking, r.value);
        AllocKeeps(old(procs), initproc, forking, r.value, procs[r.value]);
        forking := forking[cur := r.value];
      }
    }

    /** fork (or allocproc) runs out of memory: the embryo's slot is free again. */
    method ForkFail(cur: nat, np: nat)
      requires Valid() && cur < NPROC && cur in forking && forking[cur] == np && np < NPROC && procs[np].parent == None
      modifies this`procs, this`forking
      ensures Valid() && procs == old(procs)[np := old(procs)[np].(state := UNUSED)] && forking == old(forking) - {cur}
    {
      var p := procs[np].(state := UNUSED);
      ForkEnds(procs, initproc, forking, cur, p);
      procs, forking := procs[np := p], forking - {cur};
    }

    /** fork, once the address space is copied: `np->parent = proc`, outside the lock. */
    method ForkAdopt(cur: nat, np: nat)
      requires Valid() && cur < NPROC && cur in forking && forking[cur] == np && np < NPROC
      modifies this`procs
      ensures Valid() && procs == old(procs)[np := old(procs)[np].(parent := Some(cur))]
    {
      AdoptKeeps(procs, initproc, forking, cur);
      assert ForkOk(procs, forking, cur);
      procs := procs[np := procs[np].(parent := Some(cur))];
    }

    /** fork's last step. */
    method ForkFinish(cur: nat, np: nat) returns (pid: nat)
      requires Valid() && cur < NPROC && cur in forking && forking[cur] == np
      requires np < NPROC && procs[np].parent == Some(cur)
      modifies this`procs, this`forking
      ensures Valid() && procs == old(procs)[np := old(procs)[np].(state := RUNNABLE)]
      ensures forking == old(forking) - {cur}
      ensures pid == procs[np].pid
    {
      var p := procs[np].(state := RUNNABLE);
      assert ForkOk(procs, forking, cur);
      ForkEnds(procs, initproc, forking, cur, p);
      procs, forking := procs[np := p], forking - {cur};
      return p.pid;
    }

    /** wakeup1 */
    method Wakeup1(c: Chan)
      modifies this`procs
      ensures procs == WakeAll(old(procs), c)
    {
      for i: nat := 0 to NPROC
        invariant forall j: nat | j < i :: procs[j] == Woken(old(procs)[j], c)
        invariant forall j: nat | i <= j < NPROC :: procs[j] == old(procs)[j]
      {
        if procs[i].state == SLEEPING && procs[i].chan == c {
          procs := procs[i := procs[i].(state := RUNNABLE)];
        }
      }
    }

    /** wakeup */
    method Wakeup(c: Chan)
      requires Valid()
      modifies this`procs
      ensures Valid() && procs == WakeAll(old(procs), c)
    {
      WakeKeeps(procs, initproc, forking, c);
      Wakeup1(c);
      PidsKept(old(procs), nextpid, reaped, procs);
    }

    /** exit's loop over the table: the children of `cur` become init's. */
    method Reparent(cur: nat, init: nat)
      requires cur < NPROC
      modifies this`procs
      ensures forall i: nat | i < NPROC :: procs[i] == Reparented(old(procs), cur, init, i)
    {
      ghost var t := procs;
      ghost var seen := false;
      for p: nat := 0 to NPROC
        invariant seen <==> exists i :: 0 <= i < p && t[i].parent == Some(cur) && t[i].state == ZOMBIE
        invariant forall i: nat | i < NPROC ::
                    procs[i] == Adopted(if seen then Woken(t[i], Of(init)) else t[i], cur, init, i < p)
      {
        if procs[p].parent == Some(cur) {
          procs := procs[p := procs[p].(parent := Some(init))];
          if procs[p].state == ZOMBIE {
            Wakeup1(Of(init));
            seen := true;
          }
        }
      }
      assert seen <==> ZombieChild(t, cur);
    }

    /** exit by the running process `cur`; false where init would panic the kernel. */
    method Exit(cur: nat) returns (ok: bool)
      requires Valid() && initproc.Some? && cur < NPROC && procs[cur].state == RUNNING && cur !in forking
      modifies this`procs
      ensures Valid()
      ensures ok <==> initproc != Some(cur)
      ensures !ok ==> procs == old(procs)
      ensures ok ==> forall i: nat | i < NPROC :: procs[i] == Exited(old(procs), cur, initproc.value, i)
    {
      if initproc == Some(cur) {
        return false;
      }
      ghost var t := procs;
      Wakeup1(ParentChan(procs[cur]));
      ghost var t1 := procs;
      Reparent(cur, initproc.value);
      SameZombies(t, ParentChan(t[cur]), cur);
      procs := procs[cur := procs[cur].(state := ZOMBIE)];
      assert forall i: nat | i < NPROC :: procs[i] == Exited(t, cur, initproc.value, i);
      ExitKeeps(t, initproc.value, forking, cur, procs);
      ExitPids(t, initproc.value, cur, procs);
      PidsKept(t, nextpid, reaped, procs);
      return true;
    }

    /** One round of wait by the running process `cur`. */
    method Wait(cur: nat) returns (r: WaitResult)
      requires Valid() && cur < NPROC && procs[cur].state == RUNNING
      modifies this`procs, this`reaped
      ensures Valid()
      ensures r.Reaped? <==> ZombieChild(old(procs), cur)
      ensures r.NoChild? <==> !ZombieChild(old(procs), cur) && (!HasChild(old(procs), cur) || old(procs)[cur].killed)
      ensures r.Reaped? ==>
        exists i: nat ::
          && i < NPROC && old(procs)[i].parent == Some(cur)
          && old(procs)[i].state == ZOMBIE && old(procs)[i].pid == r.pid
          && procs == old(procs)[i := old(procs)[i].(state := UNUSED, pid := 0, parent := None, killed := false)]
          && (forall j: nat | j < i :: !(old(procs)[j].parent == Some(cur) && old(procs)[j].state == ZOMBIE))
      ensures r.Reaped? ==> reaped == old(reaped) + [Reap(r.pid, cur)]
      ensures r.Reaped? ==> forall k | 0 <= k < |old(reaped)| :: old(reaped)[k].pid != r.pid
      ensures !r.Reaped? ==> reaped == old(reaped)
      ensures r.NoChild? ==> procs == old(procs)
      ensures r.Slept? ==> procs == old(procs)[cur := old(procs)[cur].(state := SLEEPING, chan := Of(cur))]
    {
      var havekids := false;
      for p: nat := 0 to NPROC
        invariant procs == old(procs) && reaped == old(reaped)
        invariant havekids <==> exists j :: 0 <= j < p && procs[j].parent == Some(cur)
        invariant forall j: nat | j < p :: !(procs[j].parent == Some(cur) && procs[j].state == ZOMBIE)
      {
        if procs[p].parent == Some(cur) {
          havekids := true;
          if procs[p].state == ZOMBIE {
            var pid := procs[p].pid;
            var q := procs[p].(state := UNUSED, pid := 0, parent := None, killed := false);
            ReapKeeps(procs, initproc, forking, p, q);
            procs := procs[p := q];
            reaped := reaped + [Reap(pid, cur)];
            return Reaped(pid);
          }
        }
      }
      if !havekids || procs[cur].killed {
        return NoChild;
      }
      var q := procs[cur].(state := SLEEPING, chan := Of(cur));
      OneKeeps(procs, initproc, forking, cur, q);
      procs := procs[cur := q];
      PidsKept(old(procs), nextpid, reaped, procs);
      return Slept;
    }

    /** kill: the first slot with this pid, if any. */
    method Kill(pid: nat) returns (found: bool)
      requires Valid()
      modifies this`procs
      ensures Valid()
      ensures found <==> exists i: nat :: i < NPROC && old(procs)[i].pid == pid
      ensures !found ==> procs == old(procs)
      ensures found ==> exists i: nat ::
        && i < NPROC && old(procs)[i].pid == pid && (forall j: nat | j < i :: old(procs)[j].pid != pid)
        && procs == old(procs)[i := old(procs)[i].(killed := true, state :=
             if old(procs)[i].state == SLEEPING then RUNNABLE else old(procs)[i].state)]
    {
      for p: nat := 0 to NPROC
        invariant procs == old(procs)
        invariant forall j: nat | j < p :: procs[j].pid != pid
      {
        if procs[p].pid == pid {
          var q := procs[p].(killed := true);
          if q.state == SLEEPING {
            q := q.(state := RUNNABLE);
          }
          KillKeeps(procs, initproc, forking, p, q);
          procs := procs[p := q];
          PidsKept(old(procs), nextpid, reaped, procs);
          return true;
        }
      }
      return false;
    }

    /** The scheduler picks a runnable process; what it slept on is forgotten. */
    method Dispatch(p: nat)
      requires Valid() && p < NPROC && procs[p].state == RUNNABLE
      modifies this`procs
      ensures Valid() && procs == old(procs)[p := old(procs)[p].(state := RUNNING, chan := NoChan)]
    {
      OneKeeps(procs, initproc, forking, p, procs[p].(state := RUNNING, chan := NoChan));
      procs := procs[p := procs[p].(state := RUNNING, chan := NoChan)];
      PidsKept(old(procs), nextpid, reaped, procs);
    }

    /** The running process yields, or sleeps on something other than a process. */
    method GiveUp(cur: nat, c: Chan)
      requires Valid() && cur < NPROC && procs[cur].state == RUNNING && !c.Of?
      modifies this`procs
      ensures Valid()
      ensures procs == old(procs)[cur := if c == NoChan then old(procs)[cur].(state := RUNNABLE)
                                         else old(procs)[cur].(state := SLEEPING, chan := c)]
    {
      var q := if c == NoChan then procs[cur].(state := RUNNABLE) else procs[cur].(state := SLEEPING, chan := c);
      OneKeeps(procs, initproc, forking, cur, q);
      procs := procs[cur := q];
      PidsKept(old(procs), nextpid, reaped, procs);
    }
  }

  lemma KillKeeps(t: Table, init: Option<nat>, forking: map<nat, nat>, i: nat, p: Proc)
    requires Families(t, init, forking) && i < NPROC
    requires p == t[i].(killed := true, state := if t[i].state == SLEEPING then RUNNABLE else t[i].state)
    ensures Families(t[i := p], init, forking)
  {
    var t' := t[i := p];
    forall j: nat | j < NPROC ensures FamilyOk(t', init, forking, j) { assert FamilyOk(t, init, forking, j); }
    forall q: nat ensures ForkOk(t', forking, q) { assert ForkOk(t, forking, q); }
  }
}
