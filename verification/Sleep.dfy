/** sleep and wakeup of proc.c as interleaved steps of any number of processes,
    which share some state under a lock lk and sleep on one channel until a
    condition of their own holds. sleep1.p checks the same for two processes of
    each kind and four rounds. */
module Sleep {

  /** Where a process is. Between `Want` and `Asleep` it is inside sleep(). */
  datatype Pc =
    | Out        // holds neither lock
    | In         // holds lk; may read and change the shared state
    | Want       // called sleep: holds lk, and is acquiring ptable.lock
    | Both       // holds lk and ptable.lock
    | Going      // released lk, holds ptable.lock
    | Asleep     // SLEEPING, in the scheduler; holds nothing
    | WakingIn   // inside wakeup, holding lk and ptable.lock
    | WakingOut  // inside wakeup, holding ptable.lock only

  /** `owes`: changed the shared state and has not run wakeup1 since. */
  datatype Proc = Proc(pc: Pc, owes: bool)

  datatype State<S> = State(shared: S, procs: seq<Proc>)

  /** The condition process `p` sleeps for. */
  type Conds<!S> = (nat, S) -> bool

  predicate HasLk(p: Proc) { p.pc == In || p.pc == Want || p.pc == Both || p.pc == WakingIn }

  predicate HasPt(p: Proc) { p.pc == Both || p.pc == Going || p.pc == WakingIn || p.pc == WakingOut }

  ghost predicate LkFree<S>(s: State<S>) { forall i | 0 <= i < |s.procs| :: !HasLk(s.procs[i]) }

  ghost predicate PtFree<S>(s: State<S>) { forall i | 0 <= i < |s.procs| :: !HasPt(s.procs[i]) }

  datatype Step<S> =
    | Acquire(p: nat)              // acquire(lk): on entry, or after waking up in sleep
    | Change(p: nat, to: S)        // the holder of lk changes the shared state
    | Release(p: nat)
    | SleepCall(p: nat)            // while(!cond) sleep(chan, lk)
    | TakePt(p: nat)               //   acquire(&ptable.lock)
    | DropLk(p: nat)               //   release(lk)
    | Doze(p: nat)                 //   state = SLEEPING; sched()
    | WakeCall(p: nat)             // wakeup(chan): acquire(&ptable.lock)
    | WakeAll(p: nat)              //   wakeup1(chan); release(&ptable.lock)
    | Kill(p: nat)                 // a sleeping process is woken for another reason

  function Roused(p: Proc): Proc { if p.pc == Asleep then p.(pc := Out) else p }

  function To<S>(s: State<S>, p: nat, pc: Pc): State<S>
    requires p < |s.procs|
  {
    s.(procs := s.procs[p := s.procs[p].(pc := pc)])
  }

  ghost predicate Next<S>(cond: Conds<S>, s: State<S>, e: Step<S>, s': State<S>) {
    e.p < |s.procs| &&
    var q := s.procs[e.p];
    match e
    case Acquire(p) => q.pc == Out && LkFree(s) && s' == To(s, p, In)
    case Change(p, to) => q.pc == In && s' == State(to, s.procs[p := q.(owes := true)])
    case Release(p) => q.pc == In && s' == To(s, p, Out)
    case SleepCall(p) => q.pc == In && !q.owes && !cond(p, s.shared) && s' == To(s, p, Want)
    case TakePt(p) => q.pc == Want && PtFree(s) && s' == To(s, p, Both)
    case DropLk(p) => q.pc == Both && s' == To(s, p, Going)
    case Doze(p) => q.pc == Going && s' == To(s, p, Asleep)
    case WakeCall(p) =>
      && (q.pc == In || q.pc == Out) && PtFree(s)
      && s' == To(s, p, if q.pc == In then WakingIn else WakingOut)
    case WakeAll(p) =>
      && (q.pc == WakingIn || q.pc == WakingOut)
      && |s'.procs| == |s.procs| && s'.shared == s.shared
      && (forall i | 0 <= i < |s.procs| :: s'.procs[i] ==
            if i == p then Proc(if q.pc == WakingIn then In else Out, false) else Roused(s.procs[i]))
    case Kill(p) => q.pc == Asleep && PtFree(s) && s' == To(s, p, Out)
  }

  // ---------- the invariant ----------

  ghost predicate SomeoneOwes<S>(s: State<S>) {
    exists i :: 0 <= i < |s.procs| && s.procs[i].owes
  }

  /** A process that is neither asleep nor on its way there. */
  predicate Awake(p: Proc) { p.pc == Out || p.pc == In || p.pc == WakingIn || p.pc == WakingOut }

  ghost predicate Inv<S>(cond: Conds<S>, s: State<S>) {
    // the two locks
    && (forall i, j | 0 <= i < |s.procs| && 0 <= j < |s.procs| && HasLk(s.procs[i]) && HasLk(s.procs[j]) :: i == j)
    && (forall i, j | 0 <= i < |s.procs| && 0 <= j < |s.procs| && HasPt(s.procs[i]) && HasPt(s.procs[j]) :: i == j)
    // whoever has still to call wakeup does not sleep first
    && (forall i | 0 <= i < |s.procs| && s.procs[i].owes :: Awake(s.procs[i]))
    // a process on its way to sleep with lk held still has reason to
    && (forall i: nat | i < |s.procs| && (s.procs[i].pc == Want || s.procs[i].pc == Both) :: !cond(i, s.shared))
    // from the moment it has released lk, someone will wake it if that changes
    && (forall i: nat | i < |s.procs| && (s.procs[i].pc == Going || s.procs[i].pc == Asleep) && cond(i, s.shared) ::
          SomeoneOwes(s))
  }

  lemma OwesKept<S>(s: State<S>, p: nat, pc: Pc)
    requires p < |s.procs|
    ensures SomeoneOwes(To(s, p, pc)) <==> SomeoneOwes(s)
  {
    var s' := To(s, p, pc);
    if i :| 0 <= i < |s.procs| && s.procs[i].owes { assert s'.procs[i].owes; }
    if i :| 0 <= i < |s.procs| && s'.procs[i].owes { assert s.procs[i].owes; }
  }

  /** A step that only moves process `p`. */
  lemma MoveKeeps<S>(cond: Conds<S>, s: State<S>, p: nat, pc: Pc)
    requires Inv(cond, s) && p < |s.procs|
    requires HasLk(Proc(pc, false)) ==> HasLk(s.procs[p]) || LkFree(s)
    requires HasPt(Proc(pc, false)) ==> HasPt(s.procs[p]) || PtFree(s)
    requires pc == Want || pc == Both || pc == Going ==> !cond(p, s.shared)
    requires pc == Asleep ==> s.procs[p].pc == Going
    requires s.procs[p].owes ==> Awake(Proc(pc, true))
    ensures Inv(cond, To(s, p, pc))
  {
    OwesKept(s, p, pc);
  }

  lemma ChangeKeeps<S>(cond: Conds<S>, s: State<S>, p: nat, to: S, s': State<S>)
    requires Inv(cond, s) && Next(cond, s, Change(p, to), s')
    ensures Inv(cond, s')
  {
    assert s'.procs[p].owes;
  }

  lemma WakeAllKeeps<S>(cond: Conds<S>, s: State<S>, p: nat, s': State<S>)
    requires Inv(cond, s) && Next(cond, s, Step.WakeAll(p), s')
    ensures Inv(cond, s')
  {
    assert HasPt(s.procs[p]);
    forall i: nat | i < |s.procs|
      ensures (HasLk(s'.procs[i]) ==> HasLk(s.procs[i])) && (HasPt(s'.procs[i]) ==> HasPt(s.procs[i]) && i != p)
      ensures s'.procs[i].pc != Asleep && s'.procs[i].pc != Going
      ensures s'.procs[i].owes ==> s.procs[i].owes && Awake(s'.procs[i])
      ensures s'.procs[i].pc == Want || s'.procs[i].pc == Both ==> s'.procs[i].pc == s.procs[i].pc
    {
      assert s.procs[i].pc == Going ==> HasPt(s.procs[i]);
    }
  }

  lemma StepKeeps<S>(cond: Conds<S>, s: State<S>, e: Step<S>, s': State<S>)
    requires Inv(cond, s) && Next(cond, s, e, s')
    ensures Inv(cond, s') && |s'.procs| == |s.procs|
  {
    match e {
      case Change(p, to) => ChangeKeeps(cond, s, p, to, s');
      case WakeAll(p) => WakeAllKeeps(cond, s, p, s');
      case _ => MoveKeeps(cond, s, e.p, s'.procs[e.p].pc);
    }
  }

  // ---------- every run ----------

  ghost predicate Start<S>(s: State<S>) {
    forall i | 0 <= i < |s.procs| :: s.procs[i] == Proc(Out, false)
  }

  ghost predicate IsRun<S>(cond: Conds<S>, ss: seq<State<S>>, es: seq<Step<S>>) {
    && |ss| == |es| + 1
    && Start(ss[0])
    && forall i | 0 <= i < |es| :: Next(cond, ss[i], es[i], ss[i + 1])
  }

  lemma {:induction false} RunKeeps<S>(cond: Conds<S>, ss: seq<State<S>>, es: seq<Step<S>>, n: nat)
    requires IsRun(cond, ss, es) && n < |ss|
    ensures Inv(cond, ss[n])
  {
    if n > 0 {
      RunKeeps(cond, ss, es, n - 1);
      assert Next(cond, ss[n - 1], es[n - 1], ss[n - 1 + 1]);
      StepKeeps(cond, ss[n - 1], es[n - 1], ss[n]);
    }
  }

  /** No lost wakeup: in every reachable state, while a process is asleep although its condition holds,
      some process that is awake has changed the state and has its wakeup still to run. */
  lemma NoLostWakeup<S>(cond: Conds<S>, ss: seq<State<S>>, es: seq<Step<S>>, n: nat, p: nat)
    requires IsRun(cond, ss, es) && n < |ss| && p < |ss[n].procs|
    requires ss[n].procs[p].pc == Asleep && cond(p, ss[n].shared)
    ensures exists i :: 0 <= i < |ss[n].procs| && i != p && ss[n].procs[i].owes && Awake(ss[n].procs[i])
  {
    RunKeeps(cond, ss, es, n);
  }

  // ---------- the other order loses wakeups ----------

  /** sleep() as it would be if it released lk before it took ptable.lock: `Want`
      then stands for "lk released, ptable.lock not yet taken". */
  ghost predicate NextSwapped<S>(cond: Conds<S>, s: State<S>, e: Step<S>, s': State<S>) {
    e.p < |s.procs| &&
    var q := s.procs[e.p];
    match e
    case Acquire(p) =>
      && q.pc == Out && (forall i | 0 <= i < |s.procs| :: s.procs[i].pc == Want || !HasLk(s.procs[i]))
      && s' == To(s, p, In)
    case SleepCall(p) => q.pc == In && !q.owes && !cond(p, s.shared) && s' == To(s, p, Want)
    case TakePt(p) => q.pc == Want && PtFree(s) && s' == To(s, p, Going)
    case DropLk(p) => false
    case _ => Next(cond, s, e, s')
  }

  ghost predicate ReachSwapped<S(!new)>(cond: Conds<S>, s: State<S>, n: nat)
    decreases n
  {
    if n == 0 then Start(s) else exists r, e :: ReachSwapped(cond, r, n - 1) && NextSwapped(cond, r, e, s)
  }

  ghost predicate ReachableSwapped<S(!new)>(cond: Conds<S>, s: State<S>) {
    exists n: nat :: ReachSwapped(cond, s, n)
  }

  lemma StartSwapped<S(!new)>(cond: Conds<S>, s: State<S>)
    requires Start(s)
    ensures ReachableSwapped(cond, s)
  {
    assert ReachSwapped(cond, s, 0);
  }

  lemma ThenSwapped<S(!new)>(cond: Conds<S>, r: State<S>, e: Step<S>, s: State<S>)
    requires ReachableSwapped(cond, r) && NextSwapped(cond, r, e, s)
    ensures ReachableSwapped(cond, s)
  {
    var n: nat :| ReachSwapped(cond, r, n);
    assert ReachSwapped(cond, s, n + 1);
  }

  predicate Flag(p: nat, flag: bool) { flag }

  /** A consumer finds the flag clear and starts to sleep; a producer sets the flag. */
  lemma SwappedSets() returns (s: State<bool>)
    ensures s == State(true, [Proc(Want, false), Proc(In, true)]) && ReachableSwapped(Flag, s)
  {
    var o, i, w := Proc(Out, false), Proc(In, false), Proc(Want, false);
    var s0, s1, s2, s3 := State(false, [o, o]), State(false, [i, o]), State(false, [w, o]), State(false, [w, i]);
    s := State(true, [w, Proc(In, true)]);
    StartSwapped(Flag, s0);
    ThenSwapped(Flag, s0, Acquire(0), s1);
    ThenSwapped(Flag, s1, SleepCall(0), s2);
    ThenSwapped(Flag, s2, Acquire(1), s3);
    ThenSwapped(Flag, s3, Change(1, true), s);
  }

  /** The producer's wakeup finds nobody asleep. */
  lemma SwappedWakes() returns (s: State<bool>)
    ensures s == State(true, [Proc(Want, false), Proc(In, false)]) && ReachableSwapped(Flag, s)
  {
    var r := SwappedSets();
    var m := State(true, [Proc(Want, false), Proc(WakingIn, true)]);
    s := State(true, [Proc(Want, false), Proc(In, false)]);
    ThenSwapped(Flag, r, WakeCall(1), m);
    ThenSwapped(Flag, m, Step.WakeAll(1), s);
  }

  /** Then the consumer goes to sleep, for good. */
  lemma SwappedLosesWakeup() returns (s: State<bool>)
    ensures ReachableSwapped(Flag, s)
    ensures |s.procs| == 2 && s.procs[0].pc == Asleep && Flag(0, s.shared) && !SomeoneOwes(s)
  {
    var r := SwappedWakes();
    var m := State(true, [Proc(Going, false), Proc(In, false)]);
    s := State(true, [Proc(Asleep, false), Proc(In, false)]);
    ThenSwapped(Flag, r, TakePt(0), m);
    ThenSwapped(Flag, m, Doze(0), s);
  }
}
