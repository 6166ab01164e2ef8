/** begin_op, log_write and end_op as interleaved steps of any number of file
    system calls. log_write tests for log space before it takes log.lock, so the
    test (`Check`) and the update under the lock (`Append`) are separate steps. */
module Reservation {
  import opened Params
  import opened Blocks
  import opened Crash
  import Bio

  const MAXOPBLOCKS: nat := 10

  /** A call between begin_op and end_op: the blocks it may still add to the log, and whether it has
      passed log_write's test but not yet taken the lock. */
  datatype Op = Op(left: nat, checked: bool)

  datatype State = State(lh: seq<Word>, ops: seq<Op>, committing: bool)

  const INIT: State := State([], [], false)

  datatype Step =
    | Begin
    | Check(i: nat)
    | Append(i: nat, a: Word)
    | End(i: nat)
    | Committed

  /** log_write's panic test. */
  predicate TooBig(s: State, size: nat) {
    |s.lh| >= LOGSIZE || |s.lh| >= size - 1
  }

  function Absorb(lh: seq<Word>, a: Word): seq<Word> {
    if a in lh then lh else lh + [a]
  }

  /** May call `i` log block `a`? Logging a block again is free. */
  predicate MayLog(s: State, i: nat, a: Word) {
    i < |s.ops| && (a in s.lh || s.ops[i].left > 0)
  }

  /** Its allowance afterwards. */
  function Left(s: State, i: nat, a: Word): nat
    requires MayLog(s, i, a)
  {
    if a in s.lh then s.ops[i].left else s.ops[i].left - 1
  }

  function Without(ops: seq<Op>, i: nat): seq<Op>
    requires i < |ops|
  {
    ops[..i] + ops[i + 1..]
  }

  ghost predicate Next(size: nat, s: State, e: Step, s': State) {
    match e
    case Begin =>
      && !s.committing && |s.lh| + (|s.ops| + 1) * MAXOPBLOCKS <= LOGSIZE
      && s' == s.(ops := s.ops + [Op(MAXOPBLOCKS, false)])
    case Check(i) =>
      && i < |s.ops| && !s.ops[i].checked
      && !TooBig(s, size)
      && s' == s.(ops := s.ops[i := s.ops[i].(checked := true)])
    case Append(i, a) =>
      && MayLog(s, i, a) && s.ops[i].checked
      && s' == s.(lh := Absorb(s.lh, a), ops := s.ops[i := Op(Left(s, i, a), false)])
    case End(i) =>
      && i < |s.ops| && !s.ops[i].checked
      && s' == s.(ops := Without(s.ops, i), committing := |s.ops| == 1)
    case Committed =>
      s.committing && s' == s.(lh := [], committing := false)
  }

  /** A log_write by call `i` would panic with "too big a transaction". */
  ghost predicate Refused(size: nat, s: State, i: nat) {
    i < |s.ops| && !s.ops[i].checked && TooBig(s, size)
  }

  /** It would, although the call still has an allowance. */
  ghost predicate Panics(size: nat, s: State, i: nat) {
    Refused(size, s, i) && s.ops[i].left > 0
  }

  /** It would, although the call only logs a block again: the test comes before the search for the block. */
  ghost predicate Repeats(size: nat, s: State, i: nat) {
    Refused(size, s, i) && s.ops[i].left == 0
  }

  /** Call `i` is about to call log_write. */
  predicate CanLog(s: State, i: nat, a: Word) {
    MayLog(s, i, a) && !s.ops[i].checked
  }

  /** A whole log_write by call `i`: the test, then the update under the lock. */
  ghost predicate Logged(size: nat, s: State, i: nat, a: Word, s': State) {
    exists m :: Next(size, s, Check(i), m) && Next(size, m, Append(i, a), s')
  }

  lemma LoggedIs(size: nat, s: State, i: nat, a: Word, s': State)
    requires CanLog(s, i, a) && !TooBig(s, size)
    requires s' == s.(lh := Absorb(s.lh, a), ops := s.ops[i := Op(Left(s, i, a), false)])
    ensures Logged(size, s, i, a, s')
  {
    var m := s.(ops := s.ops[i := s.ops[i].(checked := true)]);
    assert m.ops[i := Op(Left(m, i, a), false)] == s'.ops;
    assert Next(size, s, Check(i), m) && Next(size, m, Append(i, a), s');
  }

  lemma LoggedOps(size: nat, s: State, i: nat, a: Word, s': State)
    requires Logged(size, s, i, a, s')
    ensures CanLog(s, i, a) && s' == s.(lh := Absorb(s.lh, a), ops := s.ops[i := Op(Left(s, i, a), false)])
  {
    var m :| Next(size, s, Check(i), m) && Next(size, m, Append(i, a), s');
    assert m.ops[i := Op(Left(m, i, a), false)] == s.ops[i := Op(Left(s, i, a), false)];
  }

  /** With nobody else in the log a call need not wait. */
  lemma FirstBegins(size: nat)
    ensures Next(size, INIT, Begin, INIT.(ops := [Op(MAXOPBLOCKS, false)]))
  {
  }

  /** The last call ends, and its commit is done. */
  ghost predicate Ended(size: nat, s: State, i: nat, s': State) {
    exists m :: Next(size, s, End(i), m) && Next(size, m, Committed, s')
  }

  lemma EndedIs(size: nat, s: State, i: nat, s': State)
    requires |s.ops| == 1 && i == 0 && !s.ops[i].checked && !s.committing && s' == INIT
    ensures Ended(size, s, i, s')
  {
    var m := s.(ops := Without(s.ops, i), committing := true);
    assert m.ops == [];
    assert Next(size, s, End(i), m) && Next(size, m, Committed, s');
  }

  lemma EndedInit(size: nat, s: State, i: nat, s': State)
    requires Ended(size, s, i, s') && |s.ops| == 1
    ensures s' == INIT
  {
    var m :| Next(size, s, End(i), m) && Next(size, m, Committed, s');
    assert i == 0 && Without(s.ops, 0) == [];
  }

  ghost predicate Reach(size: nat, s: State, n: nat)
    decreases n
  {
    if n == 0 then s == INIT
    else exists p, e :: Reach(size, p, n - 1) && Next(size, p, e, s)
  }

  lemma LoggedReach(size: nat, s: State, i: nat, a: Word, s': State, n: nat)
    requires Reach(size, s, n) && Logged(size, s, i, a, s')
    ensures Reach(size, s', n + 2)
  {
    var m :| Next(size, s, Check(i), m) && Next(size, m, Append(i, a), s');
    assert Reach(size, m, n + 1);
  }

  lemma EndedReach(size: nat, s: State, i: nat, s': State, n: nat)
    requires Reach(size, s, n) && Ended(size, s, i, s')
    ensures Reach(size, s', n + 2)
  {
    var m :| Next(size, s, End(i), m) && Next(size, m, Committed, s');
    assert Reach(size, m, n + 1);
  }

  // ---------- the invariant ----------

  /** Log space set aside for the rest of the running calls. */
  function Allowance(ops: seq<Op>): nat {
    if ops == [] then 0 else ops[0].left + Allowance(ops[1..])
  }

  ghost predicate Inv(s: State) {
    && |s.lh| + Allowance(s.ops) <= LOGSIZE
    && (forall i | 0 <= i < |s.ops| :: s.ops[i].left <= MAXOPBLOCKS)
    && (forall i, j | 0 <= i < j < |s.lh| :: s.lh[i] != s.lh[j])
    && (s.committing ==> s.ops == [])
    && (s.ops == [] && !s.committing ==> s.lh == [])
  }

  lemma {:induction false} AllowanceAt(ops: seq<Op>, i: nat, op: Op)
    requires i < |ops|
    ensures Allowance(ops) >= ops[i].left
    ensures Allowance(ops[i := op]) == Allowance(ops) - ops[i].left + op.left
    ensures Allowance(Without(ops, i)) == Allowance(ops) - ops[i].left
  {
    if i == 0 {
      assert ops[i := op][1..] == ops[1..];
      assert Without(ops, 0) == ops[1..];
    } else {
      AllowanceAt(ops[1..], i - 1, op);
      assert ops[i := op][1..] == ops[1..][i - 1 := op];
      assert Without(ops, i)[1..] == Without(ops[1..], i - 1);
    }
  }

  lemma {:induction false} AllowanceAppend(ops: seq<Op>, op: Op)
    ensures Allowance(ops + [op]) == Allowance(ops) + op.left
  {
    if ops == [] {
      assert [op][1..] == [];
    } else {
      assert (ops + [op])[1..] == ops[1..] + [op];
      AllowanceAppend(ops[1..], op);
    }
  }

  lemma {:induction false} AllowanceBound(ops: seq<Op>)
    requires forall i | 0 <= i < |ops| :: ops[i].left <= MAXOPBLOCKS
    ensures Allowance(ops) <= |ops| * MAXOPBLOCKS
  {
    if ops != [] { AllowanceBound(ops[1..]); }
  }

  lemma BeginKeeps(s: State, s': State, size: nat)
    requires Inv(s) && Next(size, s, Begin, s')
    ensures Inv(s')
  {
    AllowanceAppend(s.ops, Op(MAXOPBLOCKS, false));
    AllowanceBound(s.ops);
  }

  lemma AppendKeeps(s: State, i: nat, a: Word, s': State, size: nat)
    requires Inv(s) && Next(size, s, Append(i, a), s')
    ensures Inv(s')
  {
    AllowanceAt(s.ops, i, Op(Left(s, i, a), false));
  }

  lemma StepKeeps(size: nat, s: State, e: Step, s': State)
    requires Inv(s) && Next(size, s, e, s')
    ensures Inv(s')
  {
    match e {
      case Begin => BeginKeeps(s, s', size);
      case Check(i) => AllowanceAt(s.ops, i, s.ops[i].(checked := true));
      case Append(i, a) => AppendKeeps(s, i, a, s', size);
      case End(i) => AllowanceAt(s.ops, i, s.ops[i]);
      case Committed =>
    }
  }

  lemma LoggedKeeps(size: nat, s: State, i: nat, a: Word, s': State)
    requires Inv(s) && Logged(size, s, i, a, s')
    ensures Inv(s')
  {
    var m :| Next(size, s, Check(i), m) && Next(size, m, Append(i, a), s');
    StepKeeps(size, s, Check(i), m);
    StepKeeps(size, m, Append(i, a), s');
  }

  /** In every reachable state the logged blocks and all unused allowances fit
      in LOGSIZE, logged block numbers are distinct, and a commit runs only with no
      call outstanding. */
  lemma {:induction false} Reserved(size: nat, s: State, n: nat)
    requires Reach(size, s, n)
    ensures Inv(s)
    ensures |s.lh| <= LOGSIZE && forall i, j | 0 <= i < j < |s.lh| :: s.lh[i] != s.lh[j]
    decreases n
  {
    if n > 0 {
      var p, e :| Reach(size, p, n - 1) && Next(size, p, e, s);
      Reserved(size, p, n - 1);
      StepKeeps(size, p, e, s);
    }
  }

  /** The table never overflows although the test was made without the lock:
      whenever a call gets to append, there is room. */
  lemma RoomToAppend(size: nat, s: State, n: nat, i: nat, a: Word, s': State)
    requires Reach(size, s, n) && Next(size, s, Append(i, a), s')
    ensures |s'.lh| <= LOGSIZE && (a !in s.lh ==> |s.lh| < LOGSIZE)
  {
    Reserved(size, s, n);
    AllowanceAt(s.ops, i, s.ops[i]);
  }

  lemma NoPanic(size: nat, s: State, n: nat, i: nat)
    requires size > LOGSIZE && Reach(size, s, n)
    ensures !Panics(size, s, i)
  {
    Reserved(size, s, n);
    if i < |s.ops| { AllowanceAt(s.ops, i, s.ops[i]); }
  }

  // ---------- a smaller log does panic ----------

  /** Three calls running, which have between them logged blocks 0..k-1. */
  function Busy(k: nat): State
    requires k <= LOGSIZE
  {
    State(seq(k, i requires 0 <= i < k => i),
          [Op(if k < 10 then 10 - k else 0, false),
           Op(if k < 10 then 10 else if k < 20 then 20 - k else 0, false),
           Op(if k < 20 then 10 else 30 - k, false)],
          false)
  }

  lemma Append3(size: nat)
    ensures Reach(size, Busy(0), 3)
  {
    var op := Op(MAXOPBLOCKS, false);
    var s1, s2 := INIT.(ops := [op]), INIT.(ops := [op, op]);
    assert Reach(size, INIT, 0);
    assert Next(size, INIT, Begin, s1);
    assert Reach(size, s1, 1);
    assert Next(size, s1, Begin, s2);
    assert Reach(size, s2, 2);
    assert Next(size, s2, Begin, Busy(0));
  }

  /** The first of the three calls that has an allowance left, and the state once it has checked. */
  function Turn(k: nat): nat { if k < 10 then 0 else if k < 20 then 1 else 2 }

  function Checked(k: nat): State
    requires k < LOGSIZE
  {
    var s, i := Busy(k), Turn(k);
    s.(ops := s.ops[i := s.ops[i].(checked := true)])
  }

  lemma AppendOne(size: nat, k: nat)
    requires k < LOGSIZE
    ensures Next(size, Checked(k), Append(Turn(k), k), Busy(k + 1))
  {
    assert Absorb(Busy(k).lh, k) == Busy(k + 1).lh;
  }

  lemma Another(size: nat, k: nat, n: nat)
    requires k < LOGSIZE && k + 1 < size && Reach(size, Busy(k), n)
    ensures Reach(size, Busy(k + 1), n + 2)
  {
    assert Next(size, Busy(k), Check(Turn(k)), Checked(k));
    assert Reach(size, Checked(k), n + 1);
    AppendOne(size, k);
  }

  lemma {:induction false} Fill(size: nat, k: nat)
    requires k <= LOGSIZE && k < size
    ensures Reach(size, Busy(k), 3 + 2 * k)
  {
    if k == 0 {
      Append3(size);
    } else {
      Fill(size, k - 1);
      Another(size, k - 1, 3 + 2 * (k - 1));
    }
  }

  /** A call with an allowance left never meets "too big a transaction" if and only if the log region is
      larger than LOGSIZE. mkfs makes it exactly LOGSIZE. */
  lemma SafeIffLarger(size: nat)
    requires size > 0
    ensures size > LOGSIZE <==> forall s, n, i :: Reach(size, s, n) ==> !Panics(size, s, i)
  {
    if size > LOGSIZE {
      forall s, n, i | Reach(size, s, n) ensures !Panics(size, s, i) { NoPanic(size, s, n, i); }
    } else {
      Fill(size, size - 1);
      var s, n, i := Busy(size - 1), 3 + 2 * (size - 1), Turn(size - 1);
      assert Reach(size, s, n) && Panics(size, s, i);
    }
  }

  // ---------- a full log leaves commit without a buffer ----------

  /** Call `i` is the last one out, and what is logged pins every one of `nbuf` buffers: commit's first
      bread is about to panic with "bget: no buffers". */
  ghost predicate Starves(nbuf: nat, s: State, i: nat) {
    |s.ops| == 1 && i == 0 && !s.ops[i].checked && !s.committing && s.lh != [] && |s.lh| >= nbuf
  }

  /** The three calls have used up their allowances, and two of them have left. */
  function Full(): State {
    State(Busy(LOGSIZE).lh, [Op(0, false)], false)
  }

  lemma FullIsReached(size: nat)
    requires size > LOGSIZE
    ensures Reach(size, Full(), 65)
  {
    Fill(size, LOGSIZE);
    var s, op := Busy(LOGSIZE), Op(0, false);
    var m := s.(ops := [op, op]);
    Leaves(size, s, m, 63);
    Leaves(size, m, Full(), 64);
  }

  lemma Leaves(size: nat, s: State, s': State, n: nat)
    requires Reach(size, s, n) && |s.ops| > 1 && !s.ops[0].checked && !s.committing && s' == s.(ops := s.ops[1..])
    ensures Reach(size, s', n + 1)
  {
    assert Without(s.ops, 0) == s.ops[1..];
    assert Next(size, s, End(0), s');
  }

  ghost predicate Safe(size: nat, nbuf: nat) {
    forall s, n, i :: Reach(size, s, n) ==> SafeAt(size, nbuf, s, i)
  }

  ghost predicate SafeAt(size: nat, nbuf: nat, s: State, i: nat) {
    !Panics(size, s, i) && !Starves(nbuf, s, i)
  }

  lemma SmallRegion(size: nat, nbuf: nat)
    requires 0 < size <= LOGSIZE
    ensures !Safe(size, nbuf)
  {
    SafeIffLarger(size);
    var s, n, i :| Reach(size, s, n) && Panics(size, s, i);
    assert !SafeAt(size, nbuf, s, i);
  }

  lemma FewBuffers(size: nat, nbuf: nat)
    requires size > LOGSIZE >= nbuf
    ensures !Safe(size, nbuf)
  {
    FullIsReached(size);
    assert |Full().lh| == LOGSIZE;
    assert !SafeAt(size, nbuf, Full(), 0);
  }

  /** Exactly when such calls meet neither panic: the log region and the cache are both larger than
      LOGSIZE. */
  lemma SafeIff(size: nat, nbuf: nat)
    requires size > 0
    ensures Safe(size, nbuf) <==> size > LOGSIZE && nbuf > LOGSIZE
  {
    if size <= LOGSIZE {
      SmallRegion(size, nbuf);
    } else if nbuf <= LOGSIZE {
      FewBuffers(size, nbuf);
    } else {
      forall s, n, i | Reach(size, s, n) ensures SafeAt(size, nbuf, s, i) {
        NoPanic(size, s, n, i);
        Reserved(size, s, n);
      }
    }
  }

  /** Logging a block again panics exactly in a log that is full; then every allowance is used up. */
  lemma RepeatsIff(size: nat, s: State, n: nat, i: nat)
    requires size > LOGSIZE && Reach(size, s, n) && i < |s.ops| && !s.ops[i].checked
    ensures Repeats(size, s, i) <==> |s.lh| == LOGSIZE
    ensures |s.lh| == LOGSIZE ==> forall j | 0 <= j < |s.ops| :: s.ops[j].left == 0
  {
    Reserved(size, s, n);
    forall j: nat | j < |s.ops| ensures s.ops[j].left <= Allowance(s.ops) { AllowanceAt(s.ops, j, s.ops[j]); }
  }

  /** So it happens, whatever the size of the region. */
  lemma RepeatIsReached(size: nat)
    requires size > LOGSIZE
    ensures exists s, n, i :: Reach(size, s, n) && Repeats(size, s, i)
  {
    var s, n := RunTo(size, LOGSIZE);
    assert Reach(size, s, n) && Repeats(size, s, 0);
  }

  lemma RunTo(size: nat, k: nat) returns (s: State, n: nat)
    requires k <= LOGSIZE && k < size
    ensures s == Busy(k) && |s.lh| == k && Reach(size, s, n)
  {
    Fill(size, k);
    s, n := Busy(k), 3 + 2 * k;
  }

  /** As long as one of the running calls has logged fewer than MAXOPBLOCKS blocks, none of the three
      panics is near: in a region larger than LOGSIZE and with no fewer buffers than LOGSIZE. */
  lemma FewerIsSafe(size: nat, nbuf: nat, s: State, n: nat, i: nat, j: nat)
    requires size > LOGSIZE && nbuf >= LOGSIZE && Reach(size, s, n) && j < |s.ops| && s.ops[j].left > 0
    ensures !Panics(size, s, i) && !Repeats(size, s, i) && !Starves(nbuf, s, i)
  {
    Reserved(size, s, n);
    AllowanceAt(s.ops, j, s.ops[j]);
  }

  /** The kernel has NBUF == LOGSIZE buffers, so no size of the log region makes it safe. */
  lemma NoSizeIsSafe(size: nat)
    requires size > 0
    ensures exists s, n, i :: Reach(size, s, n) && (Panics(size, s, i) || Starves(Bio.NBUF, s, i))
  {
    var nbuf := Bio.NBUF;
    SafeIff(size, nbuf);
    var s, n, i :| Reach(size, s, n) && !SafeAt(size, nbuf, s, i);
    assert Panics(size, s, i) || Starves(nbuf, s, i);
  }
}
