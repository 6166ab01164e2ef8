/** vm.c's allocuvm, which does not look at what mappages returns. */
module Grow {
  import opened Params
  import opened Kalloc
  import opened Vm
  import opened Frames
  import opened Uvm

  datatype GrowStep = Grew | NoPage | NoTable

  ghost predicate Zeroed(sp: Space, mem: seq<Page>, v: nat) {
    && v in sp.pt && Frame(sp.pt[v]) < |mem| && Flags(sp.pt[v]) == PTE_W + PTE_U + 1
    && forall j: nat | j < NWORDS :: mem[Frame(sp.pt[v])][j] == 0
  }

  /** Page `a` has been added, in frame `m`. */
  ghost predicate GrewBy(sp: Space, sp': Space, avail0: set<nat>, avail: set<nat>, mem: seq<Page>, a: nat, m: nat)
    requires a < VPAGES
  {
    && avail + sp'.own.Values == avail0 + sp.own.Values
    && |avail| == |avail0| - 1 - (if Tab(Pdx(a)) in sp.own then 0 else 1)
    && TabSet(sp'.own) == TabSet(sp.own) + {Pdx(a)}
    && Zeroed(sp', mem, a)
    && RangeMapped(sp, sp', a, a + 1, m, PTE_W + PTE_U)
  }

  /** One turn of allocuvm's loop. */
  method GrowOne(k: Kmem, d: nat, a: nat, ghost sp: Space)
    returns (r: GrowStep, ghost sp': Space, ghost lost: set<nat>, ghost f: nat)
    requires Good(k, sp) && sp.own[Dir] == d && a < UPAGES && a !in sp.pt
    modifies k
    ensures Good(k, sp') && sp'.own[Dir] == d
    ensures r.NoPage? <==> old(k.avail) == {}
    ensures r.NoTable? <==> |old(k.avail)| == 1 && Tab(Pdx(a)) !in sp.own
    ensures !r.Grew? ==> sp' == sp && k.avail == {} && lost == old(k.avail)
    ensures r.Grew? ==> lost == {} && GrewBy(sp, sp', old(k.avail), k.avail, k.mem, a, f)
    ensures KeptOutside(old(k.mem), k.mem, old(k.avail) + Tables(sp.own))
  {
    sp' := sp;
    ghost var avail0, mem0 := k.avail, k.mem;
    var m := k.Kalloc();
    if m == 0 {
      return NoPage, sp, {}, 0;
    }
    k.Store(m, ZERO_PAGE);
    f := m;
    r, sp', lost := GrowMap(k, d, a, m, sp, avail0, mem0);
  }

  method MapZeroed(k: Kmem, d: nat, a: nat, m: nat, ghost sp: Space, ghost avail0: set<nat>, ghost mem0: seq<Page>)
    returns (ok: bool, ghost sp': Space)
    requires k.Valid() && Holds(k.first, mem0, sp) && avail0 !! sp.own.Values && m in avail0 && k.avail == avail0 - {m}
    requires k.first <= m < NFRAMES && k.mem == mem0[m := ZERO_PAGE]
    requires sp.own[Dir] == d && a < UPAGES && a !in sp.pt
    modifies k
    ensures Holds(k.first, old(k.mem), sp) && m !in Tables(sp.own)
    ensures Good(k, sp') && Dir in sp'.own && sp'.own[Dir] == d
    ensures Grown(old(k.avail), old(k.mem), sp, k.avail, k.mem, sp', if ok then {m} else {})
    ensures ok ==> RangeMapped(sp, sp', a, a + 1, m, PTE_W + PTE_U)
    ensures !ok ==> sp' == sp && k.avail == old(k.avail) == {} && Tab(Pdx(a)) !in sp.own
    ensures KeptOutside(mem0, k.mem, avail0 + Tables(sp.own))
  {
    ghost var mem1, avail1 := k.mem, k.avail;
    CopyStored(k.first, mem0, sp, m, ZERO_PAGE, mem1, avail1);
    ok, sp' := MapUserPage(k, d, a, m, PTE_W + PTE_U, sp);
    GrowKept(mem0, mem1, k.mem, m, avail0, avail1, Tables(sp.own));
  }

  method GrowMap(k: Kmem, d: nat, a: nat, m: nat, ghost sp: Space, ghost avail0: set<nat>, ghost mem0: seq<Page>)
    returns (r: GrowStep, ghost sp': Space, ghost lost: set<nat>)
    requires k.Valid() && Holds(k.first, mem0, sp) && avail0 !! sp.own.Values && m in avail0 && k.avail == avail0 - {m}
    requires k.first <= m < NFRAMES && k.mem == mem0[m := ZERO_PAGE]
    requires sp.own[Dir] == d && a < UPAGES && a !in sp.pt
    modifies k
    ensures Good(k, sp') && sp'.own[Dir] == d && !r.NoPage?
    ensures r.NoTable? <==> |avail0| == 1 && Tab(Pdx(a)) !in sp.own
    ensures r.NoTable? ==> sp' == sp && k.avail == {} && lost == avail0
    ensures r.Grew? ==> lost == {} && GrewBy(sp, sp', avail0, k.avail, k.mem, a, m)
    ensures KeptOutside(mem0, k.mem, avail0 + Tables(sp.own))
  {
    ghost var mem1, avail1 := k.mem, k.avail;
    var ok;
    ok, sp' := MapZeroed(k, d, a, m, sp, avail0, mem0);
    if ok {
      r, lost := Grew, {};
      GrewAll(k.first, mem1, sp, k.mem, sp', avail0, avail1, k.avail, a, m);
    } else {
      r, lost := NoTable, {m};
      assert avail0 == {m};
    }
  }

  lemma GrowKept(mem0: seq<Page>, mem1: seq<Page>, mem: seq<Page>, m: nat, avail0: set<nat>, avail1: set<nat>,
                 tables: set<nat>)
    requires KeptOutside(mem0, mem1, {m}) && KeptOutside(mem1, mem, avail1 + tables)
    requires m in avail0 && avail1 == avail0 - {m}
    ensures KeptOutside(mem0, mem, avail0 + tables)
  {
    KeptStep(mem0, mem1, mem, {m}, avail1 + tables, avail0 + tables);
  }

  lemma GrewAll(first: nat, mem1: seq<Page>, sp: Space, mem: seq<Page>, sp': Space,
                avail0: set<nat>, avail1: set<nat>, avail: set<nat>, a: nat, m: nat)
    requires Holds(first, mem1, sp) && Holds(first, mem, sp')
    requires sp'.own[Dir] == sp.own[Dir] && a < UPAGES && a !in sp.pt
    requires RangeMapped(sp, sp', a, a + 1, m, PTE_W + PTE_U) && m < NFRAMES && mem1[m] == ZERO_PAGE
    requires m in avail0 && avail1 == avail0 - {m} && avail0 !! sp.own.Values && avail !! sp'.own.Values
    requires Grown(avail1, mem1, sp, avail, mem, sp', {m}) && m !in Tables(sp.own)
    ensures GrewBy(sp, sp', avail0, avail, mem, a, m) && (|avail0| == 1 ==> Tab(Pdx(a)) in sp.own)
  {
    GrewOwn(first, mem1, sp, mem, sp', a, m, PTE_W + PTE_U);
    GrewCount(sp.own.Values, sp'.own.Values, Took(sp.own, sp'.own, Pdx(a), m), avail0, avail, m);
    ZeroHere(sp, sp', mem1, mem, avail1, a, m);
  }

  lemma ZeroHere(sp: Space, sp': Space, mem1: seq<Page>, mem: seq<Page>, avail1: set<nat>, a: nat, m: nat)
    requires RangeMapped(sp, sp', a, a + 1, m, PTE_W + PTE_U) && m < NFRAMES == |mem1| && mem1[m] == ZERO_PAGE
    requires KeptOutside(mem1, mem, avail1 + Tables(sp.own)) && m !in avail1 + Tables(sp.own)
    ensures Zeroed(sp', mem, a)
  {
    var b := a + 1;
    assert RangeAt(sp, sp', a, b, m, PTE_W + PTE_U, a);
    EntryParts(m, PTE_W + PTE_U);
    DivMod(m, PTE_W + PTE_U + 1);
    assert SameFrame(mem1, mem, m);
  }

  // --- the whole loop ---

  ghost predicate GrownAt(sp: Space, sp': Space, mem: seq<Page>, lo: nat, hi: nat, v: nat) {
    && (v in sp'.pt <==> v in sp.pt || lo <= v < hi)
    && (v in sp.pt ==> sp'.pt[v] == sp.pt[v])
    && (lo <= v < hi ==> Zeroed(sp', mem, v))
  }

  /** The pages from `lo` up to `hi` have been added, all of them zero. */
  ghost predicate GrownTo(sp: Space, sp': Space, mem: seq<Page>, lo: nat, hi: nat) {
    && (forall v: nat {:trigger GrownAt(sp, sp', mem, lo, hi, v)} :: GrownAt(sp, sp', mem, lo, hi, v))
    && (forall i: nat {:trigger TabAt(sp, sp', lo, hi, i)} :: TabAt(sp, sp', lo, hi, i))
  }

  /** One page more. */
  lemma GrownStep(first: nat, sp: Space, s1: Space, m1: seq<Page>, s2: Space, m2: seq<Page>, lo: nat, a: nat,
                  f: nat, avail: set<nat>)
    requires lo <= a < UPAGES && GrownTo(sp, s1, m1, lo, a) && Holds(first, m1, s1) && avail !! s1.own.Values
    requires RangeMapped(s1, s2, a, a + 1, f, PTE_W + PTE_U) && Zeroed(s2, m2, a) && a !in sp.pt
    requires KeptOutside(m1, m2, avail + Tables(s1.own))
    ensures GrownTo(sp, s2, m2, lo, a + 1)
  {
    var b := a + 1;
    forall v: nat ensures GrownAt(sp, s2, m2, lo, b, v) {
      assert GrownAt(sp, s1, m1, lo, a, v) && RangeAt(s1, s2, a, b, f, PTE_W + PTE_U, v);
      if lo <= v < a {
        StaysZero(first, m1, s1, m2, avail, v);
      }
    }
    forall i: nat ensures TabAt(sp, s2, lo, b, i) { TabsStep(sp, s1, s2, lo, a, i); }
  }

  lemma StaysZero(first: nat, m1: seq<Page>, s1: Space, m2: seq<Page>, avail: set<nat>, v: nat)
    requires Holds(first, m1, s1) && avail !! s1.own.Values && v < UPAGES && v in s1.pt
    requires KeptOutside(m1, m2, avail + Tables(s1.own))
    ensures Frame(s1.pt[v]) < |m1| == |m2| && m2[Frame(s1.pt[v])] == m1[Frame(s1.pt[v])]
  {
    assert PteOk(m1, s1, v) && SlotOk(first, s1.own, User(v));
    var f := s1.own[User(v)];
    assert f in s1.own.Values;
    forall x | x in s1.own && !x.User? ensures s1.own[x] != f { assert Apart(s1.own, x, User(v)); }
    assert SameFrame(m1, m2, f);
  }

  /** What allocuvm does with `n` free frames, by the number of those it needs. */
  ghost predicate Allocated(sp: Space, sp': Space, mem: seq<Page>, lo: nat, hi: nat, n: nat, ok: bool, lost: set<nat>) {
    && hi <= VPAGES
    && (ok <==> Suffices(TabSet(sp.own), lo, hi, n))
    && (ok ==> GrownTo(sp, sp', mem, lo, if n >= Need(TabSet(sp.own), lo, hi) then hi else hi - 1))
    && |lost| == (if Loses(TabSet(sp.own), lo, hi, n) then 1 else 0)
  }

  /** There are enough frames, or one too few and that one for the page table of the last page. */
  ghost predicate Suffices(tabs: set<nat>, lo: nat, hi: nat, n: nat)
    requires hi <= VPAGES
  {
    n >= Need(tabs, lo, hi) || (n == Need(tabs, lo, hi) - 1 && LastNeedsTable(tabs, lo, hi))
  }

  /** How things stand in the loop: all is well, or a page table could not be had for the page before. */
  ghost predicate Standing(tabs: set<nat>, lo: nat, a: nat, hi: nat, avail: nat, n: nat, b: nat) {
    && lo <= b <= a <= hi <= UPAGES
    && (forall q: nat {:trigger StandingAt(tabs, lo, a, avail, n, b, q)} :: StandingAt(tabs, lo, a, avail, n, b, q))
  }

  // Behind a quantifier so that only the lemmas below see it.
  ghost predicate StandingAt(tabs: set<nat>, lo: nat, a: nat, avail: nat, n: nat, b: nat, q: nat) {
    a <= VPAGES &&
    if b == a then avail + Need(tabs, lo, a) == n
    else b == a - 1 && avail == 0 && n == Need(tabs, lo, a) - 1 && LastNeedsTable(tabs, lo, a)
  }

  lemma StandsOpen(tabs: set<nat>, lo: nat, a: nat, hi: nat, avail: nat, n: nat, b: nat)
    requires Standing(tabs, lo, a, hi, avail, n, b)
    ensures b == a || (b == a - 1 && avail == 0)
  {
    assert StandingAt(tabs, lo, a, avail, n, b, 0);
  }

  /** The loop is through. */
  lemma StandsAtEnd(tabs: set<nat>, lo: nat, hi: nat, avail: nat, n: nat, b: nat)
    requires Standing(tabs, lo, hi, hi, avail, n, b)
    ensures Suffices(tabs, lo, hi, n) && b == if n >= Need(tabs, lo, hi) then hi else hi - 1
    ensures b != hi <==> Loses(tabs, lo, hi, n)
  {
    assert StandingAt(tabs, lo, hi, avail, n, b, 0);
    if b == hi { NoneLost(tabs, lo, hi, hi, n); }
  }

  /** The loop has found no frame for page `a`. */
  lemma StandsStill(tabs: set<nat>, lo: nat, a: nat, hi: nat, n: nat, b: nat)
    requires Standing(tabs, lo, a, hi, 0, n, b) && a < hi
    ensures !Suffices(tabs, lo, hi, n)
    ensures b != a <==> Loses(tabs, lo, hi, n)
  {
    assert StandingAt(tabs, lo, a, 0, n, b, 0);
    NeedGrows(tabs, lo, a, hi);
    NeedGrows(tabs, lo, a, hi - 1);
    NeedSnoc(tabs, lo, hi - 1);
    if b == a { NoneLost(tabs, lo, a, hi, n); }
  }

  lemma Stands(sp: Space, s1: Space, lo: nat, a: nat, hi: nat, avail: nat, n: nat)
    requires Standing(TabSet(sp.own), lo, a, hi, avail, n, a) && a < hi && TabAt(sp, s1, lo, a, Pdx(a))
    ensures avail == 1 && Tab(Pdx(a)) !in s1.own ==> Standing(TabSet(sp.own), lo, a + 1, hi, 0, n, a)
    ensures var cost := 1 + (if Tab(Pdx(a)) in s1.own then 0 else 1);
      avail >= cost ==> Standing(TabSet(sp.own), lo, a + 1, hi, avail - cost, n, a + 1)
  {
    var tabs := TabSet(sp.own);
    assert StandingAt(tabs, lo, a, avail, n, a, 0);
    TableThere(sp, s1, lo, a);
    NeedSnoc(tabs, lo, a);
    var b, cost := a + 1, 1 + (if Tab(Pdx(a)) in s1.own then 0 else 1);
    if avail == 1 && Tab(Pdx(a)) !in s1.own {
      forall q: nat ensures StandingAt(tabs, lo, b, 0, n, a, q) {}
    }
    if avail >= cost {
      var rest := avail - cost;
      forall q: nat ensures StandingAt(tabs, lo, b, rest, n, b, q) {}
    }
  }

  lemma StandsFirst(tabs: set<nat>, lo: nat, hi: nat, n: nat)
    requires lo <= hi <= UPAGES
    ensures Standing(tabs, lo, lo, hi, n, n, lo)
  {
    forall q: nat ensures StandingAt(tabs, lo, lo, n, n, lo, q) {}
  }

  /** Every frame is free, in the address space, or in `lost`. */
  ghost predicate Accounted(avail: set<nat>, own: map<Slot, nat>, lost: set<nat>, all: set<nat>) {
    avail + own.Values + lost == all && lost !! avail + own.Values
  }

  /** The loop's invariant: pages from `lo` up to `b` are in place. */
  ghost predicate Growing(avail: set<nat>, mem: seq<Page>, sp: Space, sp': Space, lost: set<nat>, all: set<nat>,
                          lo: nat, a: nat, hi: nat, n: nat, b: nat) {
    forall q: nat {:trigger GrowingAt(avail, mem, sp, sp', lost, all, lo, a, hi, n, b, q)} ::
      GrowingAt(avail, mem, sp, sp', lost, all, lo, a, hi, n, b, q)
  }

  ghost predicate GrowingAt(avail: set<nat>, mem: seq<Page>, sp: Space, sp': Space, lost: set<nat>, all: set<nat>,
                            lo: nat, a: nat, hi: nat, n: nat, b: nat, q: nat) {
    && Standing(TabSet(sp.own), lo, a, hi, |avail|, n, b)
    && GrownTo(sp, sp', mem, lo, b)
    && Accounted(avail, sp'.own, lost, all)
    && |lost| == a - b
  }

  lemma GrowingStarts(avail: set<nat>, mem: seq<Page>, sp: Space, lo: nat, hi: nat)
    requires lo <= hi <= UPAGES
    ensures Growing(avail, mem, sp, sp, {}, avail + sp.own.Values, lo, lo, hi,
                    |avail|, lo)
  {
    var n, all := |avail|, avail + sp.own.Values;
    forall v: nat ensures GrownAt(sp, sp, mem, lo, lo, v) && TabAt(sp, sp, lo, lo, v) {}
    StandsFirst(TabSet(sp.own), lo, hi, n);
    forall q: nat ensures GrowingAt(avail, mem, sp, sp, {}, all, lo, lo, hi, n, lo, q) {}
  }

  lemma GrowingEnds(avail: set<nat>, mem: seq<Page>, sp: Space, sp': Space, lost: set<nat>, all: set<nat>,
                    lo: nat, hi: nat, n: nat, b: nat)
    requires Growing(avail, mem, sp, sp', lost, all, lo, hi, hi, n, b)
    ensures Accounted(avail, sp'.own, lost, all) && Allocated(sp, sp', mem, lo, hi, n, true, lost)
    ensures lo <= b <= hi && GrownTo(sp, sp', mem, lo, b)
  {
    assert GrowingAt(avail, mem, sp, sp', lost, all, lo, hi, hi, n, b, 0);
    StandsAtEnd(TabSet(sp.own), lo, hi, |avail|, n, b);
  }

  lemma GrowingOpen(avail: set<nat>, mem: seq<Page>, sp: Space, sp': Space, lost: set<nat>, all: set<nat>,
                    lo: nat, a: nat, hi: nat, n: nat, b: nat)
    requires Growing(avail, mem, sp, sp', lost, all, lo, a, hi, n, b) && a < hi && a !in sp.pt
    ensures a !in sp'.pt && (avail != {} ==> b == a) && lo <= b <= hi
  {
    assert GrowingAt(avail, mem, sp, sp', lost, all, lo, a, hi, n, b, 0);
    StandsOpen(TabSet(sp.own), lo, a, hi, |avail|, n, b);
    assert GrownAt(sp, sp', mem, lo, b, a);
  }

  method GrowLoop(k: Kmem, d: nat, lo: nat, hi: nat, ghost sp: Space)
    returns (ok: bool, ghost sp': Space, ghost lost: set<nat>, ghost b: nat)
    requires Good(k, sp) && sp.own[Dir] == d && lo <= hi <= UPAGES
    requires forall v: nat | lo <= v < hi :: v !in sp.pt
    modifies k
    ensures Good(k, sp') && sp'.own[Dir] == d
    ensures Accounted(k.avail, sp'.own, lost, old(k.avail) + sp.own.Values)
    ensures Allocated(sp, sp', k.mem, lo, hi, |old(k.avail)|, ok, lost)
    ensures lo <= b <= hi && GrownTo(sp, sp', k.mem, lo, b)
  {
    ghost var n, all := |k.avail|, k.avail + sp.own.Values;
    sp', lost, b := sp, {}, lo;
    var a := lo;
    GrowingStarts(k.avail, k.mem, sp, lo, hi);
    while a < hi
      invariant Good(k, sp') && sp'.own[Dir] == d && lo <= a <= hi
      invariant Growing(k.avail, k.mem, sp, sp', lost, all, lo, a, hi, n, b)
    {
      ok, sp', lost, b := GrowTurn(k, d, a, sp, sp', lost, all, lo, hi, n, b);
      if !ok {
        return;
      }
      a := a + 1;
    }
    GrowingEnds(k.avail, k.mem, sp, sp', lost, all, lo, hi, n, b);
    ok := true;
  }

  method GrowTurn(k: Kmem, d: nat, a: nat, ghost sp: Space, ghost s1: Space, ghost lost: set<nat>, ghost all: set<nat>,
                  ghost lo: nat, ghost hi: nat, ghost n: nat, ghost b: nat)
    returns (ok: bool, ghost sp': Space, ghost lost': set<nat>, ghost b': nat)
    requires Good(k, s1) && s1.own[Dir] == d && lo <= a < hi <= UPAGES && a !in sp.pt
    requires Growing(k.avail, k.mem, sp, s1, lost, all, lo, a, hi, n, b)
    modifies k
    ensures Good(k, sp') && sp'.own[Dir] == d
    ensures ok ==> Growing(k.avail, k.mem, sp, sp', lost', all, lo, a + 1, hi, n, b')
    ensures !ok ==>
      Accounted(k.avail, sp'.own, lost', all) && lo <= b' <= hi && GrownTo(sp, sp', k.mem, lo, b')
    ensures !ok ==> Allocated(sp, sp', k.mem, lo, hi, n, false, lost')
  {
    ghost var m1, a1 := k.mem, k.avail;
    GrowingOpen(a1, m1, sp, s1, lost, all, lo, a, hi, n, b);
    var r;
    ghost var f, l;
    r, sp', l, f := GrowOne(k, d, a, s1);
    lost', b' := lost, b;
    ok := !r.NoPage?;
    if ok {
      if r.Grew? {
        TurnGrew(k.first, sp, s1, m1, a1, sp', k.mem, k.avail, lost, all, lo, a, hi, n, f);
        b' := a + 1;
      } else {
        TurnStuck(k.first, sp, s1, m1, a1, k.mem, lost, all, lo, a, hi, n);
        lost' := l;
      }
    } else {
      TurnFails(k.first, sp, s1, m1, a1, k.mem, lost, all, lo, a, hi, n, b);
    }
  }

  lemma TurnGrew(first: nat, sp: Space, s1: Space, m1: seq<Page>, a1: set<nat>, s2: Space, m2: seq<Page>, a2: set<nat>,
                 lost: set<nat>, all: set<nat>, lo: nat, a: nat, hi: nat, n: nat, f: nat)
    requires Growing(a1, m1, sp, s1, lost, all, lo, a, hi, n, a) && a < hi <= UPAGES && a !in sp.pt
    requires Holds(first, m1, s1) && a1 !! s1.own.Values
    requires GrewBy(s1, s2, a1, a2, m2, a, f) && KeptOutside(m1, m2, a1 + Tables(s1.own))
    ensures Growing(a2, m2, sp, s2, lost, all, lo, a + 1, hi, n, a + 1)
  {
    assert GrowingAt(a1, m1, sp, s1, lost, all, lo, a, hi, n, a, 0);
    assert TabAt(sp, s1, lo, a, Pdx(a));
    Stands(sp, s1, lo, a, hi, |a1|, n);
    GrownStep(first, sp, s1, m1, s2, m2, lo, a, f, a1);
    var b := a + 1;
    forall q: nat ensures GrowingAt(a2, m2, sp, s2, lost, all, lo, b, hi, n, b, q) {}
  }

  lemma TurnStuck(first: nat, sp: Space, s1: Space, m1: seq<Page>, a1: set<nat>, m2: seq<Page>,
                  lost: set<nat>, all: set<nat>, lo: nat, a: nat, hi: nat, n: nat)
    requires Growing(a1, m1, sp, s1, lost, all, lo, a, hi, n, a) && a < hi <= UPAGES
    requires Holds(first, m1, s1) && a1 !! s1.own.Values && |a1| == 1 && Tab(Pdx(a)) !in s1.own
    requires KeptOutside(m1, m2, a1 + Tables(s1.own))
    ensures Growing({}, m2, sp, s1, a1, all, lo, a + 1, hi, n, a)
  {
    assert GrowingAt(a1, m1, sp, s1, lost, all, lo, a, hi, n, a, 0);
    assert TabAt(sp, s1, lo, a, Pdx(a));
    Stands(sp, s1, lo, a, hi, |a1|, n);
    KeepsGrown(first, sp, s1, m1, m2, lo, a, a1);
    var b := a + 1;
    forall q: nat ensures GrowingAt({}, m2, sp, s1, a1, all, lo, b, hi, n, a, q) {}
  }

  lemma TurnFails(first: nat, sp: Space, s1: Space, m1: seq<Page>, a1: set<nat>, m2: seq<Page>,
                  lost: set<nat>, all: set<nat>, lo: nat, a: nat, hi: nat, n: nat, b: nat)
    requires Growing(a1, m1, sp, s1, lost, all, lo, a, hi, n, b) && a < hi <= UPAGES
    requires Holds(first, m1, s1) && a1 == {} && KeptOutside(m1, m2, a1 + Tables(s1.own))
    ensures GrownTo(sp, s1, m2, lo, b) && lo <= b <= hi && Accounted(a1, s1.own, lost, all)
    ensures Allocated(sp, s1, m2, lo, hi, n, false, lost)
  {
    assert GrowingAt(a1, m1, sp, s1, lost, all, lo, a, hi, n, b, 0);
    StandsOpen(TabSet(sp.own), lo, a, hi, |a1|, n, b);
    StandsStill(TabSet(sp.own), lo, a, hi, n, b);
    KeepsGrown(first, sp, s1, m1, m2, lo, b, a1);
  }

  lemma KeepsGrown(first: nat, sp: Space, s1: Space, m1: seq<Page>, m2: seq<Page>, lo: nat, b: nat, avail: set<nat>)
    requires b <= UPAGES && GrownTo(sp, s1, m1, lo, b) && Holds(first, m1, s1) && avail !! s1.own.Values
    requires KeptOutside(m1, m2, avail + Tables(s1.own))
    ensures GrownTo(sp, s1, m2, lo, b)
  {
    forall v: nat ensures GrownAt(sp, s1, m2, lo, b, v) {
      assert GrownAt(sp, s1, m1, lo, b, v);
      if lo <= v < b { StaysZero(first, m1, s1, m2, avail, v); }
    }
  }

  /** deallocuvm takes back exactly the pages that were added. */
  lemma TakenBack(first: nat, mem1: seq<Page>, sp: Space, s1: Space, s2: Space, lo: nat, b: nat, hi: nat)
    requires GrownTo(sp, s1, mem1, lo, b) && lo <= b <= hi <= UPAGES && AllDealt(s1, s2, lo, hi)
    requires forall v: nat | lo <= v < hi :: v !in sp.pt
    ensures s2.pt == sp.pt
  {
    forall v: nat ensures (v in s2.pt <==> v in sp.pt) && (v in sp.pt ==> s2.pt[v] == sp.pt[v]) {
      assert Dealt(s1, s2, lo, hi, v) && GrownAt(sp, s1, mem1, lo, b, v);
      if lo <= v < b {
        assert TabAt(sp, s1, lo, b, Pdx(lo));
        PdxUp(lo, b - 1);
        assert Tab(Pdx(lo)) in s1.own && !Missed(s1.own, lo, v);
      }
    }
  }

  /** A process can read and write page `v`, and finds it all zero. */
  ghost predicate ZerosSeen(mem: seq<Page>, d: nat, v: nat) {
    && d < |mem| && v < VPAGES
    && var a := Translate(mem, d, v);
      && a.To? && a.user && a.write && a.frame < |mem| && forall j: nat | j < NWORDS :: mem[a.frame][j] == 0
  }

  lemma ZerosAreSeen(first: nat, mem: seq<Page>, sp: Space, sp': Space, lo: nat, b: nat, v: nat)
    requires Holds(first, mem, sp') && GrownTo(sp, sp', mem, lo, b) && lo <= v < VPAGES && v in sp'.pt && v !in sp.pt
    ensures ZerosSeen(mem, sp'.own[Dir], v)
  {
    assert GrownAt(sp, sp', mem, lo, b, v);
    Translates(first, mem, sp', v);
    Bits(sp'.pt[v], Flags(sp'.pt[v]));
  }

  /** allocuvm. With enough free frames the process gets all its new pages. With one too few it is
      told so and keeps the pages it had, except when the frame that is lacking is for the page table
      of the very last page: then the call succeeds without that page, and its frame is lost. */
  method Allocuvm(k: Kmem, d: nat, oldsz: nat, newsz: nat, ghost sp: Space)
    returns (sz: nat, ghost sp': Space, ghost lost: set<nat>)
    requires Good(k, sp) && sp.own[Dir] == d && oldsz <= KERNBASE
    requires forall v: nat | PagesUp(oldsz) <= v < PagesUp(newsz) :: v !in sp.pt
    modifies k
    ensures Good(k, sp') && sp'.own[Dir] == d
    ensures Accounted(k.avail, sp'.own, lost, old(k.avail) + sp.own.Values)
    ensures newsz >= KERNBASE ==> sz == 0 && sp' == sp && lost == {}
    ensures newsz < oldsz && newsz < KERNBASE ==> sz == oldsz && sp' == sp && lost == {}
    ensures oldsz <= newsz < KERNBASE ==>
      && PagesUp(newsz) <= VPAGES
      && Allocated(sp, sp', k.mem, PagesUp(oldsz), PagesUp(newsz), |old(k.avail)|, sz == newsz, lost)
      && (sz != newsz ==> sz == 0 && sp'.pt == sp.pt)
      && (sz == newsz ==> forall v: nat | PagesUp(oldsz) <= v < PagesUp(newsz) && v in sp'.pt :: ZerosSeen(k.mem, d, v))
  {
    sp', lost := sp, {};
    if newsz >= KERNBASE {
      return 0, sp', lost;
    }
    if newsz < oldsz {
      return oldsz, sp', lost;
    }
    Monotone(oldsz, newsz);
    var ok;
    ghost var b;
    ok, sp', lost, b := GrowLoop(k, d, PagesUp(oldsz), PagesUp(newsz), sp);
    if ok {
      forall v: nat | PagesUp(oldsz) <= v < PagesUp(newsz) && v in sp'.pt ensures ZerosSeen(k.mem, d, v) {
        ZerosAreSeen(k.first, k.mem, sp, sp', PagesUp(oldsz), b, v);
      }
      return newsz, sp', lost;
    }
    ghost var s1, m1, a1 := sp', k.mem, k.avail;
    var left;
    left, sp' := Deallocuvm(k, d, newsz, oldsz, sp');
    TakenBack(k.first, m1, sp, s1, sp', PagesUp(oldsz), b, PagesUp(newsz));
    sz := 0;
  }

  /** A directory and one free frame: allocuvm reports one page and maps none, and the frame is lost. */
  method PageMissing() returns (k: Kmem, sz: nat, ghost sp: Space, ghost lost: set<nat>)
    ensures sz == PGSIZE && Good(k, sp) && sp.pt == map[] && |lost| == 1
  {
    var d;
    ghost var sp0;
    k, d, sp0 := EmptyDir(2);
    OnePageNeedsTwo(sp0.own, d);
    sz, sp, lost := Allocuvm(k, d, 0, PGSIZE, sp0);
    NothingGrown(sp0, sp, k.mem);
  }

  lemma OnePageNeedsTwo(own: map<Slot, nat>, d: nat)
    requires own == map[Dir := d]
    ensures PagesUp(0) == 0 && PagesUp(PGSIZE) == 1 && Need(TabSet(own), 0, 1) == 2
    ensures Suffices(TabSet(own), 0, 1, 1) && Loses(TabSet(own), 0, 1, 1)
  {
    var tabs := TabSet(own);
    assert tabs == {} && LastNeedsTable(tabs, 0, 1);
    assert Need(tabs, 0, 1) == 2;
  }

  lemma NothingGrown(sp: Space, sp': Space, mem: seq<Page>)
    requires sp.pt == map[] && GrownTo(sp, sp', mem, 0, 0)
    ensures sp'.pt == map[]
  {
    forall v: nat ensures v !in sp'.pt { assert GrownAt(sp, sp', mem, 0, 0, v); }
  }
}
