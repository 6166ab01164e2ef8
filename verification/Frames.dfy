/** How many frames it takes to map pages: one for each page, and one for each page table they lack. */
module Frames {
  import opened Params
  import opened Kalloc
  import opened Vm

  ghost function TabSet(own: map<Slot, nat>): set<nat> {
    set i: nat | i < NWORDS && Tab(i) in own
  }

  /** The frames it takes to map the pages from `a` up to `hi`: one each, and the tables they lack. */
  ghost function Need(tabs: set<nat>, a: nat, hi: nat): nat
    requires hi <= VPAGES
    decreases hi - a
  {
    if a >= hi then 0
    else 1 + (if Pdx(a) in tabs then 0 else 1) + Need(tabs + {Pdx(a)}, a + 1, hi)
  }

  /** The last of the pages from `lo` up to `hi` is the first to need its page table. */
  ghost predicate LastNeedsTable(tabs: set<nat>, lo: nat, hi: nat) {
    lo < hi <= VPAGES && Pdx(hi - 1) !in tabs && (hi - 1 == lo || Ptx(hi - 1) == 0)
  }

  /** With `n` free frames, mapping the pages from `lo` up to `hi` one by one gets to a page for which
      there is a frame left, but none for its page table. */
  ghost predicate Loses(tabs: set<nat>, lo: nat, hi: nat, n: nat) {
    hi <= VPAGES && exists b: nat :: lo < b <= hi && n == Need(tabs, lo, b) - 1 && LastNeedsTable(tabs, lo, b)
  }

  /** One page more costs a frame, and another if it needs a page table. */
  lemma {:induction false} NeedSnoc(tabs: set<nat>, lo: nat, a: nat)
    requires lo <= a < VPAGES
    ensures Need(tabs, lo, a + 1) == Need(tabs, lo, a) + 1 + (if LastNeedsTable(tabs, lo, a + 1) then 1 else 0)
    decreases a - lo
  {
    if lo < a {
      NeedSnoc(tabs + {Pdx(lo)}, lo + 1, a);
      NextTable(lo, a);
      if Pdx(a) == Pdx(lo) { SameTable(lo, a); }
      if lo + 1 < a { NextTable(lo + 1, a); }
    }
  }

  lemma SameTable(lo: nat, a: nat)
    requires lo < a < VPAGES && Pdx(a) == Pdx(lo)
    ensures Ptx(a) != 0
  {
  }

  lemma NextTable(lo: nat, a: nat)
    requires lo < a < VPAGES
    ensures Pdx(lo) <= Pdx(a) && (Pdx(a) <= Pdx(a - 1) <==> Ptx(a) != 0)
  {
  }

  lemma {:induction false} NeedGrows(tabs: set<nat>, lo: nat, a: nat, b: nat)
    requires lo <= a <= b <= VPAGES
    ensures Need(tabs, lo, a) + (b - a) <= Need(tabs, lo, b)
    decreases b - a
  {
    if a < b {
      NeedGrows(tabs, lo, a, b - 1);
      NeedSnoc(tabs, lo, b - 1);
    }
  }

  /** No frame is lost if the frames last for the pages up to `a` and run out there, or there are no more
      pages. */
  lemma NoneLost(tabs: set<nat>, lo: nat, a: nat, hi: nat, n: nat)
    requires lo <= a <= hi <= VPAGES && n >= Need(tabs, lo, a)
    requires a < hi ==> n == Need(tabs, lo, a)
    ensures !Loses(tabs, lo, hi, n)
  {
    forall b: nat | lo < b <= hi && LastNeedsTable(tabs, lo, b) ensures n != Need(tabs, lo, b) - 1 {
      if b <= a {
        NeedGrows(tabs, lo, b, a);
      } else {
        NeedSnoc(tabs, lo, b - 1);
        NeedGrows(tabs, lo, a, b - 1);
      }
    }
  }

  lemma OwnAfter(first: nat, mem: seq<Page>, sp: Space, mem': seq<Page>, sp': Space, a: nat, m: nat, perm: nat)
    requires Holds(first, mem, sp) && Holds(first, mem', sp') && a < UPAGES && m < VPAGES
    requires sp'.own[Dir] == sp.own[Dir] && RangeMapped(sp, sp', a, a + 1, m, perm)
    ensures User(a) in sp'.own && sp'.own[User(a)] == m && Tab(Pdx(a)) in sp'.own
    ensures TabSet(sp'.own) == TabSet(sp.own) + {Pdx(a)}
    ensures sp'.own == sp.own[User(a) := m][Tab(Pdx(a)) := sp'.own[Tab(Pdx(a))]]
  {
    var b, i := a + 1, Pdx(a);
    assert RangeAt(sp, sp', a, b, m, perm, a) && PteOk(mem', sp', a) && TabAt(sp, sp', a, b, i);
    EntryParts(m, perm);
    var own := sp.own[User(a) := m][Tab(i) := sp'.own[Tab(i)]];
    forall x ensures x in sp'.own <==> x in own {
      if x.Tab? { assert TabAt(sp, sp', a, b, x.i); }
      if x.User? { assert RangeAt(sp, sp', a, b, m, perm, x.v); }
    }
    forall x | x in own ensures sp'.own[x] == own[x] {
      if x.Tab? { assert TabAt(sp, sp', a, b, x.i); }
      if x.User? { assert RangeAt(sp, sp', a, b, m, perm, x.v); }
    }
    forall j: nat ensures Tab(j) in sp'.own <==> Tab(j) in sp.own || j == i { assert TabAt(sp, sp', a, b, j); }
  }

  // Frames `took` went from the free ones into an address space that had `vals`.
  lemma Taken(avail: set<nat>, avail': set<nat>, vals: set<nat>, took: set<nat>)
    requires avail !! vals && took !! vals && avail' !! vals + took && avail' + (vals + took) == avail + vals
    ensures took <= avail && avail' == avail - took
  {
    forall x ensures x in avail' <==> x in avail - took {
      assert x in avail' + (vals + took) <==> x in avail + vals;
    }
    forall x | x in took ensures x in avail {
      assert x in avail' + (vals + took);
    }
  }

  lemma Fewer(avail: set<nat>, avail': set<nat>, vals: set<nat>, took: set<nat>)
    requires avail !! vals && took !! vals && avail' !! vals + took && avail' + (vals + took) == avail + vals
    ensures |avail'| == |avail| - |took|
  {
    Taken(avail, avail', vals, took);
    assert avail == (avail - took) + took;
  }

  /** The frames that mapping page `a` at frame `m` takes. */
  ghost function Took(own: map<Slot, nat>, own': map<Slot, nat>, i: nat, m: nat): set<nat> {
    if Tab(i) in own || Tab(i) !in own' then {m} else {m, own'[Tab(i)]}
  }

  lemma TookValues(own: map<Slot, nat>, own': map<Slot, nat>, a: nat, i: nat, m: nat)
    requires User(a) !in own && Tab(i) in own' && (Tab(i) in own ==> own'[Tab(i)] == own[Tab(i)])
    requires own' == own[User(a) := m][Tab(i) := own'[Tab(i)]]
    ensures own'.Values == own.Values + Took(own, own', i, m)
  {
    ValuesAdd(own, User(a), m);
    if Tab(i) in own {
      assert own' == own[User(a) := m];
    } else {
      ValuesAdd(own[User(a) := m], Tab(i), own'[Tab(i)]);
    }
  }

  lemma TookApart(own: map<Slot, nat>, own': map<Slot, nat>, a: nat, i: nat, m: nat)
    requires User(a) in own' && own'[User(a)] == m && m !in own.Values && Tab(i) in own'
    requires forall x | x in own :: x in own' && own'[x] == own[x]
    requires forall x :: Apart(own', x, Tab(i))
    ensures Took(own, own', i, m) !! own.Values && |Took(own, own', i, m)| == if Tab(i) in own then 1 else 2
  {
    assert Apart(own', User(a), Tab(i));
    if Tab(i) !in own {
      forall x | x in own ensures own[x] != own'[Tab(i)] { assert Apart(own', x, Tab(i)); }
    }
  }

  lemma GrewOwn(first: nat, mem1: seq<Page>, sp: Space, mem: seq<Page>, sp': Space, a: nat, m: nat, perm: nat)
    requires Holds(first, mem1, sp) && Holds(first, mem, sp')
    requires sp'.own[Dir] == sp.own[Dir] && a < UPAGES && a !in sp.pt
    requires RangeMapped(sp, sp', a, a + 1, m, perm) && m < NFRAMES && m !in sp.own.Values
    ensures var took := Took(sp.own, sp'.own, Pdx(a), m);
      && sp'.own.Values == sp.own.Values + took && took !! sp.own.Values
      && |took| == if Tab(Pdx(a)) in sp.own then 1 else 2
    ensures TabSet(sp'.own) == TabSet(sp.own) + {Pdx(a)}
  {
    var i, b := Pdx(a), a + 1;
    OwnAfter(first, mem1, sp, mem, sp', a, m, perm);
    assert PteOk(mem1, sp, a) && TabAt(sp, sp', a, b, i) && RangeAt(sp, sp', a, b, m, perm, a);
    TookValues(sp.own, sp'.own, a, i, m);
    forall x ensures Apart(sp'.own, x, Tab(i)) {}
    TookApart(sp.own, sp'.own, a, i, m);
  }

  lemma GrewCount(vals: set<nat>, vals': set<nat>, took: set<nat>, avail0: set<nat>, avail: set<nat>, m: nat)
    requires vals' == vals + took && took !! vals && avail0 !! vals && avail !! vals' && m in avail0
    requires avail + vals' == (avail0 - {m}) + vals + {m}
    ensures avail + vals' == avail0 + vals && |avail| == |avail0| - |took|
  {
    Fewer(avail0, avail, vals, took);
  }

  /** Whether the page table of the next page is there already. */
  lemma TableThere(sp: Space, s1: Space, lo: nat, a: nat)
    requires lo <= a < VPAGES && TabAt(sp, s1, lo, a, Pdx(a))
    ensures Tab(Pdx(a)) in s1.own <==> !LastNeedsTable(TabSet(sp.own), lo, a + 1)
  {
    if lo < a { NextTable(lo, a); }
  }

  lemma TabsStep(sp: Space, s1: Space, s2: Space, lo: nat, a: nat, i: nat)
    requires lo <= a < VPAGES && TabAt(sp, s1, lo, a, i) && TabAt(s1, s2, a, a + 1, i)
    ensures TabAt(sp, s2, lo, a + 1, i)
  {
    if lo < a {
      PdxNext(a - 1);
      PdxUp(lo, a - 1);
    }
  }

  /** Pages 0 up to `i` have been mapped into what was `sp`, with `n` free frames at first and `avail` now. */
  ghost predicate Counted(sp: Space, sp': Space, n: nat, avail: nat, i: nat) {
    forall q: nat {:trigger CountedAt(sp, sp', n, avail, i, q)} :: CountedAt(sp, sp', n, avail, i, q)
  }

  ghost predicate CountedAt(sp: Space, sp': Space, n: nat, avail: nat, i: nat, q: nat) {
    && i <= VPAGES && avail + Need(TabSet(sp.own), 0, i) == n
    && forall j: nat {:trigger TabAt(sp, sp', 0, i, j)} :: TabAt(sp, sp', 0, i, j)
  }

  lemma CountedFirst(sp: Space, n: nat)
    ensures Counted(sp, sp, n, n, 0)
  {
    forall j: nat ensures TabAt(sp, sp, 0, 0, j) {}
    forall q: nat ensures CountedAt(sp, sp, n, n, 0, q) {}
  }

  /** Mapping page `a` adds the table it needs and no other. */
  ghost predicate TabAdded(s1: Space, s2: Space, a: nat) {
    forall j: nat {:trigger TabAt(s1, s2, a, a + 1, j)} :: TabAt(s1, s2, a, a + 1, j)
  }

  lemma CountedNext(sp: Space, s1: Space, s2: Space, n: nat, avail: nat, a: nat, avail': nat)
    requires Counted(sp, s1, n, avail, a) && a < VPAGES && TabAdded(s1, s2, a)
    requires avail' == avail - (1 + if Tab(Pdx(a)) in s1.own then 0 else 1)
    ensures Counted(sp, s2, n, avail', a + 1)
  {
    assert CountedAt(sp, s1, n, avail, a, 0);
    assert TabAt(sp, s1, 0, a, Pdx(a));
    TableThere(sp, s1, 0, a);
    NeedSnoc(TabSet(sp.own), 0, a);
    var b := a + 1;
    forall j: nat ensures TabAt(sp, s2, 0, b, j) {
      assert TabAt(sp, s1, 0, a, j) && TabAt(s1, s2, a, b, j);
      TabsStep(sp, s1, s2, 0, a, j);
    }
    forall q: nat ensures CountedAt(sp, s2, n, avail', b, q) {}
  }

  lemma CountedAll(sp: Space, s1: Space, n: nat, avail: nat, p: nat)
    requires Counted(sp, s1, n, avail, p)
    ensures p <= VPAGES && n >= Need(TabSet(sp.own), 0, p)
  {
    assert CountedAt(sp, s1, n, avail, p, 0);
  }

  /** No frame for page `v`. */
  lemma CountedOut(sp: Space, s1: Space, n: nat, v: nat, p: nat)
    requires Counted(sp, s1, n, 0, v) && v < p <= VPAGES
    ensures n < Need(TabSet(sp.own), 0, p) && !Loses(TabSet(sp.own), 0, p, n)
  {
    assert CountedAt(sp, s1, n, 0, v, 0);
    NeedGrows(TabSet(sp.own), 0, v, p);
    NoneLost(TabSet(sp.own), 0, v, p, n);
  }

  /** A frame for page `v`, but none for its table. */
  lemma CountedShort(sp: Space, s1: Space, n: nat, v: nat, p: nat)
    requires Counted(sp, s1, n, 1, v) && v < p <= VPAGES && Tab(Pdx(v)) !in s1.own
    ensures n < Need(TabSet(sp.own), 0, p) && Loses(TabSet(sp.own), 0, p, n)
  {
    assert CountedAt(sp, s1, n, 1, v, 0);
    assert TabAt(sp, s1, 0, v, Pdx(v));
    TableThere(sp, s1, 0, v);
    NeedSnoc(TabSet(sp.own), 0, v);
    NeedGrows(TabSet(sp.own), 0, v + 1, p);
    assert LastNeedsTable(TabSet(sp.own), 0, v + 1);
  }

  /** An address space without user pages owns one frame for its directory and one for each page table. */
  lemma {:induction false} SlotsCard(own: map<Slot, nat>)
    requires Dir in own && (forall s, t :: Apart(own, s, t))
    requires forall s | s in own :: !s.User? && (s.Tab? ==> s.i < NWORDS)
    ensures |own.Values| == 1 + |TabSet(own)|
    decreases |own|
  {
    if i: nat :| Tab(i) in own {
      var own' := own - {Tab(i)};
      ValuesDrop(own, Tab(i));
      assert TabSet(own') == TabSet(own) - {i} && i in TabSet(own);
      forall s, t ensures Apart(own', s, t) { assert Apart(own, s, t); }
      SlotsCard(own');
      assert own.Values == own'.Values + {own[Tab(i)]};
      assert TabSet(own) == TabSet(own') + {i};
    } else {
      forall s | s in own ensures s == Dir {}
      assert own.Values == {own[Dir]} && TabSet(own) == {};
    }
  }

  // --- the kernel's part ---

  /** The page tables of the kernel's mappings: those of KERNBASE up to PHYSTOP, and of the devices. */
  ghost predicate KernelTab(j: nat) {
    512 <= j < 568 || 1016 <= j < NWORDS
  }

  ghost function KernelTabs(): set<nat> {
    set j: nat | j < NWORDS && KernelTab(j)
  }

  /** The frames setupkvm takes: its directory and those tables. */
  const KFRAMES: nat := 65

  ghost function Between(lo: nat, hi: nat): (s: set<nat>)
    requires lo <= hi
    ensures |s| == hi - lo && forall x: nat :: x in s <==> lo <= x < hi
    decreases hi - lo
  {
    if lo == hi then {} else Between(lo + 1, hi) + {lo}
  }

  lemma KernelTabsCard()
    ensures |KernelTabs()| == KFRAMES - 1
  {
    TwoIntervals(KernelTabs(), 512, 568, 1016, NWORDS);
  }

  lemma TwoIntervals(s: set<nat>, a: nat, b: nat, c: nat, d: nat)
    requires a <= b <= c <= d && forall x: nat :: x in s <==> a <= x < b || c <= x < d
    ensures |s| == (b - a) + (d - c)
  {
    assert s == Between(a, b) + Between(c, d);
    assert Between(a, b) !! Between(c, d);
  }

  /** The tables that the first `i` lines of kmap need. */
  ghost predicate LineTab(dp: nat, i: nat, j: nat)
    requires dp < NFRAMES
  {
    || (i >= 1 && j == 512)
    || (i >= 2 && 512 <= j <= Pdx(UPAGES + dp - 1))
    || (i >= 3 && 512 <= j < 568)
    || (i >= 4 && 1016 <= j < NWORDS)
  }

  ghost predicate LineTabAt(dp: nat, i: nat, own: map<Slot, nat>, j: nat)
    requires dp < NFRAMES
  {
    Tab(j) in own <==> LineTab(dp, i, j)
  }

  ghost predicate LineTabs(dp: nat, i: nat, own: map<Slot, nat>) {
    dp < NFRAMES && forall j: nat {:trigger LineTabAt(dp, i, own, j)} :: LineTabAt(dp, i, own, j)
  }

  /** Mapping a line, wholly or up to page `hi`, adds the tables it needs so far. */
  lemma LineTabsNext(dp: nat, i: nat, sp: Space, sp': Space, hi: nat, f: nat, perm: nat)
    requires EXT < dp < NFRAMES && i < 4 && LineTabs(dp, i, sp.own) && LineLo(dp, i) <= hi <= LineHi(dp, i)
    requires RangeMapped(sp, sp', LineLo(dp, i), hi, f, perm)
    ensures hi == LineHi(dp, i) ==> LineTabs(dp, i + 1, sp'.own)
    ensures TabSet(sp'.own) <= KernelTabs()
    ensures hi < LineHi(dp, i) ==> Pdx(hi) in KernelTabs()
  {
    var lo, n := LineLo(dp, i), i + 1;
    forall j: nat ensures hi == LineHi(dp, i) ==> LineTabAt(dp, n, sp'.own, j) {
      assert TabAt(sp, sp', lo, hi, j) && LineTabAt(dp, i, sp.own, j);
    }
    forall j: nat | Tab(j) in sp'.own ensures KernelTab(j) {
      assert TabAt(sp, sp', lo, hi, j) && LineTabAt(dp, i, sp.own, j);
    }
  }

  lemma AllLineTabs(dp: nat, own: map<Slot, nat>)
    requires EXT < dp < NFRAMES && LineTabs(dp, 4, own)
    ensures TabSet(own) == KernelTabs()
  {
    forall j: nat | j < NWORDS ensures Tab(j) in own <==> KernelTab(j) { assert LineTabAt(dp, 4, own, j); }
  }

  // --- a new address space ---

  ghost predicate NoUserTabs(tabs: set<nat>) {
    forall j | j in tabs :: j >= 512
  }

  /** p pages from 0 on need p frames and one for each 1024 pages begun. */
  lemma {:induction false} NeedFromZero(tabs: set<nat>, p: nat)
    requires NoUserTabs(tabs) && p <= UPAGES
    ensures Need(tabs, 0, p) == p + (p + NWORDS - 1) / NWORDS
  {
    if p > 0 {
      NeedFromZero(tabs, p - 1);
      NeedSnoc(tabs, 0, p - 1);
      Chunk(p - 1);
    }
  }

  lemma Chunk(a: nat)
    requires a < UPAGES
    ensures Pdx(a) < 512 && (Ptx(a) == 0 <==> a % NWORDS == 0)
    ensures (a + 1 + NWORDS - 1) / NWORDS == (a + NWORDS - 1) / NWORDS + if a % NWORDS == 0 then 1 else 0
  {
  }

  /** Which numbers of frames make such a mapping lose one. */
  lemma LosesFromZero(tabs: set<nat>, p: nat, n: nat)
    requires NoUserTabs(tabs) && p <= UPAGES
    ensures Loses(tabs, 0, p, n) <==> n < Need(tabs, 0, p) && n % (NWORDS + 1) == 1
  {
    if Loses(tabs, 0, p, n) {
      var b: nat :| 0 < b <= p && n == Need(tabs, 0, b) - 1 && LastNeedsTable(tabs, 0, b);
      NeedFromZero(tabs, b);
      NeedGrows(tabs, 0, b, p);
      Chunk(b - 1);
      Lossy(b, (b - 1) / NWORDS);
    }
    if n < Need(tabs, 0, p) && n % (NWORDS + 1) == 1 {
      NeedFromZero(tabs, p);
      var b := LossAt(n, p);
      NeedFromZero(tabs, b);
      Chunk(b - 1);
      assert LastNeedsTable(tabs, 0, b);
    }
  }

  lemma Lossy(b: nat, q: nat)
    requires b == NWORDS * q + 1
    ensures b + (b + NWORDS - 1) / NWORDS - 1 == (NWORDS + 1) * q + 1
    ensures (b + (b + NWORDS - 1) / NWORDS - 1) % (NWORDS + 1) == 1
  {
    assert (b + NWORDS - 1) / NWORDS == q + 1;
  }

  lemma LossAt(n: nat, p: nat) returns (b: nat)
    requires n % (NWORDS + 1) == 1 && n < p + (p + NWORDS - 1) / NWORDS
    ensures 0 < b <= p && (b - 1) % NWORDS == 0 && n == b + (b + NWORDS - 1) / NWORDS - 1
  {
    var q := n / (NWORDS + 1);
    b := NWORDS * q + 1;
    Lossy(b, q);
    var c := (p + NWORDS - 1) / NWORDS;
    assert p <= NWORDS * q ==> c <= q;
  }
}
