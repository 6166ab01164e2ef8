/** vm.c: building, shrinking, copying and tearing down whole address spaces. */
module Uvm {
  import opened Params
  import opened Kalloc
  import opened Vm
  import opened Frames

  lemma NoUserFrames(lo: nat, hi: nat, f: nat)
    requires lo >= UPAGES
    ensures UserFrames(lo, hi, f) == {}
    decreases hi - lo
  {
  }

  /** A directory with the kernel's mappings, or 0 if there are fewer than KFRAMES frames. Then all of them
      are `lost`: they stay allocated, because the source gives none of them back. */
  method Setupkvm(k: Kmem, dp: nat) returns (d: nat, ghost sp: Space, ghost lost: set<nat>)
    requires k.Valid() && EXT < dp < NFRAMES
    modifies k
    ensures k.Valid() && KeptOutside(old(k.mem), k.mem, old(k.avail))
    ensures d != 0 <==> |old(k.avail)| >= KFRAMES
    ensures d != 0 ==> Good(k, sp) && sp.own[Dir] == d && KernelMapped(dp, 4, sp) && NoUser(sp)
    ensures d != 0 ==> d < NFRAMES && forall v: nat | v < VPAGES :: KernelSeen(k.mem, d, dp, v)
    ensures d != 0 ==> lost == {} && k.avail + sp.own.Values == old(k.avail)
    ensures d != 0 ==> |k.avail| == |old(k.avail)| - KFRAMES && TabSet(sp.own) == KernelTabs()
    ensures d == 0 ==> k.avail == {} && lost == old(k.avail)
  {
    d := k.Kalloc();
    if d == 0 {
      return 0, Space(map[], map[]), {};
    }
    k.Store(d, ZERO_PAGE);
    ghost var m := k.mem;
    var ok;
    ok, sp := SetupLines(k, d, dp);
    KeptStep(old(k.mem), m, k.mem, {d}, old(k.avail), old(k.avail));
    if !ok {
      TooFew(k.first, k.mem, sp);
      assert sp.own.Values == old(k.avail);
      return 0, sp, sp.own.Values;
    }
    lost := {};
    AllLineTabs(dp, sp.own);
    forall v: nat | v < VPAGES ensures KernelSeen(k.mem, d, dp, v) { KernelIsSeen(k.first, k.mem, sp, dp, v); }
    SetupCount(k.first, k.mem, sp, k.avail, old(k.avail));
  }

  /** What the processor sees under a directory with the kernel's part and nothing else: physical memory at
      KERNBASE with the text read-only, devices at the top, all of it for the kernel alone. */
  ghost predicate KernelSeen(mem: seq<Page>, d: nat, dp: nat, v: nat) {
    d < |mem| && v < VPAGES ==>
      Translate(mem, d, v) ==
        if UPAGES <= v < UPAGES + NFRAMES then To(v - UPAGES, !(EXT <= v - UPAGES < dp), false)
        else if v >= DEV then To(v, true, false)
        else Fault
  }

  lemma AccessIs(f: nat, flags: nat)
    requires f < VPAGES && flags < 8
    ensures AccessOf(Entry(f, flags)) == To(f, flags / 2 % 2 == 1, flags / 4 % 2 == 1)
  {
    EntryParts(f, flags);
    Bits(Entry(f, flags), Flags(Entry(f, flags)));
  }

  lemma KernelIsSeen(first: nat, mem: seq<Page>, sp: Space, dp: nat, v: nat)
    requires Holds(first, mem, sp) && KernelMapped(dp, 4, sp) && EXT < dp < NFRAMES && v < VPAGES
    requires v < UPAGES ==> v !in sp.pt
    ensures KernelSeen(mem, sp.own[Dir], dp, v)
  {
    Translates(first, mem, sp, v);
    assert KernelAt(dp, 4, sp, v);
    if UPAGES <= v < UPAGES + NFRAMES {
      AccessIs(v - UPAGES, if EXT <= v - UPAGES < dp then 0 else PTE_W);
    } else if v >= DEV {
      AccessIs(v, PTE_W);
    }
  }

  /** The loop of setupkvm, over the lines of kmap. */
  method SetupLines(k: Kmem, d: nat, dp: nat) returns (ok: bool, ghost sp: Space)
    requires k.Valid() && EXT < dp < NFRAMES && k.first <= d < NFRAMES && d !in k.avail && k.mem[d] == ZERO_PAGE
    modifies k
    ensures Good(k, sp) && sp.own[Dir] == d && NoUser(sp) && k.avail + sp.own.Values == old(k.avail) + {d}
    ensures KeptOutside(old(k.mem), k.mem, old(k.avail) + {d})
    ensures ok ==> KernelMapped(dp, 4, sp) && LineTabs(dp, 4, sp.own)
    ensures !ok ==> k.avail == {} && TabSet(sp.own) < KernelTabs()
  {
    ghost var av, m := k.avail, k.mem;
    ghost var sp0 := Space(map[Dir := d], map[]);
    sp := sp0;
    DirHolds(k.first, k.mem, d);
    assert sp0.own.Values == {d} && Tables(sp0.own) == {d};
    forall j: nat ensures LineTabAt(dp, 0, sp0.own, j) {}
    var i := 0;
    while i < |KmapTable(dp)|
      invariant i <= 4 && Good(k, sp) && sp.own[Dir] == d && KernelMapped(dp, i, sp) && NoUser(sp)
      invariant LineTabs(dp, i, sp.own) && Grown(av, m, sp0, k.avail, k.mem, sp, {})
    {
      ok, sp := MapLine(k, d, dp, i, sp, av, m, sp0);
      if !ok {
        return;
      }
      i := i + 1;
    }
    ok := true;
  }

  /** What an address space of the kernel's mappings owns. */
  lemma KernelOwns(first: nat, mem: seq<Page>, sp: Space)
    requires Holds(first, mem, sp) && NoUser(sp)
    ensures |sp.own.Values| == 1 + |TabSet(sp.own)|
  {
    forall s | s in sp.own ensures !s.User? && (s.Tab? ==> s.i < NWORDS) {
      assert SlotOk(first, sp.own, s);
      assert s.User? ==> PteOk(mem, sp, s.v);
    }
    SlotsCard(sp.own);
  }

  lemma SetupCount(first: nat, mem: seq<Page>, sp: Space, avail: set<nat>, avail0: set<nat>)
    requires Holds(first, mem, sp) && NoUser(sp) && TabSet(sp.own) == KernelTabs()
    requires avail !! sp.own.Values && avail + sp.own.Values == avail0
    ensures |avail| == |avail0| - KFRAMES
  {
    KernelOwns(first, mem, sp);
    KernelTabsCard();
  }

  lemma TooFew(first: nat, mem: seq<Page>, sp: Space)
    requires Holds(first, mem, sp) && NoUser(sp) && TabSet(sp.own) < KernelTabs()
    ensures |sp.own.Values| < KFRAMES
  {
    KernelOwns(first, mem, sp);
    KernelTabsCard();
    var t, s := KernelTabs(), TabSet(sp.own);
    assert t == s + (t - s) && t - s != {};
  }

  method MapLine(k: Kmem, d: nat, dp: nat, i: nat, ghost sp: Space, ghost av: set<nat>, ghost m: seq<Page>,
                 ghost sp0: Space)
    returns (ok: bool, ghost sp': Space)
    requires EXT < dp < NFRAMES && i < 4 && Good(k, sp) && sp.own[Dir] == d && LineTabs(dp, i, sp.own)
    requires KernelMapped(dp, i, sp) && NoUser(sp) && Grown(av, m, sp0, k.avail, k.mem, sp, {})
    modifies k
    ensures Good(k, sp') && sp'.own[Dir] == d && Grown(av, m, sp0, k.avail, k.mem, sp', {}) && NoUser(sp')
    ensures ok ==> KernelMapped(dp, i + 1, sp') && LineTabs(dp, i + 1, sp'.own)
    ensures !ok ==> k.avail == {} && TabSet(sp'.own) < KernelTabs()
  {
    var e := KmapTable(dp)[i];
    LineIs(dp, i);
    ghost var a1, m1 := k.avail, k.mem;
    var size := (e.physEnd - e.physStart) % 0x1_0000_0000;
    var r;
    ghost var hi;
    r, sp', hi := Mappages(k, d, e.virt, size, e.physStart / PGSIZE, e.perm, sp);
    NoUserFrames(LineLo(dp, i), hi, LineFrame(dp, i));
    GrownStep(av, m, sp0, a1, m1, sp, k.avail, k.mem, sp', {}, {}, {});
    LineTabsNext(dp, i, sp, sp', hi, LineFrame(dp, i), e.perm);
    StillNoUser(sp, sp', LineLo(dp, i), hi, LineFrame(dp, i), e.perm);
    ok := r.Mapped?;
    if ok {
      LineMaps(dp, i, sp, sp');
    } else {
      LineFree(dp, i, sp, hi);
      assert Pdx(hi) !in TabSet(sp'.own);
    }
  }

  lemma StillNoUser(sp: Space, sp': Space, lo: nat, hi: nat, f: nat, perm: nat)
    requires NoUser(sp) && lo >= UPAGES && RangeMapped(sp, sp', lo, hi, f, perm)
    ensures NoUser(sp')
  {
    forall v: nat | v in sp'.pt ensures v >= UPAGES { assert RangeAt(sp, sp', lo, hi, f, perm, v); }
  }

  // --- deallocuvm ---

  /** The pages that hold n bytes: PGROUNDUP(n) / PGSIZE. */
  function PagesUp(n: nat): (m: nat)
    ensures n <= 4096 * m < n + 4096
  {
    (n + PGSIZE - 1) / PGSIZE
  }

  ghost predicate NoTab(own: map<Slot, nat>, lo: nat, hi: nat) {
    forall i: nat | lo <= i < hi :: Tab(i) !in own
  }

  /** The pages deallocuvm steps over. Where a page table is absent it moves a whole table's worth
      of pages on, even from the middle of a table: starting at page `s` it so misses the front of
      the first table it meets, if that is not the table `s` itself is in. */
  ghost predicate Missed(own: map<Slot, nat>, s: nat, v: nat) {
    s < VPAGES && v < VPAGES && Ptx(v) < Ptx(s) && Pdx(s) < Pdx(v) && Tab(Pdx(v)) in own && NoTab(own, Pdx(s), Pdx(v))
  }

  ghost predicate NoneMissed(own: map<Slot, nat>, s: nat, a: nat) {
    forall v: nat {:trigger Missed(own, s, v)} | a <= v :: !Missed(own, s, v)
  }

  /** Where the scan stands: still in step with its start, or past all it can miss. */
  ghost predicate Phase(own: map<Slot, nat>, s: nat, a: nat) {
    s <= a < VPAGES &&
    ( || (Ptx(a) == Ptx(s) && NoTab(own, Pdx(s), Pdx(a)))
      || ((Ptx(a) == 0 || Tab(Pdx(a)) in own) && NoneMissed(own, s, a)))
  }

  lemma TableNext(a: nat)
    requires a + 1 < VPAGES
    ensures Ptx(a + 1) == 0 || (Pdx(a + 1) == Pdx(a) && Ptx(a + 1) == Ptx(a) + 1)
  {
  }

  lemma TableSkip(a: nat, v: nat)
    requires a <= v < a + NWORDS && a + NWORDS < VPAGES
    ensures Pdx(a + NWORDS) == Pdx(a) + 1 && Ptx(a + NWORDS) == Ptx(a)
    ensures Pdx(v) == Pdx(a) || (Pdx(v) == Pdx(a) + 1 && Ptx(v) < Ptx(a))
  {
  }

  lemma Ordered(a: nat, v: nat)
    requires a <= v < VPAGES
    ensures Pdx(a) < Pdx(v) || (Pdx(a) == Pdx(v) && Ptx(a) <= Ptx(v) && (a < v ==> Ptx(a) < Ptx(v)))
  {
  }

  lemma NextPhase(own: map<Slot, nat>, s: nat, a: nat)
    requires Phase(own, s, a) && a + 1 < VPAGES && Tab(Pdx(a)) in own
    ensures Phase(own, s, a + 1) && !Missed(own, s, a)
  {
    TableNext(a);
    Ordered(s, a);
    forall v: nat | a + 1 <= v ensures !Missed(own, s, v) {
      if v < VPAGES { Ordered(a, v); }
    }
  }

  lemma SkipPhase(own: map<Slot, nat>, s: nat, a: nat)
    requires Phase(own, s, a) && a + NWORDS < VPAGES && Tab(Pdx(a)) !in own
    ensures Phase(own, s, a + NWORDS)
    ensures forall v: nat | a <= v < a + NWORDS && Tab(Pdx(v)) in own :: Missed(own, s, v)
  {
    TableSkip(a, a);
    Ordered(s, a);
    forall v: nat | a <= v < a + NWORDS && Tab(Pdx(v)) in own ensures Missed(own, s, v) {
      TableSkip(a, v);
    }
  }

  ghost predicate SameSlot(own: map<Slot, nat>, own': map<Slot, nat>, x: Slot) {
    !x.User? ==> (x in own' <==> x in own) && (x in own ==> x in own' && own'[x] == own[x])
  }

  /** Frames went from `sp` to the free ones, and none was lost; the tables are where they were. */
  ghost predicate Shrunk(avail: set<nat>, mem: seq<Page>, sp: Space, avail': set<nat>, mem': seq<Page>, sp': Space) {
    && avail' + sp'.own.Values == avail + sp.own.Values
    && sp'.own.Values <= sp.own.Values
    && KeptOutside(mem, mem', sp.own.Values)
    && forall x {:trigger SameSlot(sp.own, sp'.own, x)} :: SameSlot(sp.own, sp'.own, x)
  }

  lemma ShrunkStep(a0: set<nat>, m0: seq<Page>, s0: Space, a1: set<nat>, m1: seq<Page>, s1: Space,
                   a2: set<nat>, m2: seq<Page>, s2: Space)
    requires Shrunk(a0, m0, s0, a1, m1, s1) && Shrunk(a1, m1, s1, a2, m2, s2)
    ensures Shrunk(a0, m0, s0, a2, m2, s2)
  {
    KeptStep(m0, m1, m2, s0.own.Values, s1.own.Values, s0.own.Values);
    forall x ensures SameSlot(s0.own, s2.own, x) {
      assert SameSlot(s0.own, s1.own, x) && SameSlot(s1.own, s2.own, x);
    }
  }

  /** Frees the frame of user page `a` and clears its entry, which is in table `t`. */
  method FreePage(k: Kmem, t: nat, a: nat, ghost sp: Space)
    requires Good(k, sp) && a in sp.pt && a < UPAGES && Tab(Pdx(a)) in sp.own && t == sp.own[Tab(Pdx(a))]
    modifies k
    ensures Good(k, WithoutPte(sp, a)) && Shrunk(old(k.avail), old(k.mem), sp, k.avail, k.mem, WithoutPte(sp, a))
  {
    ghost var sp', m0 := WithoutPte(sp, a), k.mem;
    var tab := Tab(Pdx(a));
    assert SlotOk(k.first, sp.own, tab) && SlotOk(k.first, sp.own, User(a));
    assert PteOk(k.mem, sp, a) && Apart(sp.own, User(a), tab);
    var f := Frame(k.mem[t][Ptx(a)]);
    assert f in sp.own.Values && t in sp.own.Values;
    forall x ensures Apart(sp.own, User(a), x) {}
    ValuesDrop(sp.own, User(a));
    var ok := k.Kfree(f);
    assert ok;
    forall x | x in sp.own && !x.User? && sp.own[x] < NFRAMES ensures k.mem[sp.own[x]] == m0[sp.own[x]] {
      assert Apart(sp.own, User(a), x);
    }
    DataKeeps(k.first, m0, sp, k.mem);
    ClearKeeps(k.first, k.mem, sp, a);
    k.Store(t, k.mem[t][Ptx(a) := 0]);
    forall x ensures SameSlot(sp.own, sp'.own, x) {}
    forall g: nat | g !in sp.own.Values ensures SameFrame(m0, k.mem, g) {}
  }

  /** What has become of page `v` when the pages from `s` up to `e` have been dealt with. */
  ghost predicate Dealt(sp: Space, sp': Space, s: nat, e: nat, v: nat) {
    && (v in sp'.pt <==> v in sp.pt && !(s <= v < e && !Missed(sp.own, s, v)))
    && (v in sp'.pt ==> sp'.pt[v] == sp.pt[v])
  }

  ghost predicate AllDealt(sp: Space, sp': Space, s: nat, e: nat) {
    forall v: nat {:trigger Dealt(sp, sp', s, e, v)} :: Dealt(sp, sp', s, e, v)
  }

  lemma DealtFree(sp: Space, sp1: Space, s: nat, a: nat)
    requires AllDealt(sp, sp1, s, a) && s <= a && !Missed(sp.own, s, a)
    ensures AllDealt(sp, WithoutPte(sp1, a), s, a + 1)
  {
    var b, sp2 := a + 1, WithoutPte(sp1, a);
    forall v: nat ensures Dealt(sp, sp2, s, b, v) { assert Dealt(sp, sp1, s, a, v); }
  }

  lemma DealtPass(sp: Space, sp1: Space, s: nat, a: nat, b: nat)
    requires AllDealt(sp, sp1, s, a) && s <= a <= b
    requires forall v: nat | a <= v < b && v in sp.pt :: Missed(sp.own, s, v)
    ensures AllDealt(sp, sp1, s, b)
  {
    forall v: nat ensures Dealt(sp, sp1, s, b, v) { assert Dealt(sp, sp1, s, a, v); }
  }

  /** Every page from newsz up to oldsz is freed, except those that are `Missed`. */
  method Deallocuvm(k: Kmem, d: nat, oldsz: nat, newsz: nat, ghost sp: Space) returns (sz: nat, ghost sp': Space)
    requires Good(k, sp) && d == sp.own[Dir] && oldsz <= KERNBASE
    modifies k
    ensures Good(k, sp') && Dir in sp'.own && sp'.own[Dir] == d && sz == if newsz >= oldsz then oldsz else newsz
    ensures Shrunk(old(k.avail), old(k.mem), sp, k.avail, k.mem, sp')
    ensures AllDealt(sp, sp', PagesUp(newsz), PagesUp(oldsz))
  {
    sp' := sp;
    if newsz >= oldsz {
      Monotone(oldsz, newsz);
      forall v: nat ensures Dealt(sp, sp, PagesUp(newsz), PagesUp(oldsz), v) {}
      return oldsz, sp';
    }
    sp' := Scan(k, d, PagesUp(newsz), PagesUp(oldsz), sp);
    sz := newsz;
  }

  lemma Monotone(m: nat, n: nat)
    requires m <= n
    ensures PagesUp(m) <= PagesUp(n)
  {
  }

  /** The loop of deallocuvm, over the pages from `s` up to `e`. */
  method Scan(k: Kmem, d: nat, s: nat, e: nat, ghost sp: Space) returns (ghost sp': Space)
    requires Good(k, sp) && d == sp.own[Dir] && s <= e <= UPAGES
    modifies k
    ensures Good(k, sp') && Dir in sp'.own && sp'.own[Dir] == d
    ensures Shrunk(old(k.avail), old(k.mem), sp, k.avail, k.mem, sp')
    ensures AllDealt(sp, sp', s, e)
  {
    sp' := sp;
    var a := s;
    assert forall v: nat :: Dealt(sp, sp, s, s, v);
    while a < e
      invariant Phase(sp.own, s, a)
      invariant Good(k, sp') && Dir in sp'.own && sp'.own[Dir] == d
      invariant Shrunk(old(k.avail), old(k.mem), sp, k.avail, k.mem, sp')
      invariant AllDealt(sp, sp', s, if a < e then a else e)
    {
      ghost var s1, a1, m1 := sp', k.avail, k.mem;
      var t;
      t, sp' := Walkpgdir(k, d, a, false, sp');
      assert SameSlot(sp.own, sp'.own, Tab(Pdx(a))) && PteOk(k.mem, sp', a) && SlotOk(k.first, sp'.own, Tab(Pdx(a)));
      if t == 0 {
        SkipPhase(sp.own, s, a);
        forall v: nat | a <= v < e && v < a + NWORDS && v in sp.pt ensures Missed(sp.own, s, v) {
          assert PteOk(old(k.mem), sp, v);
        }
        DealtPass(sp, sp', s, a, if a + NWORDS < e then a + NWORDS else e);
        a := a + NWORDS - 1;
      } else {
        NextPhase(sp.own, s, a);
        if Present(k.mem[t][Ptx(a)]) {
          FreePage(k, t, a, sp');
          sp' := WithoutPte(sp', a);
          DealtFree(sp, s1, s, a);
          ShrunkStep(old(k.avail), old(k.mem), sp, a1, m1, s1, k.avail, k.mem, sp');
        } else {
          assert Dealt(sp, sp', s, a, a);
          DealtPass(sp, sp', s, a, a + 1);
        }
      }
      a := a + 1;
    }
  }

  /** deallocuvm empties its range exactly when none of the mapped pages there is one it steps over. */
  lemma EmptiesIff(sp: Space, sp': Space, s: nat, e: nat)
    requires AllDealt(sp, sp', s, e)
    ensures (forall v: nat | s <= v < e :: v !in sp'.pt) <==>
      (forall v: nat | s <= v < e && v in sp.pt :: !Missed(sp.own, s, v))
  {
    if forall v: nat | s <= v < e :: v !in sp'.pt {
      forall v: nat | s <= v < e && v in sp.pt ensures !Missed(sp.own, s, v) { assert Dealt(sp, sp', s, e, v); }
    }
    if forall v: nat | s <= v < e && v in sp.pt :: !Missed(sp.own, s, v) {
      forall v: nat | s <= v < e ensures v !in sp'.pt { assert Dealt(sp, sp', s, e, v); }
    }
  }

  /** A process's memory: the user pages are those below some n. */
  ghost predicate Contiguous(sp: Space, n: nat) {
    forall v: nat | v < UPAGES :: v in sp.pt <==> v < n
  }

  /** For a process's memory deallocuvm leaves exactly the pages below the new size. */
  lemma ContiguousShrinks(first: nat, mem: seq<Page>, sp: Space, sp': Space, s: nat, e: nat)
    requires Holds(first, mem, sp) && Contiguous(sp, e) && AllDealt(sp, sp', s, e) && s <= e <= UPAGES
    ensures Contiguous(sp', s)
  {
    forall v: nat | v < UPAGES ensures v in sp'.pt <==> v < s {
      assert Dealt(sp, sp', s, e, v);
      if s <= v < e {
        assert PteOk(mem, sp, s);
        assert SlotOk(first, sp.own, Tab(Pdx(s)));
        assert Tab(Pdx(s)) in sp.own && !Missed(sp.own, s, v);
      }
    }
  }

  // --- freevm ---

  lemma NoPagesLeft(first: nat, mem: seq<Page>, sp: Space, sp': Space)
    requires Holds(first, mem, sp') && AllDealt(sp, sp', 0, UPAGES)
    ensures forall v :: User(v) !in sp'.own
  {
    forall v ensures User(v) !in sp'.own {
      assert SlotOk(first, sp'.own, User(v)) && PteOk(mem, sp', v) && Dealt(sp, sp', 0, UPAGES, v);
    }
  }

  /** The tables of the directory that are still to be freed. */
  ghost predicate Rest(sp: Space, rest: map<Slot, nat>, i: nat) {
    && (forall x :: x in rest <==> x in sp.own && (x == Dir || (x.Tab? && x.i >= i)))
    && (forall x | x in rest :: rest[x] == sp.own[x])
  }

  lemma RestApart(first: nat, mem: seq<Page>, sp: Space, rest: map<Slot, nat>, i: nat, x: Slot)
    requires Holds(first, mem, sp) && Rest(sp, rest, i)
    ensures forall y :: Apart(rest, x, y)
  {
    forall y ensures Apart(rest, x, y) { assert Apart(sp.own, x, y); }
  }

  /** Frees the table, if any, under entry `i` of the directory. */
  method FreeTable(k: Kmem, d: nat, i: nat, ghost sp: Space, ghost mem1: seq<Page>, ghost rest: map<Slot, nat>)
    returns (ghost rest': map<Slot, nat>)
    requires k.Valid() && Holds(k.first, mem1, sp) && d == sp.own[Dir] && i < NWORDS
    requires Rest(sp, rest, i) && k.avail !! rest.Values && d < NFRAMES && k.mem[d] == mem1[d]
    modifies k
    ensures k.Valid() && Rest(sp, rest', i + 1) && k.avail !! rest'.Values && k.mem[d] == mem1[d]
    ensures k.avail + rest'.Values == old(k.avail) + rest.Values
    ensures KeptOutside(old(k.mem), k.mem, rest.Values) && rest'.Values <= rest.Values
  {
    ghost var m0 := k.mem;
    assert DirOk(mem1, sp.own, i) && SlotOk(k.first, sp.own, Tab(i)) && Apart(sp.own, Dir, Tab(i));
    if Present(k.mem[d][i]) {
      assert rest[Tab(i)] in rest.Values;
      RestApart(k.first, mem1, sp, rest, i, Tab(i));
      ValuesDrop(rest, Tab(i));
      rest' := rest - {Tab(i)};
      var ok := k.Kfree(Frame(k.mem[d][i]));
      assert ok;
    } else {
      rest' := rest;
    }
    forall g: nat | g !in rest.Values ensures SameFrame(m0, k.mem, g) {}
  }

  /** Every frame of the address space becomes free, each of them once. */
  method Freevm(k: Kmem, d: nat, ghost sp: Space)
    requires Good(k, sp) && d == sp.own[Dir]
    modifies k
    ensures k.Valid() && k.avail == old(k.avail) + sp.own.Values
    ensures KeptOutside(old(k.mem), k.mem, sp.own.Values)
  {
    var _, sp1 := Deallocuvm(k, d, KERNBASE, 0, sp);
    NoPagesLeft(k.first, k.mem, sp, sp1);
    ghost var mem1, rest := k.mem, sp1.own;
    assert SlotOk(k.first, sp1.own, Dir);
    var i := 0;
    while i < NWORDS
      invariant i <= NWORDS && k.Valid() && Rest(sp1, rest, i) && k.avail !! rest.Values && k.mem[d] == mem1[d]
      invariant k.avail + rest.Values == old(k.avail) + sp.own.Values && rest.Values <= sp.own.Values
      invariant KeptOutside(old(k.mem), k.mem, sp.own.Values)
    {
      ghost var m, r := k.mem, rest;
      rest := FreeTable(k, d, i, sp1, mem1, rest);
      KeptStep(old(k.mem), m, k.mem, sp.own.Values, r.Values, sp.own.Values);
      i := i + 1;
    }
    OnlyDir(k.first, mem1, sp1, rest);
    ghost var m := k.mem;
    var ok := k.Kfree(d);
    assert ok;
    forall g: nat | g !in {d} ensures SameFrame(m, k.mem, g) {}
    KeptStep(old(k.mem), m, k.mem, sp.own.Values, {d}, sp.own.Values);
  }

  lemma OnlyDir(first: nat, mem: seq<Page>, sp: Space, rest: map<Slot, nat>)
    requires Holds(first, mem, sp) && Rest(sp, rest, NWORDS)
    ensures rest.Values == {sp.own[Dir]}
  {
    forall x | x in rest ensures x == Dir { assert SlotOk(first, sp.own, x); }
    assert Dir in rest;
  }

  // --- copyuvm ---

  /** Page `v` of the child, when the first `n` pages have been copied from a parent in memory `mem0`. */
  ghost predicate Copied(mem0: seq<Page>, parent: Space, mem: seq<Page>, child: Space, n: nat, v: nat) {
    v < UPAGES && |mem| == |mem0| ==>
      && (v in child.pt <==> v < n)
      && (v < n ==>
        && v in parent.pt && Flags(child.pt[v]) == Flags(parent.pt[v])
        && Frame(child.pt[v]) < |mem| && Frame(parent.pt[v]) < |mem|
        && mem[Frame(child.pt[v])] == mem0[Frame(parent.pt[v])])
  }

  ghost predicate AllCopied(mem0: seq<Page>, parent: Space, mem: seq<Page>, child: Space, n: nat) {
    |mem| == |mem0| == NFRAMES &&
    forall v: nat {:trigger Copied(mem0, parent, mem, child, n, v)} :: Copied(mem0, parent, mem, child, n, v)
  }

  /** Parent and child share the machine but no frame; `avail0` were the free frames and `mem0` the
      memory when the copy began. */
  ghost predicate Copying(k: Kmem, avail0: set<nat>, mem0: seq<Page>, dp: nat, parent: Space, child: Space, n: nat)
    reads k
  {
    && Good(k, parent) && Good(k, child) && avail0 !! parent.own.Values
    && k.avail + child.own.Values == avail0
    && KeptOutside(mem0, k.mem, avail0)
    && KernelMapped(dp, 4, child)
    && AllCopied(mem0, parent, k.mem, child, n)
  }

  lemma ParentStays(first: nat, mem0: seq<Page>, parent: Space, mem: seq<Page>, s: set<nat>)
    requires Holds(first, mem0, parent) && KeptOutside(mem0, mem, s) && s !! parent.own.Values && |mem| == NFRAMES
    ensures Holds(first, mem, parent)
  {
    forall x | x in parent.own && !x.User? && parent.own[x] < NFRAMES
      ensures mem[parent.own[x]] == mem0[parent.own[x]]
    {
      assert parent.own[x] in parent.own.Values && SameFrame(mem0, mem, parent.own[x]);
    }
    DataKeeps(first, mem0, parent, mem);
  }

  /** The new page is in place, and the pages copied before it are untouched. */
  lemma CopiedOn(first: nat, mem0: seq<Page>, parent: Space, m: seq<Page>, child: Space, n: nat, f: nat,
                 m': seq<Page>, child': Space, written: set<nat>)
    requires Holds(first, m, child) && AllCopied(mem0, parent, m, child, n) && n < UPAGES
    requires n in parent.pt && Frame(parent.pt[n]) < NFRAMES && Present(parent.pt[n]) && f < NFRAMES
    requires RangeMapped(child, child', n, n + 1, f, Flags(parent.pt[n]))
    requires KeptOutside(m, m', written) && |m'| == NFRAMES
    requires forall v: nat | User(v) in child.own :: child.own[User(v)] !in written
    requires m'[f] == mem0[Frame(parent.pt[n])]
    ensures AllCopied(mem0, parent, m', child', n + 1)
  {
    var b, flags := n + 1, Flags(parent.pt[n]);
    forall v: nat ensures Copied(mem0, parent, m', child', b, v) {
      assert RangeAt(child, child', n, b, f, flags, v) && Copied(mem0, parent, m, child, n, v);
      if v == n {
        EntryParts(f, flags);
        FlagsOdd(parent.pt[n]);
      } else if v < n && v < UPAGES {
        assert PteOk(m, child, v) && SlotOk(first, child.own, User(v));
        assert SameFrame(m, m', child.own[User(v)]);
      }
    }
  }

  lemma FlagsOdd(w: Word)
    requires Present(w)
    ensures Flags(w) % 2 == 1
  {
    DivMod(w / PGSIZE, w % PGSIZE);
  }

  lemma Unchanged(sp: Space, sp': Space, a: nat, m: nat, perm: nat)
    requires RangeMapped(sp, sp', a, a, m, perm) && Dir in sp.own && Dir in sp'.own && sp.own[Dir] == sp'.own[Dir]
    ensures sp' == sp
  {
    forall x ensures x in sp'.own <==> x in sp.own {
      if x.Tab? { assert TabAt(sp, sp', a, a, x.i); }
      if x.User? { assert RangeAt(sp, sp', a, a, m, perm, x.v); }
    }
    forall x | x in sp.own ensures sp'.own[x] == sp.own[x] {
      if x.Tab? { assert TabAt(sp, sp', a, a, x.i); }
      if x.User? { assert RangeAt(sp, sp', a, a, m, perm, x.v); }
    }
    assert sp'.own == sp.own;
    forall v: nat ensures (v in sp'.pt <==> v in sp.pt) && (v in sp.pt ==> sp'.pt[v] == sp.pt[v]) {
      assert RangeAt(sp, sp', a, a, m, perm, v);
    }
    assert sp'.pt == sp.pt;
  }

  /** mappages for one user page, as allocuvm and copyuvm call it. */
  method MapUserPage(k: Kmem, d: nat, a: nat, m: nat, perm: nat, ghost sp: Space) returns (ok: bool, ghost sp': Space)
    requires Good(k, sp) && sp.own[Dir] == d && a < UPAGES && a !in sp.pt && perm < PGSIZE
    requires Fresh(k.first, sp, m) && m !in k.avail
    modifies k
    ensures Good(k, sp') && Dir in sp'.own && sp'.own[Dir] == d
    ensures Grown(old(k.avail), old(k.mem), sp, k.avail, k.mem, sp', if ok then {m} else {})
    ensures ok ==> RangeMapped(sp, sp', a, a + 1, m, perm)
    ensures !ok ==> sp' == sp && k.avail == old(k.avail) == {} && Tab(Pdx(a)) !in sp.own
  {
    DivMod(a, 0);
    DivMod(a, PGSIZE - 1);
    assert FirstPage(a * PGSIZE) == a && LastPage(a * PGSIZE, PGSIZE) == a;
    assert UserFrames(a, a, m) == {} && UserFrames(a, a + 1, m) == {m};
    var res;
    ghost var hi;
    ghost var avail0 := k.avail;
    res, sp', hi := Mappages(k, d, a * PGSIZE, PGSIZE, m, perm, sp);
    ok := res.Mapped?;
    if !ok {
      Unchanged(sp, sp', a, m, perm);
      assert k.avail == avail0;
    }
  }

  datatype CopyStep = Done | Full | NotThere

  /** The entry of user page `v`, if there is one. */
  method UserEntry(k: Kmem, d0: nat, v: nat, ghost parent: Space) returns (found: bool, w: Word)
    requires Good(k, parent) && parent.own[Dir] == d0 && v < UPAGES
    modifies k
    ensures k.Valid() && k.mem == old(k.mem) && k.avail == old(k.avail)
    ensures found <==> v in parent.pt
    ensures found ==> w == parent.pt[v] && Present(w) && Frame(w) < NFRAMES && Frame(w) in parent.own.Values
  {
    var t, _ := Walkpgdir(k, d0, v, false, parent);
    assert PteOk(k.mem, parent, v) && SlotOk(k.first, parent.own, Tab(Pdx(v))) && SlotOk(k.first, parent.own, User(v));
    if t == 0 {
      return false, 0;
    }
    w := k.mem[t][Ptx(v)];
    found := Present(w);
  }

  /** One turn of copyuvm's loop. When a page table cannot be allocated the new page is lost. */
  method CopyPage(k: Kmem, d0: nat, d: nat, v: nat, ghost dp: nat, ghost parent: Space, ghost child: Space,
                  ghost avail0: set<nat>, ghost mem0: seq<Page>)
    returns (r: CopyStep, ghost child': Space, ghost lost: set<nat>)
    requires Copying(k, avail0, mem0, dp, parent, child, v) && v < UPAGES
    requires Holds(k.first, mem0, parent) && parent.own[Dir] == d0 && child.own[Dir] == d
    modifies k
    ensures Good(k, child') && child'.own[Dir] == d
    ensures r.Done? ==> v in parent.pt && Copying(k, avail0, mem0, dp, parent, child', v + 1)
    ensures r.Done? ==> TabAdded(child, child', v)
    ensures r.Done? ==> |k.avail| == |old(k.avail)| - (1 + if Tab(Pdx(v)) in child.own then 0 else 1)
    ensures r.NotThere? <==> v !in parent.pt
    ensures r.Full? ==> KeptOutside(mem0, k.mem, avail0) && lost !! k.avail + child'.own.Values
    ensures r.Full? ==> k.avail + child'.own.Values + lost == avail0
    ensures r.Full? ==>
      if lost == {} then old(k.avail) == {} else |lost| == |old(k.avail)| == 1 && Tab(Pdx(v)) !in child.own
  {
    child', lost := child, {};
    var found, w := UserEntry(k, d0, v, parent);
    if !found {
      return NotThere, child, {};
    }
    var m := k.Kalloc();
    if m == 0 {
      return Full, child, {};
    }
    ghost var m1 := k.mem;
    assert old(k.avail) == k.avail + {m};
    assert SameFrame(mem0, k.mem, Frame(w));
    k.Store(m, k.mem[Frame(w)]);
    lost := {m};
    ghost var av := k.avail;
    r, child' := MapCopy(k, d, v, m, w, dp, parent, child, avail0, mem0, m1);
    if r.Done? {
      assert SpentAt(av, k.avail, if Tab(Pdx(v)) in child.own then 0 else 1, 0);
      lost := {};
    }
  }

  /** Maps the copied page: `m1` is memory before the copy was stored into frame `m`. */
  method MapCopy(k: Kmem, d: nat, v: nat, m: nat, w: Word, ghost dp: nat, ghost parent: Space, ghost child: Space,
                 ghost avail0: set<nat>, ghost mem0: seq<Page>, ghost m1: seq<Page>)
    returns (r: CopyStep, ghost child': Space)
    requires k.Valid() && k.avail !! child.own.Values && Holds(k.first, m1, child) && child.own[Dir] == d && v < UPAGES
    requires k.first <= m < NFRAMES && m !in k.avail + child.own.Values && k.avail + child.own.Values + {m} == avail0
    requires v in parent.pt && parent.pt[v] == w && Present(w) && Frame(w) < NFRAMES
    requires |m1| == |mem0| == NFRAMES && k.mem == m1[m := mem0[Frame(w)]] && KeptOutside(mem0, m1, avail0)
    requires Holds(k.first, mem0, parent) && avail0 !! parent.own.Values
    requires KernelMapped(dp, 4, child) && AllCopied(mem0, parent, m1, child, v)
    modifies k
    ensures r.Done? || r.Full?
    ensures Good(k, child') && child'.own[Dir] == d && KeptOutside(mem0, k.mem, avail0)
    ensures r.Done? ==> Copying(k, avail0, mem0, dp, parent, child', v + 1)
    ensures r.Done? ==> TabAdded(child, child', v)
    ensures r.Done? ==> Spent(old(k.avail), k.avail, if Tab(Pdx(v)) in child.own then 0 else 1)
    ensures r.Full? ==> k.avail + child'.own.Values + {m} == avail0 && m !in k.avail + child'.own.Values
    ensures r.Full? ==> old(k.avail) == {} && Tab(Pdx(v)) !in child.own
  {
    ghost var a2, m2 := k.avail, k.mem;
    ghost var written := {m} + a2 + Tables(child.own);
    CopyStored(k.first, m1, child, m, mem0[Frame(w)], m2, a2);
    assert Copied(mem0, parent, m1, child, v, v);
    var ok;
    ok, child' := MapCounted(k, d, v, m, Flags(w), child);
    CopyKept(mem0, m1, m2, k.mem, m, a2, child.own, avail0);
    if ok {
      r := Done;
      CopyDone(k.first, mem0, parent, m1, child, v, m, w, k.mem, child', written, avail0, dp);
    } else {
      r := Full;
    }
  }

  lemma CopyKept(mem0: seq<Page>, m1: seq<Page>, m2: seq<Page>, mem: seq<Page>, m: nat, a2: set<nat>,
                 own: map<Slot, nat>, avail0: set<nat>)
    requires KeptOutside(mem0, m1, avail0) && KeptOutside(m1, m2, {m}) && KeptOutside(m2, mem, a2 + Tables(own))
    requires m !in a2 + Tables(own) && {m} + a2 + Tables(own) <= avail0
    ensures KeptOutside(mem0, mem, avail0) && KeptOutside(m1, mem, {m} + a2 + Tables(own)) && SameFrame(m2, mem, m)
  {
    var written := {m} + a2 + Tables(own);
    assert SameFrame(m2, mem, m);
    KeptStep(m1, m2, mem, {m}, a2 + Tables(own), written);
    KeptStep(mem0, m1, mem, avail0, written, avail0);
  }

  lemma CopyDone(first: nat, mem0: seq<Page>, parent: Space, m1: seq<Page>, child: Space, v: nat, m: nat, w: Word,
                 mem: seq<Page>, child': Space, written: set<nat>, avail0: set<nat>, dp: nat)
    requires Holds(first, m1, child) && AllCopied(mem0, parent, m1, child, v)
    requires v < UPAGES && KernelMapped(dp, 4, child)
    requires v in parent.pt && parent.pt[v] == w && Frame(w) < NFRAMES && Present(w) && m < NFRAMES
    requires RangeMapped(child, child', v, v + 1, m, Flags(w))
    requires KeptOutside(m1, mem, written) && |mem| == NFRAMES && mem[m] == mem0[Frame(w)]
    requires forall u: nat | User(u) in child.own :: child.own[User(u)] !in written
    requires Holds(first, mem0, parent) && KeptOutside(mem0, mem, avail0) && avail0 !! parent.own.Values
    ensures AllCopied(mem0, parent, mem, child', v + 1) && KernelMapped(dp, 4, child') && Holds(first, mem, parent)
  {
    CopiedOn(first, mem0, parent, m1, child, v, m, mem, child', written);
    KernelStays(dp, child, child', v, m, Flags(w));
    ParentStays(first, mem0, parent, mem, avail0);
  }

  /** mappages for one user page, with the frames it takes. */
  method MapCounted(k: Kmem, d: nat, a: nat, m: nat, perm: nat, ghost sp: Space) returns (ok: bool, ghost sp': Space)
    requires Good(k, sp) && sp.own[Dir] == d && a < UPAGES && a !in sp.pt && perm < PGSIZE
    requires Fresh(k.first, sp, m) && m !in k.avail
    modifies k
    ensures Good(k, sp') && Dir in sp'.own && sp'.own[Dir] == d
    ensures Grown(old(k.avail), old(k.mem), sp, k.avail, k.mem, sp', if ok then {m} else {})
    ensures ok ==> RangeMapped(sp, sp', a, a + 1, m, perm) && TabAdded(sp, sp', a)
    ensures ok ==> Spent(old(k.avail), k.avail, if Tab(Pdx(a)) in sp.own then 0 else 1)
    ensures !ok ==> sp' == sp && k.avail == old(k.avail) == {} && Tab(Pdx(a)) !in sp.own
  {
    ghost var mem, avail := k.mem, k.avail;
    ok, sp' := MapUserPage(k, d, a, m, perm, sp);
    if ok {
      CopyCost(k.first, mem, sp, k.mem, sp', a, m, perm, avail, k.avail);
      ghost var cost := if Tab(Pdx(a)) in sp.own then 0 else 1;
      assert forall q: nat :: SpentAt(avail, k.avail, cost, q);
    }
  }

  /** `cost` frames fewer are free. Folded. */
  ghost predicate Spent(avail: set<nat>, avail': set<nat>, cost: nat) {
    forall q: nat {:trigger SpentAt(avail, avail', cost, q)} :: SpentAt(avail, avail', cost, q)
  }

  ghost predicate SpentAt(avail: set<nat>, avail': set<nat>, cost: nat, q: nat) {
    |avail'| == |avail| - cost
  }

  lemma CopyCost(first: nat, m2: seq<Page>, child: Space, mem: seq<Page>, child': Space, v: nat, m: nat, perm: nat,
                 avail: set<nat>, avail': set<nat>)
    requires Holds(first, m2, child) && Holds(first, mem, child')
    requires child'.own[Dir] == child.own[Dir] && v < UPAGES && v !in child.pt
    requires RangeMapped(child, child', v, v + 1, m, perm) && m < NFRAMES && m !in child.own.Values && m !in avail
    requires avail !! child.own.Values && avail' !! child'.own.Values
    requires avail' + child'.own.Values == avail + child.own.Values + {m}
    ensures TabAdded(child, child', v) && |avail'| == |avail| - if Tab(Pdx(v)) in child.own then 0 else 1
  {
    GrewOwn(first, m2, child, mem, child', v, m, perm);
    assert avail == (avail + {m}) - {m};
    GrewCount(child.own.Values, child'.own.Values, Took(child.own, child'.own, Pdx(v), m), avail + {m}, avail', m);
    var b := v + 1;
    forall j: nat ensures TabAt(child, child', v, b, j) {}
  }

  lemma CopyStored(first: nat, m1: seq<Page>, child: Space, m: nat, p: Page, m2: seq<Page>, avail: set<nat>)
    requires Holds(first, m1, child) && m < NFRAMES && m !in avail
    requires m !in child.own.Values && avail !! child.own.Values
    requires m2 == m1[m := p]
    ensures Holds(first, m2, child) && KeptOutside(m1, m2, {m})
    ensures m !in Tables(child.own) && Tables(child.own) <= child.own.Values
    ensures forall v: nat | User(v) in child.own :: child.own[User(v)] !in {m} + avail + Tables(child.own)
  {
    forall x | x in child.own ensures child.own[x] in child.own.Values {}
    DataKeeps(first, m1, child, m2);
    forall v: nat, x | User(v) in child.own && x in child.own && !x.User? ensures child.own[User(v)] != child.own[x] {
      assert Apart(child.own, User(v), x);
    }
  }

  lemma KernelStays(dp: nat, child: Space, child': Space, v: nat, f: nat, perm: nat)
    requires KernelMapped(dp, 4, child) && v < UPAGES && RangeMapped(child, child', v, v + 1, f, perm)
    ensures KernelMapped(dp, 4, child')
  {
    var b := v + 1;
    forall u: nat ensures KernelAt(dp, 4, child', u) {
      assert KernelAt(dp, 4, child, u) && RangeAt(child, child', v, b, f, perm, u);
    }
  }

  datatype CopyResult = Child(d: nat) | NoMem | Absent   // Absent is a panic

  /** How many of the pages below `n` come before the first that is not mapped. */
  ghost function Leading(pt: map<nat, Word>, n: nat): (p: nat)
    ensures p <= n && (forall v: nat | v < p :: v in pt) && (p < n ==> p !in pt)
  {
    if n == 0 then 0
    else
      var p := Leading(pt, n - 1);
      if p == n - 1 && p in pt then n else p
  }

  /** Under its own directory the child sees page `v` of the parent with the same rights, in another frame. */
  ghost predicate CopySeen(mem0: seq<Page>, d0: nat, mem: seq<Page>, d: nat, v: nat) {
    && d0 < |mem0| && d < |mem| && v < VPAGES
    && var a, b := Translate(mem0, d0, v), Translate(mem, d, v);
      && a.To? && b.To? && b.write == a.write && b.user == a.user && b.frame != a.frame
      && a.frame < |mem0| && b.frame < |mem| && mem[b.frame] == mem0[a.frame]
  }

  lemma CopyIsSeen(first: nat, mem0: seq<Page>, parent: Space, mem: seq<Page>, child: Space, n: nat, v: nat)
    requires Holds(first, mem0, parent) && Holds(first, mem, child) && child.own.Values !! parent.own.Values
    requires AllCopied(mem0, parent, mem, child, n) && v < n <= UPAGES
    ensures CopySeen(mem0, parent.own[Dir], mem, child.own[Dir], v)
  {
    Translates(first, mem0, parent, v);
    Translates(first, mem, child, v);
    assert Copied(mem0, parent, mem, child, n, v) && PteOk(mem0, parent, v) && PteOk(mem, child, v);
    assert parent.own[User(v)] in parent.own.Values && child.own[User(v)] in child.own.Values;
    Bits(parent.pt[v], Flags(parent.pt[v]));
    Bits(child.pt[v], Flags(child.pt[v]));
  }

  /** A copy of the parent's first sz bytes. On success every page below sz is in the child, in a frame
      that was free, with the parent's contents and flags, beside the kernel's mappings; no frame is
      lost. When memory runs out, `lost` are the frames that are neither free nor anyone's: all of them if
      there are too few for the kernel's mappings, and else one, if it holds a page that lacked a table. */
  method Copyuvm(k: Kmem, d0: nat, sz: nat, dp: nat, ghost parent: Space)
    returns (r: CopyResult, ghost child: Space, ghost lost: set<nat>)
    requires Good(k, parent) && parent.own[Dir] == d0 && sz <= KERNBASE && EXT < dp < NFRAMES
    modifies k
    ensures PagesUp(sz) <= VPAGES
    ensures r.Child? ==> Copying(k, old(k.avail), old(k.mem), dp, parent, child, PagesUp(sz)) && child.own[Dir] == r.d
    ensures r.Child? ==> forall v: nat | v < PagesUp(sz) :: CopySeen(old(k.mem), d0, k.mem, r.d, v)
    ensures r.Child? ==> r.d < NFRAMES && forall v: nat | PagesUp(sz) <= v < VPAGES :: KernelSeen(k.mem, r.d, dp, v)
    ensures r.NoMem? <==>
      |old(k.avail)| < KFRAMES + Need(KernelTabs(), 0, Leading(parent.pt, PagesUp(sz)))
    ensures r.Absent? <==> !r.NoMem? && Leading(parent.pt, PagesUp(sz)) < PagesUp(sz)
    ensures r.NoMem? ==> k.Valid() && k.avail !! lost && k.avail + lost == old(k.avail)
    ensures r.NoMem? ==> KeptOutside(old(k.mem), k.mem, old(k.avail))
    ensures |old(k.avail)| < KFRAMES ==> lost == old(k.avail)
    ensures r.NoMem? && |old(k.avail)| >= KFRAMES ==>
      |lost| == if Loses(KernelTabs(), 0, Leading(parent.pt, PagesUp(sz)), |old(k.avail)| - KFRAMES) then 1 else 0
  {
    var d;
    ghost var avail0, mem0 := k.avail, k.mem;
    d, child, lost := Setupkvm(k, dp);
    if d == 0 {
      return NoMem, child, lost;
    }
    ParentStays(k.first, mem0, parent, k.mem, avail0);
    NoneCopied(mem0, parent, k.mem, child);
    r, child, lost := CopyLoop(k, d0, d, PagesUp(sz), dp, parent, child, avail0, mem0);
    if r.Child? {
      forall v: nat | v < PagesUp(sz) ensures CopySeen(mem0, d0, k.mem, d, v) {
        CopyIsSeen(k.first, mem0, parent, k.mem, child, PagesUp(sz), v);
      }
      forall v: nat | PagesUp(sz) <= v < VPAGES ensures KernelSeen(k.mem, d, dp, v) {
        assert Copied(mem0, parent, k.mem, child, PagesUp(sz), v);
        KernelIsSeen(k.first, k.mem, child, dp, v);
      }
    }
    if r.NoMem? {
      ghost var m := k.mem;
      Freevm(k, d, child);
      KeptStep(mem0, m, k.mem, avail0, child.own.Values, avail0);
    }
  }

  /** copyuvm's loop over the pages below `n`. */
  method CopyLoop(k: Kmem, d0: nat, d: nat, n: nat, ghost dp: nat, ghost parent: Space, ghost child0: Space,
                  ghost avail0: set<nat>, ghost mem0: seq<Page>)
    returns (r: CopyResult, ghost child: Space, ghost lost: set<nat>)
    requires Copying(k, avail0, mem0, dp, parent, child0, 0) && n <= UPAGES && Holds(k.first, mem0, parent)
    requires parent.own[Dir] == d0 && child0.own[Dir] == d
    modifies k
    ensures Good(k, child) && child.own[Dir] == d
    ensures r.Child? ==> Copying(k, avail0, mem0, dp, parent, child, n) && r.d == d
    ensures r.NoMem? ==> KeptOutside(mem0, k.mem, avail0) && lost !! k.avail + child.own.Values
    ensures r.NoMem? ==> k.avail + child.own.Values + lost == avail0
    ensures
      var p, tabs := Leading(parent.pt, n), TabSet(child0.own);
      && (r.NoMem? <==> |old(k.avail)| < Need(tabs, 0, p))
      && (r.Absent? <==> !r.NoMem? && p < n)
      && (r.NoMem? ==> |lost| == if Loses(tabs, 0, p, |old(k.avail)|) then 1 else 0)
  {
    ghost var p, n0 := Leading(parent.pt, n), |k.avail|;
    CountedFirst(child0, n0);
    child, lost := child0, {};
    var i := 0;
    while i < n
      invariant i <= p && Copying(k, avail0, mem0, dp, parent, child, i) && child.own[Dir] == d
      invariant Counted(child0, child, n0, |k.avail|, i)
    {
      var step;
      ghost var c1, a1 := child, |k.avail|;
      step, child, lost := CopyPage(k, d0, d, i, dp, parent, child, avail0, mem0);
      if step.NotThere? {
        CountedAll(child0, c1, n0, a1, i);
        return Absent, child, lost;
      }
      if step.Full? {
        if lost == {} { CountedOut(child0, c1, n0, i, p); } else { CountedShort(child0, c1, n0, i, p); }
        return NoMem, child, lost;
      }
      CountedNext(child0, c1, child, n0, a1, i, |k.avail|);
      i := i + 1;
    }
    CountedAll(child0, child, n0, |k.avail|, n);
    r := Child(d);
  }

  lemma NoneCopied(mem0: seq<Page>, parent: Space, mem: seq<Page>, child: Space)
    requires |mem| == |mem0| == NFRAMES && NoUser(child)
    ensures AllCopied(mem0, parent, mem, child, 0)
  {
    forall v: nat ensures Copied(mem0, parent, mem, child, 0, v) {}
  }

  /** What a finished copy means for each page: it is in a frame that was free before and is nobody else's,
      with the parent's contents and flags. */
  lemma CopyIsFresh(k: Kmem, avail0: set<nat>, mem0: seq<Page>, dp: nat, parent: Space, child: Space, n: nat, u: nat)
    requires Copying(k, avail0, mem0, dp, parent, child, n) && u < n <= UPAGES
    ensures u in child.pt && u in parent.pt && Flags(child.pt[u]) == Flags(parent.pt[u])
    ensures Frame(child.pt[u]) in avail0 && Frame(child.pt[u]) !in parent.own.Values && Frame(child.pt[u]) !in k.avail
    ensures Frame(child.pt[u]) < |k.mem| && Frame(parent.pt[u]) < |mem0|
    ensures k.mem[Frame(child.pt[u])] == mem0[Frame(parent.pt[u])]
  {
    assert Copied(mem0, parent, k.mem, child, n, u) && PteOk(k.mem, child, u);
    assert child.own[User(u)] in child.own.Values;
  }

  /** And for each two pages: they are in different frames. */
  lemma CopyIsApart(k: Kmem, avail0: set<nat>, mem0: seq<Page>, dp: nat, parent: Space, child: Space, n: nat,
                    u: nat, v: nat)
    requires Copying(k, avail0, mem0, dp, parent, child, n) && u < v < n <= UPAGES
    ensures u in child.pt && v in child.pt && Frame(child.pt[u]) != Frame(child.pt[v])
  {
    assert Copied(mem0, parent, k.mem, child, n, u) && Copied(mem0, parent, k.mem, child, n, v);
    assert PteOk(k.mem, child, u) && PteOk(k.mem, child, v) && Apart(child.own, User(u), User(v));
  }

  // --- an address space deallocuvm does not empty ---

  /** An allocator with `n` frames, and a directory in one of them. */
  method EmptyDir(n: nat) returns (k: Kmem, d: nat, ghost sp: Space)
    requires 0 < n < 1000
    ensures fresh(k) && Good(k, sp) && sp == Space(map[Dir := d], map[]) && |k.avail| == n - 1
  {
    k := new Kmem(1);
    var ok := k.Freerange(PGSIZE, (n + 1) * PGSIZE);
    assert k.avail == Between(1, n + 1);
    d := k.Kalloc();
    k.Store(d, ZERO_PAGE);
    sp := Space(map[Dir := d], map[]);
    DirHolds(k.first, k.mem, d);
    assert sp.own.Values == {d};
  }

  lemma OneMapped(sp0: Space, sp: Space, d: nat, m: nat)
    requires sp0 == Space(map[Dir := d], map[])
    requires RangeMapped(sp0, sp, NWORDS, NWORDS + 1, m, PTE_W + PTE_U)
    ensures Tab(0) !in sp.own && Tab(1) in sp.own && forall v: nat :: v in sp.pt <==> v == NWORDS
  {
    var a, b := NWORDS, NWORDS + 1;
    assert TabAt(sp0, sp, a, b, 0) && TabAt(sp0, sp, a, b, 1);
    forall v: nat ensures v in sp.pt <==> v == NWORDS { assert RangeAt(sp0, sp, a, b, m, PTE_W + PTE_U, v); }
  }

  method TakeFrame(k: Kmem) returns (m: nat)
    requires k.Valid() && |k.avail| > 1
    modifies k`freelist, k`free, k`avail
    ensures k.Valid() && m in old(k.avail) && k.avail == old(k.avail) - {m} && k.avail != {}
    ensures Spent(old(k.avail), k.avail, 1)
  {
    ghost var av := k.avail;
    m := k.Kalloc();
    if m != 0 { assert av == k.avail + {m}; }
    assert forall q: nat :: SpentAt(av, k.avail, 1, q);
  }

  /** One page table and one page beside it: page 1024 is mapped and page 1 has no table. */
  method HighPage() returns (k: Kmem, d: nat, ghost sp: Space)
    ensures fresh(k) && Good(k, sp) && sp.own[Dir] == d
    ensures Tab(0) !in sp.own && Tab(1) in sp.own && forall v: nat :: v in sp.pt <==> v == NWORDS
  {
    ghost var sp0;
    k, d, sp0 := EmptyDir(4);
    var m := TakeFrame(k);
    assert sp0.own.Values == {d};
    var ok;
    ok, sp := MapUserPage(k, d, NWORDS, m, PTE_W + PTE_U, sp0);
    OneMapped(sp0, sp, d, m);
  }

  /** Shrinking that space to one page leaves page 1024 mapped: from page 1, which has no table, the scan
      goes on at page 1025. */
  method SteppedOver() returns (k: Kmem, ghost sp: Space, ghost sp': Space)
    ensures Good(k, sp') && NWORDS in sp.pt && sp'.pt == sp.pt
  {
    var d, sz;
    k, d, sp := HighPage();
    sz, sp' := Deallocuvm(k, d, 2 * NWORDS * PGSIZE, PGSIZE, sp);
    ghost var s, e := PagesUp(PGSIZE), PagesUp(2 * NWORDS * PGSIZE);
    assert Missed(sp.own, 1, NWORDS);
    forall v: nat ensures v in sp'.pt <==> v in sp.pt { assert Dealt(sp, sp', s, e, v); }
    assert Dealt(sp, sp', s, e, NWORDS);
  }

  // --- a copy that loses a frame ---

  /** A parent with one page, and 66 free frames beside it. */
  method OnePage() returns (k: Kmem, d: nat, ghost sp: Space)
    ensures fresh(k) && Good(k, sp) && sp.own[Dir] == d && 0 in sp.pt && |k.avail| == KFRAMES + 1
  {
    ghost var sp0;
    k, d, sp0 := EmptyDir(KFRAMES + 4);
    ghost var av := k.avail;
    var m := TakeFrame(k);
    ghost var av1 := k.avail;
    assert sp0.own.Values == {d};
    sp := MapFirst(k, d, m, sp0);
    assert SpentAt(av, av1, 1, 0) && SpentAt(av1, k.avail, 1, 0);
  }

  method MapFirst(k: Kmem, d: nat, m: nat, ghost sp0: Space) returns (ghost sp: Space)
    requires Good(k, sp0) && sp0 == Space(map[Dir := d], map[]) && k.first <= m < NFRAMES && m != d && m !in k.avail
    requires k.avail != {}
    modifies k
    ensures Good(k, sp) && sp.own[Dir] == d && 0 in sp.pt && Spent(old(k.avail), k.avail, 1)
  {
    assert sp0.own.Values == {d};
    var ok;
    ok, sp := MapCounted(k, d, 0, m, PTE_W + PTE_U, sp0);
    assert RangeAt(sp0, sp, 0, 1, m, PTE_W + PTE_U, 0);
  }

  /** Copying it takes 65 frames for the kernel's mappings and one for the page; none is left for the page's
      table, so the copy fails and the page's frame is lost. */
  method CopyLoses() returns (k: Kmem, r: CopyResult, ghost lost: set<nat>)
    ensures k.Valid() && r.NoMem? && |lost| == 1 && k.avail !! lost
  {
    var d;
    ghost var sp, child;
    k, d, sp := OnePage();
    OneCopied(sp.pt);
    r, child, lost := Copyuvm(k, d, PGSIZE, EXT + 1, sp);
  }

  lemma OneCopied(pt: map<nat, Word>)
    requires 0 in pt
    ensures PagesUp(PGSIZE) == 1 && Leading(pt, 1) == 1
    ensures Need(KernelTabs(), 0, 1) == 2 && Loses(KernelTabs(), 0, 1, 1)
  {
    NeedFromZero(KernelTabs(), 1);
    LosesFromZero(KernelTabs(), 1, 1);
  }
}
