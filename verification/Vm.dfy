/** vm.c: two-level page tables over the frames of kalloc.c, as in section 4.3 of the Intel 64 and
    IA-32 Architectures Software Developer's Manual, Volume 3A. A page is named by the upper 20 bits
    of its virtual address, a frame by the upper 20 bits of its physical one. */
module Vm {
  import opened Params
  import opened Kalloc

  const UPAGES: nat := KERNBASE / PGSIZE     // user pages are below this
  const VPAGES: nat := 0x10_0000
  const PTE_W: nat := 2
  const PTE_U: nat := 4

  function Pdx(v: nat): (i: nat)
    requires v < VPAGES
    ensures i < NWORDS
  {
    v / NWORDS
  }

  function Ptx(v: nat): (j: nat)
    ensures j < NWORDS
  {
    v % NWORDS
  }

  predicate Present(w: Word) { w % 2 == 1 }
  function Frame(w: Word): nat { w / PGSIZE }
  function Flags(w: Word): nat { w % PGSIZE }

  /** frame | flags | PTE_P */
  function Entry(f: nat, flags: nat): Word
    requires f < VPAGES && flags < PGSIZE
  {
    f * PGSIZE + (if flags % 2 == 1 then flags else flags + 1)
  }

  lemma DivMod(f: nat, x: nat)
    requires x < PGSIZE
    ensures (f * PGSIZE + x) / PGSIZE == f && (f * PGSIZE + x) % PGSIZE == x && (f * PGSIZE + x) % 2 == x % 2
  {
    assert f * PGSIZE + x == 2 * (f * 2048) + x;
  }

  lemma EntryParts(f: nat, flags: nat)
    requires f < VPAGES && flags < PGSIZE
    ensures Present(Entry(f, flags)) && Frame(Entry(f, flags)) == f
    ensures Flags(Entry(f, flags)) == if flags % 2 == 1 then flags else flags + 1
  {
    DivMod(f, if flags % 2 == 1 then flags else flags + 1);
  }

  lemma SamePage(u: nat, v: nat)
    requires u < VPAGES && v < VPAGES && Pdx(u) == Pdx(v) && Ptx(u) == Ptx(v)
    ensures u == v
  {
  }

  // --- address spaces ---

  /** What a frame of an address space is for. */
  datatype Slot = Dir | Tab(i: nat) | User(v: nat)

  /** An address space: the frames it owns, and the present entries of its page tables. */
  datatype Space = Space(own: map<Slot, nat>, pt: map<nat, Word>)

  ghost predicate SlotOk(first: nat, own: map<Slot, nat>, s: Slot) {
    s in own ==>
      && first <= own[s] < NFRAMES
      && (s.Tab? ==> s.i < NWORDS)
      && (s.User? ==> s.v < UPAGES)
  }

  ghost predicate Apart(own: map<Slot, nat>, s: Slot, t: Slot) {
    s in own && t in own && s != t ==> own[s] != own[t]
  }

  /** A present entry of a directory lets everything through: 7 is present, writable and user. */
  ghost predicate DirOk(mem: seq<Page>, own: map<Slot, nat>, i: nat) {
    i < NWORDS && Dir in own && own[Dir] < |mem| ==>
      var w := mem[own[Dir]][i];
      if Tab(i) in own then Flags(w) == 7 && Present(w) && Frame(w) == own[Tab(i)] else !Present(w)
  }

  ghost predicate PteOk(mem: seq<Page>, sp: Space, v: nat) {
    if v < VPAGES && Tab(Pdx(v)) in sp.own && sp.own[Tab(Pdx(v))] < |mem| then
      var w := mem[sp.own[Tab(Pdx(v))]][Ptx(v)];
      && (Present(w) <==> v in sp.pt)
      && (v in sp.pt ==> sp.pt[v] == w)
      && (User(v) in sp.own <==> v in sp.pt && v < UPAGES)
      && (User(v) in sp.own ==> sp.own[User(v)] == Frame(w))
    else
      v !in sp.pt && User(v) !in sp.own
  }

  /** `sp` is what memory holds under its directory, and no frame serves two purposes. */
  ghost predicate Holds(first: nat, mem: seq<Page>, sp: Space) {
    && |mem| == NFRAMES && Dir in sp.own
    && (forall s {:trigger SlotOk(first, sp.own, s)} :: SlotOk(first, sp.own, s))
    && (forall s, t {:trigger Apart(sp.own, s, t)} :: Apart(sp.own, s, t))
    && (forall i: nat {:trigger DirOk(mem, sp.own, i)} :: DirOk(mem, sp.own, i))
    && (forall v: nat {:trigger PteOk(mem, sp, v)} :: PteOk(mem, sp, v))
  }

  ghost predicate Fresh(first: nat, sp: Space, f: nat) {
    first <= f < NFRAMES && f !in sp.own.Values
  }

  // --- what each store does to an address space ---

  /** Stores elsewhere than in the directory and the tables change nothing. */
  lemma DataKeeps(first: nat, mem: seq<Page>, sp: Space, mem': seq<Page>)
    requires Holds(first, mem, sp) && |mem'| == NFRAMES
    requires forall s | s in sp.own && !s.User? && sp.own[s] < NFRAMES :: mem'[sp.own[s]] == mem[sp.own[s]]
    ensures Holds(first, mem', sp)
  {
    assert SlotOk(first, sp.own, Dir);
    forall i: nat ensures DirOk(mem', sp.own, i) { assert DirOk(mem, sp.own, i); }
    forall v: nat ensures PteOk(mem', sp, v) { assert PteOk(mem, sp, v); }
  }

  ghost function WithPte(sp: Space, v: nat, w: Word): Space {
    Space(if v < UPAGES then sp.own[User(v) := Frame(w)] else sp.own, sp.pt[v := w])
  }

  /** A present entry is stored where there was none. */
  lemma SetKeeps(first: nat, mem: seq<Page>, sp: Space, v: nat, w: Word)
    requires Holds(first, mem, sp) && v < VPAGES && Tab(Pdx(v)) in sp.own && v !in sp.pt
    requires Present(w) && (v < UPAGES ==> Fresh(first, sp, Frame(w)))
    ensures SlotOk(first, sp.own, Tab(Pdx(v)))
    ensures var t := sp.own[Tab(Pdx(v))];
      Holds(first, mem[t := mem[t][Ptx(v) := w]], WithPte(sp, v, w))
  {
    var tab := Tab(Pdx(v));
    var t := sp.own[tab];
    var sp' := WithPte(sp, v, w);
    assert SlotOk(first, sp.own, tab) && SlotOk(first, sp.own, Dir) && Apart(sp.own, tab, Dir);
    var mem' := mem[t := mem[t][Ptx(v) := w]];
    forall s ensures SlotOk(first, sp'.own, s) { assert SlotOk(first, sp.own, s); }
    forall s, u ensures Apart(sp'.own, s, u) {
      assert Apart(sp.own, s, u);
      assert s in sp.own ==> sp.own[s] in sp.own.Values;
      assert u in sp.own ==> sp.own[u] in sp.own.Values;
    }
    forall i: nat ensures DirOk(mem', sp'.own, i) { assert DirOk(mem, sp.own, i); }
    forall u: nat ensures PteOk(mem', sp', u) {
      assert PteOk(mem, sp, u);
      if u < VPAGES && Pdx(u) == Pdx(v) {
        if Ptx(u) == Ptx(v) { SamePage(u, v); }
      } else if u < VPAGES {
        assert Apart(sp.own, tab, Tab(Pdx(u)));
      }
    }
  }

  ghost function WithoutPte(sp: Space, v: nat): Space {
    Space(sp.own - {User(v)}, sp.pt - {v})
  }

  /** A user entry is cleared. */
  lemma ClearKeeps(first: nat, mem: seq<Page>, sp: Space, v: nat)
    requires Holds(first, mem, sp) && v in sp.pt && v < UPAGES
    ensures Tab(Pdx(v)) in sp.own && SlotOk(first, sp.own, Tab(Pdx(v)))
    ensures var t := sp.own[Tab(Pdx(v))];
      Holds(first, mem[t := mem[t][Ptx(v) := 0]], WithoutPte(sp, v))
  {
    var tab := Tab(Pdx(v));
    assert PteOk(mem, sp, v);
    var t := sp.own[tab];
    var sp' := WithoutPte(sp, v);
    assert SlotOk(first, sp.own, tab) && SlotOk(first, sp.own, Dir) && Apart(sp.own, tab, Dir);
    var mem' := mem[t := mem[t][Ptx(v) := 0]];
    forall s ensures SlotOk(first, sp'.own, s) { assert SlotOk(first, sp.own, s); }
    forall s, u ensures Apart(sp'.own, s, u) { assert Apart(sp.own, s, u); }
    forall i: nat ensures DirOk(mem', sp'.own, i) { assert DirOk(mem, sp.own, i); }
    forall u: nat ensures PteOk(mem', sp', u) {
      assert PteOk(mem, sp, u);
      if u < VPAGES && Pdx(u) == Pdx(v) {
        if Ptx(u) == Ptx(v) { SamePage(u, v); }
      } else if u < VPAGES {
        assert Apart(sp.own, tab, Tab(Pdx(u)));
      }
    }
  }

  ghost function WithTab(sp: Space, i: nat, f: nat): Space {
    sp.(own := sp.own[Tab(i) := f])
  }

  /** An empty page table is hung into the directory. */
  lemma TabKeeps(first: nat, mem: seq<Page>, sp: Space, i: nat, f: nat, w: Word)
    requires Holds(first, mem, sp) && i < NWORDS && Tab(i) !in sp.own && Fresh(first, sp, f)
    requires Present(w) && Frame(w) == f && Flags(w) == 7
    ensures SlotOk(first, sp.own, Dir)
    ensures var d := sp.own[Dir];
      && d != f
      && Holds(first, mem[f := ZERO_PAGE][d := mem[d][i := w]], WithTab(sp, i, f))
  {
    var d := sp.own[Dir];
    var sp' := WithTab(sp, i, f);
    assert SlotOk(first, sp.own, Dir) && d in sp.own.Values;
    var mem' := mem[f := ZERO_PAGE][d := mem[d][i := w]];
    forall s ensures SlotOk(first, sp'.own, s) { assert SlotOk(first, sp.own, s); }
    forall s, u ensures Apart(sp'.own, s, u) {
      assert Apart(sp.own, s, u);
      assert s in sp.own ==> sp.own[s] in sp.own.Values;
      assert u in sp.own ==> sp.own[u] in sp.own.Values;
    }
    forall k: nat ensures DirOk(mem', sp'.own, k) { assert DirOk(mem, sp.own, k); }
    forall u: nat ensures PteOk(mem', sp', u) {
      assert PteOk(mem, sp, u);
      if u < VPAGES {
        var tab := Tab(Pdx(u));
        assert Apart(sp.own, tab, Dir);
        assert tab in sp.own ==> sp.own[tab] in sp.own.Values;
      }
    }
  }

  /** A cleared directory is an address space with nothing in it. */
  lemma DirHolds(first: nat, mem: seq<Page>, d: nat)
    requires |mem| == NFRAMES && first <= d < NFRAMES && mem[d] == ZERO_PAGE
    ensures Holds(first, mem, Space(map[Dir := d], map[]))
  {
    var sp := Space(map[Dir := d], map[]);
    forall i: nat ensures DirOk(mem, sp.own, i) {}
    forall v: nat ensures PteOk(mem, sp, v) {}
    forall s ensures SlotOk(first, sp.own, s) {}
    forall s, u ensures Apart(sp.own, s, u) {}
  }

  lemma ValuesAdd(own: map<Slot, nat>, s: Slot, f: nat)
    requires s !in own
    ensures own[s := f].Values == own.Values + {f}
  {
    assert s in own[s := f];
    forall x | x in own.Values ensures x in own[s := f].Values {
      var t :| t in own && own[t] == x;
      assert t in own[s := f] && own[s := f][t] == x;
    }
  }

  lemma ValuesDrop(own: map<Slot, nat>, s: Slot)
    requires s in own && forall t :: Apart(own, s, t)
    ensures (own - {s}).Values == own.Values - {own[s]}
  {
    var own' := own - {s};
    forall x | x in own.Values && x != own[s] ensures x in own'.Values {
      var t :| t in own && own[t] == x;
      assert t in own' && own'[t] == x;
    }
    forall t | t in own' ensures own'[t] != own[s] { assert Apart(own, s, t); }
  }

  // --- what the processor makes of the tables ---

  datatype Access = Fault | To(frame: nat, write: bool, user: bool)

  /** The translation of page `v` under the directory in frame `d`: both entries must be present; writes,
      and user accesses, are allowed if both entries allow them (bits 1 and 2). */
  function Translate(mem: seq<Page>, d: nat, v: nat): Access
    requires d < |mem| && v < 0x10_0000
  {
    var pde := mem[d][v / 1024];
    if pde % 2 == 0 || pde / 4096 >= |mem| then Fault
    else
      var pte := mem[pde / 4096][v % 1024];
      if pte % 2 == 0 then Fault
      else To(pte / 4096, pde / 2 % 2 == 1 && pte / 2 % 2 == 1, pde / 4 % 2 == 1 && pte / 4 % 2 == 1)
  }

  function AccessOf(w: Word): Access { To(w / 4096, w / 2 % 2 == 1, w / 4 % 2 == 1) }

  lemma Shifted(a: nat, b: nat, x: nat)
    ensures (2 * a + x) / 2 == a + x / 2 && (4 * b + x) / 4 == b + x / 4
  {
  }

  lemma Even(a: nat, x: nat)
    ensures (2 * a + x) % 2 == x % 2
  {
  }

  lemma Bits(w: nat, f: nat)
    requires w % 4096 == f
    ensures w / 2 % 2 == f / 2 % 2 && w / 4 % 2 == f / 4 % 2
  {
    var q := w / 4096;
    Shifted(2048 * q, 1024 * q, f);
    Even(1024 * q, f / 2);
    Even(512 * q, f / 4);
  }

  /** The processor finds exactly the entries of the address space, with the rights they give. */
  lemma Translates(first: nat, mem: seq<Page>, sp: Space, v: nat)
    requires Holds(first, mem, sp) && v < VPAGES
    ensures SlotOk(first, sp.own, Dir)
    ensures Translate(mem, sp.own[Dir], v) == if v in sp.pt then AccessOf(sp.pt[v]) else Fault
  {
    var d, i := sp.own[Dir], v / 1024;
    assert SlotOk(first, sp.own, Dir) && SlotOk(first, sp.own, Tab(i));
    assert DirOk(mem, sp.own, i) && PteOk(mem, sp, v);
    var pde := mem[d][i];
    if Tab(i) in sp.own { Bits(pde, 7); }
  }

  // --- the page-table code ---

  /** Memory, allocator and address space agree. */
  ghost predicate Good(k: Kmem, sp: Space)
    reads k
  {
    k.Valid() && Holds(k.first, k.mem, sp) && k.avail !! sp.own.Values
  }

  /** Only the frames in `s` have changed. */
  ghost predicate KeptOutside(mem: seq<Page>, mem': seq<Page>, s: set<nat>) {
    |mem'| == |mem| && forall f: nat {:trigger SameFrame(mem, mem', f)} | f !in s :: SameFrame(mem, mem', f)
  }

  ghost predicate SameFrame(mem: seq<Page>, mem': seq<Page>, f: nat) {
    f < |mem| == |mem'| ==> mem'[f] == mem[f]
  }

  /** The frames of the directory and the page tables. */
  ghost function Tables(own: map<Slot, nat>): set<nat> {
    set s | s in own && !s.User? :: own[s]
  }

  lemma TablesAdd(own: map<Slot, nat>, s: Slot, f: nat)
    requires s !in own
    ensures Tables(own[s := f]) == if s.User? then Tables(own) else Tables(own) + {f}
  {
    var own' := own[s := f];
    forall x | x in Tables(own) ensures x in Tables(own') {
      var u :| u in own && !u.User? && own[u] == x;
      assert u in own' && own'[u] == x;
    }
    forall x | x in Tables(own') ensures x in Tables(own) || (x == f && !s.User?) {
      var u :| u in own' && !u.User? && own'[u] == x;
    }
    assert s in own' && own'[s] == f;
  }

  /** The frame of the page table that has the entry of page `v`, or 0. */
  method Walkpgdir(k: Kmem, d: nat, v: nat, alloc: bool, ghost sp: Space) returns (t: nat, ghost sp': Space)
    requires Good(k, sp) && d == sp.own[Dir] && v < VPAGES
    modifies k
    ensures Good(k, sp') && Dir in sp'.own && sp'.own[Dir] == d
    ensures if Tab(Pdx(v)) in sp'.own then t == sp'.own[Tab(Pdx(v))] > 0 else t == 0
    ensures !alloc || Tab(Pdx(v)) in sp.own || old(k.avail) == {} ==>
      sp' == sp && k.mem == old(k.mem) && k.avail == old(k.avail)
    ensures alloc && old(k.avail) != {} ==> t != 0
    ensures MaybeTab(sp, sp', Pdx(v), old(k.avail), k.avail)
    ensures KeptOutside(old(k.mem), k.mem, {t, d})
  {
    sp' := sp;
    var i := Pdx(v);
    assert SlotOk(k.first, sp.own, Dir) && SlotOk(k.first, sp.own, Tab(i)) && DirOk(k.mem, sp.own, i);
    var pde := k.mem[d][i];
    if Present(pde) {
      t := Frame(pde);
    } else {
      t := 0;
      if alloc {
        t := k.Kalloc();
        if t != 0 {
          HangTab(k, d, i, t, sp);
          sp' := WithTab(sp, i, t);
        }
      }
    }
  }

  method HangTab(k: Kmem, d: nat, i: nat, t: nat, ghost sp: Space)
    requires Good(k, sp) && d == sp.own[Dir] && i < NWORDS && Tab(i) !in sp.own
    requires k.first <= t < NFRAMES && t !in k.avail && t !in sp.own.Values
    modifies k`mem
    ensures Good(k, WithTab(sp, i, t))
    ensures WithTab(sp, i, t).own.Values == sp.own.Values + {t}
    ensures KeptOutside(old(k.mem), k.mem, {t, d})
  {
    EntryParts(t, PTE_W + PTE_U);
    TabKeeps(k.first, k.mem, sp, i, t, Entry(t, PTE_W + PTE_U));
    ValuesAdd(sp.own, Tab(i), t);
    assert d in sp.own.Values;
    k.Store(t, ZERO_PAGE);
    k.Store(d, k.mem[d][i := Entry(t, PTE_W + PTE_U)]);
  }

  ghost function Added(v: nat, f: nat): set<nat> {
    if v < UPAGES then {f} else {}
  }

  method StoreEntry(k: Kmem, t: nat, v: nat, w: Word, ghost sp: Space)
    requires Good(k, sp) && v < VPAGES && Tab(Pdx(v)) in sp.own && t == sp.own[Tab(Pdx(v))] && v !in sp.pt
    requires Present(w) && (v < UPAGES ==> Fresh(k.first, sp, Frame(w)) && Frame(w) !in k.avail)
    modifies k`mem
    ensures Good(k, WithPte(sp, v, w))
    ensures WithPte(sp, v, w).own.Values == sp.own.Values + Added(v, Frame(w))
    ensures KeptOutside(old(k.mem), k.mem, {t})
  {
    SetKeeps(k.first, k.mem, sp, v, w);
    assert PteOk(k.mem, sp, v) && t in sp.own.Values;
    if v < UPAGES { ValuesAdd(sp.own, User(v), Frame(w)); }
    k.Store(t, k.mem[t][Ptx(v) := w]);
  }

  datatype MapResult = Mapped | NoMemory | Remap   // Remap is panic("remap")

  ghost predicate RangeAt(sp: Space, sp': Space, lo: nat, hi: nat, f: nat, perm: nat, v: nat)
    requires f + (hi - lo) <= VPAGES && perm < PGSIZE
  {
    && (v in sp'.pt <==> v in sp.pt || lo <= v < hi)
    && (v in sp'.pt ==> sp'.pt[v] == if lo <= v < hi then Entry(f + (v - lo), perm) else sp.pt[v])
    && (User(v) in sp'.own <==> User(v) in sp.own || (lo <= v < hi && v < UPAGES))
    && (User(v) in sp.own ==> User(v) in sp'.own && sp'.own[User(v)] == sp.own[User(v)])
  }

  ghost predicate TabAt(sp: Space, sp': Space, lo: nat, hi: nat, i: nat) {
    && (Tab(i) in sp'.own <==> Tab(i) in sp.own || (lo < hi <= VPAGES && Pdx(lo) <= i <= Pdx(hi - 1)))
    && (Tab(i) in sp.own ==> Tab(i) in sp'.own && sp'.own[Tab(i)] == sp.own[Tab(i)])
  }

  /** `sp'` maps the pages from `lo` up to `hi` to the frames from `f` on, has the page tables they
      need, and has the rest of `sp`. */
  ghost predicate RangeMapped(sp: Space, sp': Space, lo: nat, hi: nat, f: nat, perm: nat) {
    && f + (hi - lo) <= VPAGES && perm < PGSIZE && hi <= VPAGES
    && (forall v: nat {:trigger RangeAt(sp, sp', lo, hi, f, perm, v)} :: RangeAt(sp, sp', lo, hi, f, perm, v))
    && (forall i: nat {:trigger TabAt(sp, sp', lo, hi, i)} :: TabAt(sp, sp', lo, hi, i))
  }

  /** If `v` is a user page, the frame it is to get when `lo` gets frame `f` is nobody's yet. */
  ghost predicate Ready(first: nat, avail: set<nat>, sp: Space, lo: nat, f: nat, v: nat) {
    lo <= v < UPAGES ==> Fresh(first, sp, f + (v - lo)) && f + (v - lo) !in avail
  }

  ghost function UserFrames(lo: nat, hi: nat, f: nat): set<nat>
    decreases hi - lo
  {
    if lo >= hi then {} else UserFrames(lo, hi - 1, f) + Added(hi - 1, f + (hi - 1 - lo))
  }

  lemma UserFramesStep(lo: nat, a: nat, b: nat, f: nat, x: set<nat>)
    requires lo <= a && (if b == a then x == {} else b == a + 1 && x == Added(a, f + (a - lo)))
    ensures UserFrames(lo, b, f) == UserFrames(lo, a, f) + x
  {
  }

  lemma PdxNext(v: nat)
    requires v + 1 < VPAGES
    ensures Pdx(v) <= Pdx(v + 1) <= Pdx(v) + 1
  {
  }

  lemma PdxUp(u: nat, v: nat)
    requires u <= v < VPAGES
    ensures Pdx(u) <= Pdx(v)
  {
  }

  lemma RangeStep(sp: Space, s1: Space, s2: Space, lo: nat, a: nat, b: nat, f: nat, g: nat, perm: nat)
    requires lo <= a <= b && RangeMapped(sp, s1, lo, a, f, perm)
    requires RangeMapped(s1, s2, a, b, g, perm) && g == f + (a - lo)
    ensures RangeMapped(sp, s2, lo, b, f, perm)
  {
    forall v: nat ensures RangeAt(sp, s2, lo, b, f, perm, v) {
      assert RangeAt(sp, s1, lo, a, f, perm, v) && RangeAt(s1, s2, a, b, g, perm, v);
    }
    forall i: nat ensures TabAt(sp, s2, lo, b, i) {
      assert TabAt(sp, s1, lo, a, i) && TabAt(s1, s2, a, b, i);
      if lo < a < b { PdxNext(a - 1); PdxUp(lo, a - 1); PdxUp(a, b - 1); }
    }
  }

  lemma KeptStep(m0: seq<Page>, m1: seq<Page>, m2: seq<Page>, x: set<nat>, y: set<nat>, z: set<nat>)
    requires KeptOutside(m0, m1, x) && KeptOutside(m1, m2, y) && x <= z && y <= z
    ensures KeptOutside(m0, m2, z)
  {
    forall f: nat | f !in z ensures SameFrame(m0, m2, f) {
      assert SameFrame(m0, m1, f) && SameFrame(m1, m2, f);
    }
  }

  /** walkpgdir may add a page table and nothing else. */
  ghost predicate MaybeTab(sp: Space, s1: Space, i: nat, avail: set<nat>, avail': set<nat>) {
    || (s1 == sp && avail' == avail)
    || (Tab(i) !in sp.own && exists t :: t in avail && s1 == WithTab(sp, i, t) && avail' == avail - {t})
  }

  lemma TabOnly(sp: Space, s1: Space, i: nat, avail: set<nat>, avail': set<nat>)
    requires MaybeTab(sp, s1, i, avail, avail')
    ensures s1.pt == sp.pt && Tables(sp.own) <= Tables(s1.own) <= Tables(sp.own) + avail && avail' <= avail
    ensures s1 == sp || (Tab(i) !in sp.own && exists t :: s1 == WithTab(sp, i, t))
    ensures avail' + s1.own.Values == avail + sp.own.Values
  {
    if s1 != sp || avail' != avail {
      var t :| t in avail && s1 == WithTab(sp, i, t) && avail' == avail - {t};
      TablesAdd(sp.own, Tab(i), t);
      ValuesAdd(sp.own, Tab(i), t);
    }
  }

  lemma OneMapped(sp: Space, s1: Space, a: nat, g: nat, perm: nat)
    requires s1.pt == sp.pt && perm < PGSIZE && g < VPAGES && a < VPAGES && Frame(Entry(g, perm)) == g
    requires s1 == sp || (Tab(Pdx(a)) !in sp.own && exists t :: s1 == WithTab(sp, Pdx(a), t))
    ensures s1 == sp ==> RangeMapped(sp, s1, a, a, g, perm)
    ensures User(a) !in sp.own && Tab(Pdx(a)) in s1.own ==>
      RangeMapped(sp, WithPte(s1, a, Entry(g, perm)), a, a + 1, g, perm)
  {
    var s2, b := WithPte(s1, a, Entry(g, perm)), a + 1;
    if s1 == sp {
      forall v: nat ensures RangeAt(sp, s1, a, a, g, perm, v) && TabAt(sp, s1, a, a, v) {}
    }
    if User(a) !in sp.own && Tab(Pdx(a)) in s1.own {
      forall v: nat ensures RangeAt(sp, s2, a, b, g, perm, v) {}
      forall i: nat ensures TabAt(sp, s2, a, b, i) {}
    }
  }

  /** From one state to the next, `sp` became `sp'`: frames were taken from the free ones and from
      `extra`, none was lost, and only page tables were written. */
  ghost predicate Grown(avail: set<nat>, mem: seq<Page>, sp: Space,
                        avail': set<nat>, mem': seq<Page>, sp': Space, extra: set<nat>) {
    && avail' + sp'.own.Values == avail + sp.own.Values + extra
    && avail' <= avail
    && Tables(sp.own) <= Tables(sp'.own) <= Tables(sp.own) + avail
    && KeptOutside(mem, mem', avail + Tables(sp.own))
  }

  lemma GrownStep(a0: set<nat>, m0: seq<Page>, s0: Space, a1: set<nat>, m1: seq<Page>, s1: Space,
                  a2: set<nat>, m2: seq<Page>, s2: Space, x: set<nat>, y: set<nat>, z: set<nat>)
    requires Grown(a0, m0, s0, a1, m1, s1, x) && Grown(a1, m1, s1, a2, m2, s2, y) && z == x + y
    ensures Grown(a0, m0, s0, a2, m2, s2, z)
  {
    KeptStep(m0, m1, m2, a0 + Tables(s0.own), a1 + Tables(s1.own), a0 + Tables(s0.own));
  }

  lemma ReadyKeeps(first: nat, avail: set<nat>, sp: Space, avail': set<nat>, sp': Space, lo: nat, f: nat,
                   a: nat, last: nat, x: set<nat>)
    requires lo <= a && forall v: nat | a <= v <= last :: Ready(first, avail, sp, lo, f, v)
    requires avail' + sp'.own.Values == avail + sp.own.Values + x && x == Added(a, f + (a - lo))
    ensures forall v: nat | a + 1 <= v <= last :: Ready(first, avail', sp', lo, f, v)
  {
    forall v: nat | a + 1 <= v <= last ensures Ready(first, avail', sp', lo, f, v) {
      assert Ready(first, avail, sp, lo, f, v);
      assert f + (v - lo) in avail' + sp'.own.Values <==>
        f + (v - lo) in avail + sp.own.Values + Added(a, f + (a - lo));
    }
  }

  /** One turn of mappages' loop: page `a` gets frame `g`. */
  method MapOne(k: Kmem, d: nat, a: nat, g: nat, perm: nat, ghost sp: Space) returns (r: MapResult, ghost sp': Space)
    requires Good(k, sp) && d == sp.own[Dir] && perm < PGSIZE && a < VPAGES && g < VPAGES
    requires a < UPAGES ==> Fresh(k.first, sp, g) && g !in k.avail
    modifies k
    ensures Good(k, sp') && Dir in sp'.own && sp'.own[Dir] == d
    ensures RangeMapped(sp, sp', a, if r.Mapped? then a + 1 else a, g, perm)
    ensures r.Remap? <==> a in sp.pt
    ensures r.NoMemory? ==> k.avail == {} && Tab(Pdx(a)) !in sp'.own
    ensures Grown(old(k.avail), old(k.mem), sp, k.avail, k.mem, sp', if r.Mapped? then Added(a, g) else {})
  {
    assert PteOk(k.mem, sp, a);
    var t, s1 := Walkpgdir(k, d, a, true, sp);
    TabOnly(sp, s1, Pdx(a), old(k.avail), k.avail);
    EntryParts(g, perm);
    ghost var touched := old(k.avail) + Tables(sp.own);
    assert d in Tables(sp.own) && (t != 0 ==> t in Tables(s1.own)) && PteOk(k.mem, s1, a);
    OneMapped(sp, s1, a, g, perm);
    if t == 0 {
      return NoMemory, s1;
    }
    KeptStep(old(k.mem), k.mem, k.mem, {t, d}, {}, touched);
    assert SlotOk(k.first, s1.own, Tab(Pdx(a)));
    if Present(k.mem[t][Ptx(a)]) {
      return Remap, s1;
    }
    if a < UPAGES { TablesAdd(s1.own, User(a), g); }
    ghost var mem1 := k.mem;
    StoreEntry(k, t, a, Entry(g, perm), s1);
    KeptStep(old(k.mem), mem1, k.mem, touched, {t}, touched);
    return Mapped, WithPte(s1, a, Entry(g, perm));
  }

  function FirstPage(va: nat): nat { va / PGSIZE }

  function LastPage(va: nat, size: nat): (last: nat)
    requires 0 < size && va + size <= 0x1_0000_0000
    ensures FirstPage(va) <= last < VPAGES
  {
    (va + size - 1) / PGSIZE
  }

  /** Maps the pages of [va, va + size), which may end at 2^32, to the frames from f on. */
  method Mappages(k: Kmem, d: nat, va: nat, size: nat, f: nat, perm: nat, ghost sp: Space)
    returns (r: MapResult, ghost sp': Space, ghost hi: nat)
    requires Good(k, sp) && d == sp.own[Dir] && perm < PGSIZE
    requires 0 < size && va + size <= 0x1_0000_0000
    requires f + (LastPage(va, size) - FirstPage(va)) < VPAGES
    requires forall v: nat | v <= LastPage(va, size) :: Ready(k.first, k.avail, sp, FirstPage(va), f, v)
    modifies k
    ensures Good(k, sp') && Dir in sp'.own && sp'.own[Dir] == d
    ensures FirstPage(va) <= hi <= LastPage(va, size) + 1
    ensures RangeMapped(sp, sp', FirstPage(va), hi, f, perm)
    ensures r.Mapped? <==> hi == LastPage(va, size) + 1
    ensures r.Remap? <==> hi <= LastPage(va, size) && hi in sp.pt
    ensures r.NoMemory? ==> k.avail == {} && Tab(Pdx(hi)) !in sp'.own
    ensures Grown(old(k.avail), old(k.mem), sp, k.avail, k.mem, sp', UserFrames(FirstPage(va), hi, f))
  {
    var end := (va + size) % 0x1_0000_0000;
    var last := (if end == 0 then 0xFFFF_FFFF else end - 1) / PGSIZE;
    assert last == LastPage(va, size);
    var a := FirstPage(va);
    r, sp', hi := MapLoop(k, d, a, last, f, perm, sp);
  }

  /** a + PGSIZE in 32-bit arithmetic. */
  function NextPage(v: nat): nat {
    if v + 1 == VPAGES then 0 else v + 1
  }

  method MapLoop(k: Kmem, d: nat, lo: nat, last: nat, f: nat, perm: nat, ghost sp: Space)
    returns (r: MapResult, ghost sp': Space, ghost hi: nat)
    requires Good(k, sp) && d == sp.own[Dir] && perm < PGSIZE
    requires lo <= last < VPAGES && f + (last - lo) < VPAGES
    requires forall v: nat | v <= last :: Ready(k.first, k.avail, sp, lo, f, v)
    modifies k
    ensures Good(k, sp') && Dir in sp'.own && sp'.own[Dir] == d
    ensures lo <= hi <= last + 1 && RangeMapped(sp, sp', lo, hi, f, perm)
    ensures r.Mapped? <==> hi == last + 1
    ensures r.Remap? <==> hi <= last && hi in sp.pt
    ensures r.NoMemory? ==> k.avail == {} && Tab(Pdx(hi)) !in sp'.own
    ensures Grown(old(k.avail), old(k.mem), sp, k.avail, k.mem, sp', UserFrames(lo, hi, f))
  {
    var a, g := lo, f;
    sp' := sp;
    hi := lo;
    while true
      invariant lo <= a <= last && g == f + (a - lo) && hi == a
      invariant Good(k, sp') && Dir in sp'.own && sp'.own[Dir] == d
      invariant RangeMapped(sp, sp', lo, a, f, perm)
      invariant forall v: nat | a <= v <= last :: Ready(k.first, k.avail, sp', lo, f, v)
      invariant Grown(old(k.avail), old(k.mem), sp, k.avail, k.mem, sp', UserFrames(lo, a, f))
      decreases last - a
    {
      ghost var s, av, m := sp', k.avail, k.mem;
      assert Ready(k.first, k.avail, s, lo, f, a) && RangeAt(sp, s, lo, a, f, perm, a);
      r, sp' := MapOne(k, d, a, g, perm, s);
      ghost var x := if r.Mapped? then Added(a, g) else {};
      ghost var b := if r.Mapped? then a + 1 else a;
      UserFramesStep(lo, a, b, f, x);
      GrownStep(old(k.avail), old(k.mem), sp, av, m, s, k.avail, k.mem, sp',
                UserFrames(lo, a, f), x, UserFrames(lo, b, f));
      RangeStep(sp, s, sp', lo, a, b, f, g, perm);
      hi := b;
      if !r.Mapped? {
        return;
      }
      ReadyKeeps(k.first, av, s, k.avail, sp', lo, f, a, last, x);
      if a == last {
        return;
      }
      a, g := NextPage(a), NextPage(g);
    }
  }

  // --- the kernel's part of every address space ---

  const EXTMEM: nat := 0x10_0000
  const DEVSPACE: nat := 0xFE00_0000

  datatype Kmap = Kmap(virt: nat, physStart: nat, physEnd: nat, perm: nat)

  /** The table kmap, where `dp` is the frame in which the kernel's data begins. */
  function KmapTable(dp: nat): seq<Kmap> {
    [ Kmap(KERNBASE, 0, EXTMEM, PTE_W),
      Kmap(KERNBASE + EXTMEM, EXTMEM, dp * PGSIZE, 0),
      Kmap(KERNBASE + dp * PGSIZE, dp * PGSIZE, PHYSTOP, PTE_W),
      Kmap(DEVSPACE, DEVSPACE, 0, PTE_W) ]
  }

  // The frame of EXTMEM, and the page of DEVSPACE.
  const EXT: nat := 0x100
  const DEV: nat := 0xFE000

  /** Page `v` is covered by the first `i` lines of the table. */
  ghost predicate KernelPage(dp: nat, i: nat, v: nat) {
    || (i >= 1 && UPAGES <= v < UPAGES + EXT)
    || (i >= 2 && UPAGES + EXT <= v < UPAGES + dp)
    || (i >= 3 && UPAGES + dp <= v < UPAGES + NFRAMES)
    || (i >= 4 && DEV <= v < VPAGES)
  }

  /** Physical memory appears at KERNBASE, the text read-only; devices appear at their own addresses. */
  ghost function KernelEntry(dp: nat, v: nat): Word
    requires UPAGES <= v < VPAGES
  {
    if v < UPAGES + NFRAMES then Entry(v - UPAGES, if EXT <= v - UPAGES < dp then 0 else PTE_W)
    else Entry(v, PTE_W)
  }

  ghost predicate KernelAt(dp: nat, i: nat, sp: Space, v: nat) {
    && (v >= UPAGES ==> (v in sp.pt <==> KernelPage(dp, i, v)))
    && (UPAGES <= v < VPAGES && v in sp.pt ==> sp.pt[v] == KernelEntry(dp, v))
  }

  ghost predicate KernelMapped(dp: nat, i: nat, sp: Space) {
    forall v: nat {:trigger KernelAt(dp, i, sp, v)} :: KernelAt(dp, i, sp, v)
  }

  ghost predicate NoUser(sp: Space) {
    forall v: nat :: v in sp.pt ==> v >= UPAGES
  }

  // The pages and frames of one line of the table.
  function LineLo(dp: nat, i: nat): nat {
    if i == 0 then UPAGES else if i == 1 then UPAGES + EXT else if i == 2 then UPAGES + dp else DEV
  }
  function LineHi(dp: nat, i: nat): nat {
    if i == 0 then UPAGES + EXT else if i == 1 then UPAGES + dp else if i == 2 then UPAGES + NFRAMES else VPAGES
  }
  function LineFrame(dp: nat, i: nat): nat {
    if i == 3 then DEV else LineLo(dp, i) - UPAGES
  }

  lemma LineIs(dp: nat, i: nat)
    requires EXT < dp < NFRAMES && i < 4
    ensures var e := KmapTable(dp)[i]; var size := (e.physEnd - e.physStart) % 0x1_0000_0000;
      && e.perm < PGSIZE && 0 < size && e.virt + size <= 0x1_0000_0000
      && FirstPage(e.virt) == LineLo(dp, i) && LastPage(e.virt, size) + 1 == LineHi(dp, i)
      && e.physStart / PGSIZE == LineFrame(dp, i)
  {
    DivMod(dp, 0);
  }

  lemma LineMaps(dp: nat, i: nat, sp: Space, sp': Space)
    requires EXT < dp < NFRAMES && i < 4 && KernelMapped(dp, i, sp) && NoUser(sp)
    requires RangeMapped(sp, sp', LineLo(dp, i), LineHi(dp, i), LineFrame(dp, i), KmapTable(dp)[i].perm)
    ensures KernelMapped(dp, i + 1, sp') && NoUser(sp')
  {
    var lo, hi, f, perm, j := LineLo(dp, i), LineHi(dp, i), LineFrame(dp, i), KmapTable(dp)[i].perm, i + 1;
    forall v: nat ensures KernelAt(dp, j, sp', v) && (v in sp'.pt ==> v >= UPAGES) {
      assert RangeAt(sp, sp', lo, hi, f, perm, v) && KernelAt(dp, i, sp, v);
    }
  }

  lemma LineFree(dp: nat, i: nat, sp: Space, v: nat)
    requires EXT < dp < NFRAMES && i < 4 && KernelMapped(dp, i, sp)
    requires LineLo(dp, i) <= v < LineHi(dp, i)
    ensures v !in sp.pt
  {
    assert KernelAt(dp, i, sp, v);
  }
}
