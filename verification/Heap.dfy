/** The storage allocator of umalloc.c. Memory is a sequence of header-sized
    units; a pointer is the index of a unit. Unit 0 is the static `base`, which
    lies below the heap, so index 0 also is the lowest address in the free list. */
module Heap {
  import opened Params

  datatype Header = Header(ptr: nat, size: nat)

  type Memory = seq<Header>

  const BASE: nat := 0

  // ---------- the free list ----------

  /** The address after the k-th free block, going round. */
  ghost function Succ(fl: seq<nat>, k: nat): nat
    requires k < |fl|
  {
    if k + 1 < |fl| then fl[k + 1] else fl[0]
  }

  ghost function Size(mem: Memory, a: nat): nat {
    if a < |mem| then mem[a].size else 0
  }

  ghost predicate NodeOk(mem: Memory, fl: seq<nat>, k: nat)
    requires k < |fl|
  {
    && fl[k] < |mem|
    && fl[k] + mem[fl[k]].size <= |mem|
    && (k > 0 ==> mem[fl[k]].size > 0)
    && mem[fl[k]].ptr == Succ(fl, k)
  }

  ghost predicate PairOk(mem: Memory, fl: seq<nat>, i: nat, j: nat)
    requires i < |fl| && j < |fl|
  {
    fl[i] < fl[j] && fl[i] + Size(mem, fl[i]) <= fl[j]
  }

  /** `fl` is the free list: a cycle through `base` and the free blocks in
      address order, which do not overlap. */
  ghost predicate FreeList(mem: Memory, fl: seq<nat>) {
    && |mem| > 0 && |fl| > 0 && fl[0] == BASE && mem[BASE].size == 0
    && (forall k: nat {:trigger NodeOk(mem, fl, k)} | k < |fl| :: NodeOk(mem, fl, k))
    && (forall i: nat, j: nat {:trigger PairOk(mem, fl, i, j)} | i < j < |fl| :: PairOk(mem, fl, i, j))
  }

  /** The k-th free block does not touch the next one. */
  ghost predicate Gap(mem: Memory, fl: seq<nat>, k: nat) {
    k + 1 < |fl| ==> fl[k] + Size(mem, fl[k]) < fl[k + 1]
  }

  /** No two free blocks touch. */
  ghost predicate Coalesced(mem: Memory, fl: seq<nat>) {
    forall k: nat {:trigger Gap(mem, fl, k)} :: Gap(mem, fl, k)
  }

  ghost predicate InFree(mem: Memory, fl: seq<nat>, u: nat) {
    exists k :: 0 <= k < |fl| && fl[k] <= u < fl[k] + Size(mem, fl[k])
  }

  /** Link `bp` in after `p`. */
  ghost function Insert(mem: Memory, p: nat, bp: nat): Memory
    requires p < |mem| && bp < |mem|
  {
    mem[bp := mem[bp].(ptr := mem[p].ptr)][p := mem[p].(ptr := bp)]
  }

  /** Join a free block with the one after it. */
  ghost function Merge(mem: Memory, a: nat): Memory
    requires a < |mem| && mem[a].ptr < |mem|
  {
    var b := mem[a].ptr;
    mem[a := Header(mem[b].ptr, mem[a].size + mem[b].size)]
  }

  ghost function Inserted(fl: seq<nat>, i: nat, bp: nat): seq<nat>
    requires i < |fl|
  {
    fl[..i + 1] + [bp] + fl[i + 1..]
  }

  ghost function Removed(fl: seq<nat>, k: nat): seq<nat>
    requires k < |fl|
  {
    fl[..k] + fl[k + 1..]
  }

  ghost predicate FitsAfter(mem: Memory, fl: seq<nat>, i: nat, bp: nat) {
    && i < |fl| && 0 < bp < |mem|
    && mem[bp].size > 0 && bp + mem[bp].size <= |mem|
    && fl[i] < bp && fl[i] + Size(mem, fl[i]) <= bp
    && (i + 1 < |fl| ==> bp + mem[bp].size <= fl[i + 1])
  }

  lemma InsertPairs(mem: Memory, fl: seq<nat>, i: nat, bp: nat, a: nat, b: nat)
    requires FreeList(mem, fl) && FitsAfter(mem, fl, i, bp) && a < b < |Inserted(fl, i, bp)|
    ensures PairOk(mem, Inserted(fl, i, bp), a, b)
  {
    if a < i { assert PairOk(mem, fl, a, i); }
    if b > i + 2 { assert PairOk(mem, fl, i + 1, b - 1); }
    if a <= i && b > i + 1 { assert PairOk(mem, fl, a, b - 1); }
    if a > i + 1 { assert PairOk(mem, fl, a - 1, b - 1); }
    if b <= i { assert PairOk(mem, fl, a, b); }
  }

  lemma InsertKeeps(mem: Memory, fl: seq<nat>, i: nat, bp: nat)
    requires FreeList(mem, fl) && FitsAfter(mem, fl, i, bp)
    ensures FreeList(Insert(mem, fl[i], bp), Inserted(fl, i, bp))
  {
    var mem', fl' := Insert(mem, fl[i], bp), Inserted(fl, i, bp);
    assert NodeOk(mem, fl, i);
    forall a: nat, b: nat | a < b < |fl'| ensures PairOk(mem', fl', a, b) {
      InsertPairs(mem, fl, i, bp, a, b);
    }
    forall k: nat | k < |fl'| ensures NodeOk(mem', fl', k) {
      if k < i {
        assert NodeOk(mem, fl, k) && PairOk(mem, fl, k, i);
      } else if k > i + 1 {
        assert NodeOk(mem, fl, k - 1) && PairOk(mem', fl', i + 1, k) && PairOk(mem', fl', i, k);
      }
    }
  }

  lemma MergeKeeps(mem: Memory, fl: seq<nat>, k: nat)
    requires FreeList(mem, fl) && 1 <= k && k + 1 < |fl| && fl[k] + Size(mem, fl[k]) == fl[k + 1]
    ensures fl[k] < |mem| && mem[fl[k]].ptr == fl[k + 1] < |mem|
    ensures FreeList(Merge(mem, fl[k]), Removed(fl, k + 1))
  {
    assert NodeOk(mem, fl, k) && NodeOk(mem, fl, k + 1) && PairOk(mem, fl, 0, k);
    var mem', fl' := Merge(mem, fl[k]), Removed(fl, k + 1);
    forall j: nat | j < |fl'| ensures NodeOk(mem', fl', j) {
      if j < k {
        assert NodeOk(mem, fl, j) && PairOk(mem, fl, j, k);
      } else if j > k {
        assert NodeOk(mem, fl, j + 1) && PairOk(mem, fl, k, j + 1);
      }
    }
    forall a: nat, b: nat | a < b < |fl'| ensures PairOk(mem', fl', a, b) {
      var a', b' := if a <= k then a else a + 1, if b <= k then b else b + 1;
      assert PairOk(mem, fl, a', b');
      if a == k { assert PairOk(mem, fl, k + 1, b'); }
      if a < k { assert PairOk(mem, fl, a, k); }
      if a > k { assert PairOk(mem, fl, k, a'); }
    }
  }

  // ---------- who owns which unit ----------

  /** Live blocks, by the address of their header, with their size in units. */
  type Live = map<nat, nat>

  ghost predicate InLive(live: Live, u: nat) {
    exists a :: a in live && a <= u < a + live[a]
  }

  ghost predicate LiveOk(mem: Memory, live: Live) {
    && (forall a | a in live :: 0 < a && 0 < live[a] && a + live[a] <= |mem| && mem[a].size == live[a])
    && (forall a, b | a in live && b in live && a < b :: a + live[a] <= b)
  }

  /** The units obtained from sbrk are exactly those of the free and the live
      blocks, and no unit is in both. */
  ghost predicate Exact(mem: Memory, fl: seq<nat>, live: Live, heap: set<nat>) {
    && (forall u: nat {:trigger u in heap} :: u in heap <==> InFree(mem, fl, u) || InLive(live, u))
    && (forall u: nat {:trigger u in heap} | u in heap :: !(InFree(mem, fl, u) && InLive(live, u)))
    && (forall u | u in heap :: 0 < u < |mem|)
  }

  ghost predicate State(mem: Memory, fl: seq<nat>, live: Live, heap: set<nat>) {
    FreeList(mem, fl) && Coalesced(mem, fl) && LiveOk(mem, live) && Exact(mem, fl, live, heap)
  }

  /** A live block and a free block do not overlap. */
  lemma BlocksApart(mem: Memory, fl: seq<nat>, live: Live, heap: set<nat>, k: nat, a: nat)
    requires FreeList(mem, fl) && LiveOk(mem, live) && Exact(mem, fl, live, heap) && k < |fl| && a in live
    ensures (fl[k] < a && fl[k] + Size(mem, fl[k]) <= a) || a + live[a] <= fl[k]
  {
    assert NodeOk(mem, fl, k);
    var u := if fl[k] < a then a else fl[k];
    assert u in heap <==> InFree(mem, fl, u) || InLive(live, u);
  }

  /** As State, but free blocks may touch. */
  ghost predicate Loose(mem: Memory, fl: seq<nat>, live: Live, heap: set<nat>) {
    FreeList(mem, fl) && LiveOk(mem, live) && Exact(mem, fl, live, heap)
  }

  lemma InsertFree(mem: Memory, fl: seq<nat>, i: nat, bp: nat, u: nat)
    requires FreeList(mem, fl) && i < |fl| && fl[i] < |mem| && bp < |mem|
    ensures InFree(Insert(mem, fl[i], bp), Inserted(fl, i, bp), u) <==>
            InFree(mem, fl, u) || bp <= u < bp + mem[bp].size
  {
    var mem', fl' := Insert(mem, fl[i], bp), Inserted(fl, i, bp);
    if k :| 0 <= k < |fl| && fl[k] <= u < fl[k] + Size(mem, fl[k]) {
      assert fl'[if k <= i then k else k + 1] == fl[k];
    }
    if k :| 0 <= k < |fl'| && fl'[k] <= u < fl'[k] + Size(mem', fl'[k]) {
      assert k == i + 1 || fl'[k] == fl[if k <= i then k else k - 1];
    }
    assert fl'[i + 1] == bp;
  }

  lemma MergeFree(mem: Memory, fl: seq<nat>, k: nat, u: nat)
    requires FreeList(mem, fl) && 1 <= k && k + 1 < |fl| && fl[k] + Size(mem, fl[k]) == fl[k + 1]
    requires fl[k] < |mem| && mem[fl[k]].ptr == fl[k + 1] < |mem|
    ensures InFree(Merge(mem, fl[k]), Removed(fl, k + 1), u) <==> InFree(mem, fl, u)
  {
    var mem', fl' := Merge(mem, fl[k]), Removed(fl, k + 1);
    if j :| 0 <= j < |fl| && fl[j] <= u < fl[j] + Size(mem, fl[j]) {
      var j' := if j <= k then j else j - 1;
      if j != k && j != k + 1 { assert if j < k then PairOk(mem, fl, j, k) else PairOk(mem, fl, k, j); }
      assert fl'[j'] == if j == k + 1 then fl[k] else fl[j];
      assert fl'[j'] <= u < fl'[j'] + Size(mem', fl'[j']);
    }
    if j :| 0 <= j < |fl'| && fl'[j] <= u < fl'[j] + Size(mem', fl'[j]) {
      var j' := if j <= k then j else j + 1;
      assert fl'[j] == fl[j'];
      if j != k { assert if j < k then PairOk(mem, fl, j, k) else PairOk(mem, fl, k, j'); }
      assert InFree(mem, fl, u) by {
        if j == k && u >= fl[k + 1] {
          assert fl[k + 1] <= u < fl[k + 1] + Size(mem, fl[k + 1]);
        } else {
          assert fl[j'] <= u < fl[j'] + Size(mem, fl[j']);
        }
      }
    }
  }

  /** A live block goes back into the list, not yet joined with its neighbours. */
  lemma InsertLoose(mem: Memory, fl: seq<nat>, live: Live, heap: set<nat>, i: nat, bp: nat)
    requires State(mem, fl, live, heap) && bp in live
    requires i < |fl| && fl[i] < bp && (i + 1 < |fl| ==> bp < fl[i + 1])
    ensures bp < |mem| && Loose(Insert(mem, fl[i], bp), Inserted(fl, i, bp), live - {bp}, heap)
    ensures forall k: nat | k != i && k != i + 1 :: Gap(Insert(mem, fl[i], bp), Inserted(fl, i, bp), k)
  {
    var mem', fl', live' := Insert(mem, fl[i], bp), Inserted(fl, i, bp), live - {bp};
    BlocksApart(mem, fl, live, heap, i, bp);
    if i + 1 < |fl| { BlocksApart(mem, fl, live, heap, i + 1, bp); }
    InsertKeeps(mem, fl, i, bp);
    forall u: nat ensures InFree(mem', fl', u) <==> InFree(mem, fl, u) || bp <= u < bp + live[bp] {
      InsertFree(mem, fl, i, bp, u);
    }
    forall u: nat ensures InLive(live, u) <==> InLive(live', u) || bp <= u < bp + live[bp] {
      if a :| a in live && a <= u < a + live[a] {
        assert a == bp || a in live';
      }
    }
    forall u: nat ensures !(InLive(live', u) && bp <= u < bp + live[bp]) {
    }
    forall k: nat | k != i && k != i + 1 ensures Gap(mem', fl', k) {
      assert Gap(mem, fl, if k < i then k else k - 1);
    }
  }

  /** Joining two touching free blocks. */
  lemma MergeLoose(mem: Memory, fl: seq<nat>, live: Live, heap: set<nat>, k: nat)
    requires Loose(mem, fl, live, heap) && 1 <= k && k + 1 < |fl| && fl[k] + Size(mem, fl[k]) == fl[k + 1]
    ensures fl[k] < |mem| && mem[fl[k]].ptr == fl[k + 1] < |mem|
    ensures Loose(Merge(mem, fl[k]), Removed(fl, k + 1), live, heap)
  {
    MergeKeeps(mem, fl, k);
    var mem', fl' := Merge(mem, fl[k]), Removed(fl, k + 1);
    forall u: nat ensures InFree(mem', fl', u) <==> InFree(mem, fl, u) { MergeFree(mem, fl, k, u); }
    forall a | a in live ensures a != fl[k] { BlocksApart(mem, fl, live, heap, k, a); }
  }

  lemma MergeGap(mem: Memory, fl: seq<nat>, k: nat, j: nat)
    requires FreeList(mem, fl) && 1 <= k && k + 1 < |fl| && fl[k] + Size(mem, fl[k]) == fl[k + 1]
    requires fl[k] < |mem| && mem[fl[k]].ptr == fl[k + 1] < |mem|
    requires if j < k then Gap(mem, fl, j) else Gap(mem, fl, j + 1)
    ensures Gap(Merge(mem, fl[k]), Removed(fl, k + 1), j)
  {
    if j < k { assert PairOk(mem, fl, j, k); }
    if j > k && j + 1 < |fl| { assert PairOk(mem, fl, k, j + 1); }
  }

  /** free() after its first step: `bp` is linked in after the i-th block, and
      joined with the block above if they touch. */
  ghost predicate TouchesUp(mem: Memory, fl: seq<nat>, i: nat, bp: nat)
    requires bp < |mem|
  {
    i + 1 < |fl| && bp + mem[bp].size == fl[i + 1]
  }

  ghost function UpperMemory(mem: Memory, fl: seq<nat>, i: nat, bp: nat): (m: Memory)
    requires i < |fl| && fl[i] < |mem| && bp < |mem| && mem[fl[i]].ptr < |mem|
    ensures |m| == |mem|
  {
    var m1 := Insert(mem, fl[i], bp);
    if TouchesUp(mem, fl, i, bp) && m1[bp].ptr < |mem| then Merge(m1, bp) else m1
  }

  ghost function UpperList(mem: Memory, fl: seq<nat>, i: nat, bp: nat): (f: seq<nat>)
    requires i < |fl| && bp < |mem|
    ensures i + 1 < |f| && f[i] == fl[i] && f[i + 1] == bp
  {
    var f1 := Inserted(fl, i, bp);
    if TouchesUp(mem, fl, i, bp) then Removed(f1, i + 2) else f1
  }

  /** free(): and then joined with the block below if they touch. */
  ghost function FreedList(mem: Memory, fl: seq<nat>, i: nat, bp: nat): (f: seq<nat>)
    requires i < |fl| && bp < |mem|
    ensures i < |f| && f[i] == fl[i]
  {
    if fl[i] + Size(mem, fl[i]) == bp then Removed(UpperList(mem, fl, i, bp), i + 1) else UpperList(mem, fl, i, bp)
  }

  ghost function FreedMemory(mem: Memory, fl: seq<nat>, i: nat, bp: nat): Memory
    requires i < |fl| && fl[i] < |mem| && bp < |mem| && mem[fl[i]].ptr < |mem|
  {
    var m2 := UpperMemory(mem, fl, i, bp);
    if fl[i] + Size(mem, fl[i]) == bp && m2[fl[i]].ptr < |mem| then Merge(m2, fl[i]) else m2
  }

  /** First half of free(). */
  lemma FreeUpper(mem: Memory, fl: seq<nat>, live: Live, heap: set<nat>, i: nat, bp: nat)
    requires State(mem, fl, live, heap) && bp in live
    requires i < |fl| && fl[i] < bp < |mem| && mem[fl[i]].ptr < |mem| && (i + 1 < |fl| ==> bp < fl[i + 1])
    ensures var m2, f2 := UpperMemory(mem, fl, i, bp), UpperList(mem, fl, i, bp);
            && Loose(m2, f2, live - {bp}, heap)
            && (forall k: nat | k != i :: Gap(m2, f2, k))
            && m2[fl[i]] == Header(bp, mem[fl[i]].size)
  {
    InsertLoose(mem, fl, live, heap, i, bp);
    var m1, f1 := Insert(mem, fl[i], bp), Inserted(fl, i, bp);
    assert f1[i + 1] == bp && Size(m1, bp) == mem[bp].size;
    if i + 1 < |fl| {
      assert f1[i + 2] == fl[i + 1];
      assert PairOk(m1, f1, i + 1, i + 2);
    }
    if TouchesUp(mem, fl, i, bp) {
      MergeLoose(m1, f1, live - {bp}, heap, i + 1);
      var m2, f2 := Merge(m1, bp), Removed(f1, i + 2);
      forall k: nat | k != i ensures Gap(m2, f2, k) { MergeGap(m1, f1, i + 1, k); }
    } else {
      assert Gap(m1, f1, i + 1);
    }
  }

  lemma FreeKeeps(mem: Memory, fl: seq<nat>, live: Live, heap: set<nat>, i: nat, bp: nat)
    requires State(mem, fl, live, heap) && bp in live
    requires i < |fl| && fl[i] < bp && (i + 1 < |fl| ==> bp < fl[i + 1])
    ensures bp < |mem| && fl[i] < |mem| && mem[fl[i]].ptr == Succ(fl, i) < |mem|
    ensures State(FreedMemory(mem, fl, i, bp), FreedList(mem, fl, i, bp), live - {bp}, heap)
  {
    assert NodeOk(mem, fl, i) && NodeOk(mem, fl, 0);
    if i + 1 < |fl| { assert NodeOk(mem, fl, i + 1); }
    FreeUpper(mem, fl, live, heap, i, bp);
    var m2, f2 := UpperMemory(mem, fl, i, bp), UpperList(mem, fl, i, bp);
    assert PairOk(m2, f2, i, i + 1);
    if fl[i] + Size(mem, fl[i]) == bp {
      MergeLoose(m2, f2, live - {bp}, heap, i);
      var m3, f3 := Merge(m2, fl[i]), Removed(f2, i + 1);
      forall k: nat ensures Gap(m3, f3, k) { MergeGap(m2, f2, i, k); }
    } else {
      assert Gap(m2, f2, i);
    }
  }

  // ---------- malloc's two ways to take a block ----------

  ghost function WholeTaken(mem: Memory, fl: seq<nat>, k: nat): Memory
    requires 0 < k < |fl| && fl[k] < |mem| && fl[k - 1] < |mem|
  {
    mem[fl[k - 1] := mem[fl[k - 1]].(ptr := mem[fl[k]].ptr)]
  }

  lemma RemoveKeeps(mem: Memory, fl: seq<nat>, k: nat)
    requires FreeList(mem, fl) && 0 < k < |fl|
    ensures fl[k] < |mem| && fl[k - 1] < |mem| && FreeList(WholeTaken(mem, fl, k), Removed(fl, k))
  {
    assert NodeOk(mem, fl, k) && NodeOk(mem, fl, k - 1);
    var mem', fl' := WholeTaken(mem, fl, k), Removed(fl, k);
    forall j: nat | j < |fl'| ensures NodeOk(mem', fl', j) {
      var j' := if j < k then j else j + 1;
      assert NodeOk(mem, fl, j');
      if j < k - 1 { assert PairOk(mem, fl, j, k - 1); }
      if j >= k { assert PairOk(mem, fl, k - 1, j'); }
    }
    forall a: nat, b: nat | a < b < |fl'| ensures PairOk(mem', fl', a, b) {
      assert PairOk(mem, fl, if a < k then a else a + 1, if b < k then b else b + 1);
    }
  }

  lemma RemoveFree(mem: Memory, fl: seq<nat>, k: nat, u: nat)
    requires FreeList(mem, fl) && 0 < k < |fl| && fl[k] < |mem| && fl[k - 1] < |mem|
    ensures InFree(WholeTaken(mem, fl, k), Removed(fl, k), u) <==>
            InFree(mem, fl, u) && !(fl[k] <= u < fl[k] + Size(mem, fl[k]))
  {
    var mem', fl' := WholeTaken(mem, fl, k), Removed(fl, k);
    if j :| 0 <= j < |fl| && fl[j] <= u < fl[j] + Size(mem, fl[j]) {
      if j < k {
        assert PairOk(mem, fl, j, k) && fl'[j] == fl[j];
      } else if j > k {
        assert PairOk(mem, fl, k, j) && fl'[j - 1] == fl[j];
      }
    }
    if j :| 0 <= j < |fl'| && fl'[j] <= u < fl'[j] + Size(mem', fl'[j]) {
      assert fl'[j] == fl[if j < k then j else j + 1];
      assert if j < k then PairOk(mem, fl, j, k) else PairOk(mem, fl, k, j + 1);
    }
  }

  lemma WholeKeeps(mem: Memory, fl: seq<nat>, live: Live, heap: set<nat>, k: nat)
    requires State(mem, fl, live, heap) && 0 < k < |fl|
    ensures fl[k] < |mem| && fl[k - 1] < |mem| && fl[k] !in live
    ensures State(WholeTaken(mem, fl, k), Removed(fl, k), live[fl[k] := Size(mem, fl[k])], heap)
  {
    RemoveKeeps(mem, fl, k);
    assert NodeOk(mem, fl, k);
    var mem', fl', live' := WholeTaken(mem, fl, k), Removed(fl, k), live[fl[k] := Size(mem, fl[k])];
    forall a | a in live ensures a != fl[k] && (a + live[a] <= fl[k] || fl[k] + Size(mem, fl[k]) <= a) {
      BlocksApart(mem, fl, live, heap, k, a);
    }
    forall u: nat ensures InFree(mem', fl', u) <==> InFree(mem, fl, u) && !(fl[k] <= u < fl[k] + Size(mem, fl[k])) {
      RemoveFree(mem, fl, k, u);
    }
    LiveGrows(live, fl[k], Size(mem, fl[k]));
    forall j: nat ensures Gap(mem', fl', j) {
      assert Gap(mem, fl, j) && Gap(mem, fl, j + 1);
      if j + 1 < |fl'| { assert j + 1 != k || PairOk(mem, fl, j, j + 1); }
      if j < k && k < |fl'| + 1 && j + 1 == k && k + 1 < |fl| {
        assert PairOk(mem, fl, j, k + 1) && PairOk(mem, fl, k, k + 1) && PairOk(mem, fl, j, k);
      }
    }
  }

  lemma LiveGrows(live: Live, a: nat, n: nat)
    requires a !in live
    ensures forall u: nat :: InLive(live[a := n], u) <==> InLive(live, u) || a <= u < a + n
  {
    var live' := live[a := n];
    forall u: nat ensures InLive(live', u) <==> InLive(live, u) || a <= u < a + n {
      if b :| b in live && b <= u < b + live[b] { assert b in live' && live'[b] == live[b]; }
      assert a in live' && live'[a] == n;
    }
  }

  /** The last `n` units of free block `p`, cut off as a block of their own. */
  function CutTail(mem: Memory, p: nat, n: nat): (m: Memory)
    requires p < |mem| && 0 < n < mem[p].size && p + mem[p].size <= |mem|
    ensures |m| == |mem|
    ensures forall u | 0 <= u < |mem| && u != p && u != p + mem[p].size - n :: m[u] == mem[u]
  {
    var q := p + mem[p].size - n;
    mem[p := mem[p].(size := mem[p].size - n)][q := mem[q].(size := n)]
  }

  lemma TailFree(mem: Memory, fl: seq<nat>, k: nat, n: nat, u: nat)
    requires FreeList(mem, fl) && 0 < k < |fl| && fl[k] < |mem|
    requires fl[k] + mem[fl[k]].size <= |mem| && 0 < n < mem[fl[k]].size
    ensures var q := fl[k] + mem[fl[k]].size - n;
            InFree(CutTail(mem, fl[k], n), fl, u) <==> InFree(mem, fl, u) && !(q <= u < q + n)
  {
    var p := fl[k];
    var q := p + mem[p].size - n;
    var mem' := CutTail(mem, fl[k], n);
    if j: nat :| j < |fl| && fl[j] <= u < fl[j] + Size(mem, fl[j]) {
      OtherBlock(mem, fl, k, j);
      assert j != k ==> Size(mem', fl[j]) == Size(mem, fl[j]);
    }
    if j: nat :| j < |fl| && fl[j] <= u < fl[j] + Size(mem', fl[j]) {
      OtherBlock(mem, fl, k, j);
      assert j != k ==> Size(mem', fl[j]) == Size(mem, fl[j]);
      assert fl[j] <= u < fl[j] + Size(mem, fl[j]);
    }
  }

  lemma OtherBlock(mem: Memory, fl: seq<nat>, k: nat, j: nat)
    requires FreeList(mem, fl) && k < |fl| && j < |fl|
    ensures j < k ==> fl[j] < fl[k] && fl[j] + Size(mem, fl[j]) <= fl[k]
    ensures j > k ==> fl[k] < fl[j] && fl[k] + Size(mem, fl[k]) <= fl[j]
  {
    if j < k { assert PairOk(mem, fl, j, k); }
    if j > k { assert PairOk(mem, fl, k, j); }
  }

  lemma TailList(mem: Memory, fl: seq<nat>, k: nat, n: nat)
    requires FreeList(mem, fl) && Coalesced(mem, fl) && 0 < k < |fl| && 0 < n < Size(mem, fl[k])
    requires fl[k] < |mem| && fl[k] + mem[fl[k]].size <= |mem|
    ensures FreeList(CutTail(mem, fl[k], n), fl) && Coalesced(CutTail(mem, fl[k], n), fl)
  {
    var mem' := CutTail(mem, fl[k], n);
    forall j: nat | j < |fl| ensures NodeOk(mem', fl, j) && Size(mem', fl[j]) <= Size(mem, fl[j]) {
      assert NodeOk(mem, fl, j);
      OtherBlock(mem, fl, k, j);
    }
    assert NodeOk(mem', fl, 0) && NodeOk(mem, fl, 0);
    OtherBlock(mem, fl, k, 0);
    forall a: nat, b: nat | a < b < |fl| ensures PairOk(mem', fl, a, b) {
      assert PairOk(mem, fl, a, b) && NodeOk(mem', fl, a);
    }
    forall j: nat ensures Gap(mem', fl, j) {
      assert Gap(mem, fl, j);
      if j + 1 < |fl| { assert NodeOk(mem', fl, j); }
    }
  }

  lemma TailKeeps(mem: Memory, fl: seq<nat>, live: Live, heap: set<nat>, k: nat, n: nat)
    requires State(mem, fl, live, heap) && 0 < k < |fl| && 0 < n < Size(mem, fl[k])
    ensures fl[k] < |mem| && fl[k] + mem[fl[k]].size <= |mem|
    ensures var q := fl[k] + mem[fl[k]].size - n;
            q !in live && State(CutTail(mem, fl[k], n), fl, live[q := n], heap)
  {
    assert NodeOk(mem, fl, k);
    var p := fl[k];
    var q := p + mem[p].size - n;
    TailList(mem, fl, k, n);
    forall a | a in live ensures a != p && (a + live[a] <= p || p + mem[p].size <= a) {
      BlocksApart(mem, fl, live, heap, k, a);
    }
    TailExact(mem, fl, live, heap, k, n);
  }

  lemma TailExact(mem: Memory, fl: seq<nat>, live: Live, heap: set<nat>, k: nat, n: nat)
    requires FreeList(mem, fl) && Exact(mem, fl, live, heap) && 0 < k < |fl| && 0 < n < Size(mem, fl[k])
    requires fl[k] < |mem| && fl[k] + mem[fl[k]].size <= |mem|
    requires var q := fl[k] + mem[fl[k]].size - n; q !in live
    ensures var q := fl[k] + mem[fl[k]].size - n; Exact(CutTail(mem, fl[k], n), fl, live[q := n], heap)
  {
    var q := fl[k] + mem[fl[k]].size - n;
    var mem' := CutTail(mem, fl[k], n);
    forall u: nat ensures InFree(mem', fl, u) <==> InFree(mem, fl, u) && !(q <= u < q + n) {
      TailFree(mem, fl, k, n, u);
    }
    LiveGrows(live, q, n);
    forall u: nat | q <= u < q + n ensures InFree(mem, fl, u) {
      assert fl[k] <= u < fl[k] + Size(mem, fl[k]);
    }
  }

  ghost function Units(a: nat, n: nat): (s: set<nat>)
    ensures forall u: nat :: u in s <==> a <= u < a + n
    decreases n
  {
    if n == 0 then {} else Units(a, n - 1) + {a + n - 1}
  }

  /** A region from sbrk, above everything so far, is one live block. */
  lemma ExtendKeeps(mem: Memory, fl: seq<nat>, live: Live, heap: set<nat>, more: Memory, at: nat, n: nat)
    requires State(mem, fl, live, heap) && |mem| <= at && 0 < n
    requires |mem| + |more| == at + n && (mem + more)[at].size == n
    ensures at !in live && State(mem + more, fl, live[at := n], heap + Units(at, n))
  {
    var mem', heap' := mem + more, heap + Units(at, n);
    forall j: nat | j < |fl| ensures NodeOk(mem', fl, j) && Size(mem', fl[j]) == Size(mem, fl[j]) {
      assert NodeOk(mem, fl, j);
    }
    forall a: nat, b: nat | a < b < |fl| ensures PairOk(mem', fl, a, b) { assert PairOk(mem, fl, a, b); }
    forall j: nat ensures Gap(mem', fl, j) { assert Gap(mem, fl, j); }
    LiveGrows(live, at, n);
    forall u: nat ensures InFree(mem', fl, u) <==> InFree(mem, fl, u) { }
  }

  // ---------- the allocator ----------

  const UNIT: nat := 8          // sizeof(Header)
  const MORE: nat := 4096       // morecore's least request
  const MAXBYTES: nat := 0x7FFF_FFE0  // requests whose size in bytes still fits sbrk's int argument

  /** A header and the fewest units that hold `nbytes` bytes. */
  function NUnits(nbytes: nat): (n: nat)
    ensures 0 < n && nbytes <= 8 * (n - 1) && (n == 1 || 8 * (n - 2) < nbytes)
  {
    (nbytes + UNIT - 1) / UNIT + 1
  }

  /** The index of the last free block below `bp`. */
  lemma {:induction false} Place(fl: seq<nat>, bp: nat, n: nat) returns (t: nat)
    requires 0 < n <= |fl| && fl[0] < bp
    ensures t < n && fl[t] < bp && (t + 1 < n ==> fl[t + 1] >= bp)
  {
    if n == 1 || fl[n - 1] < bp {
      return n - 1;
    }
    t := Place(fl, bp, n - 1);
  }

  /** What free's search meets at the k-th free block, on its way to the t-th. */
  lemma SearchStep(mem: Memory, fl: seq<nat>, live: Live, heap: set<nat>, bp: nat, k: nat, t: nat)
    requires State(mem, fl, live, heap) && bp in live && k < |fl|
    requires t < |fl| && fl[t] < bp && (t + 1 < |fl| ==> fl[t + 1] >= bp)
    ensures fl[k] < |mem| && mem[fl[k]].ptr == Succ(fl, k)
    ensures (bp > fl[k] && bp < Succ(fl, k)) || (fl[k] >= Succ(fl, k) && (bp > fl[k] || bp < Succ(fl, k))) <==> k == t
    ensures t + 1 < |fl| ==> bp < fl[t + 1]
  {
    assert NodeOk(mem, fl, k);
    if t + 1 < |fl| { BlocksApart(mem, fl, live, heap, t + 1, bp); }
    if k < t { assert PairOk(mem, fl, k, t) && (k + 1 == t || PairOk(mem, fl, k + 1, t)) && PairOk(mem, fl, k, k + 1); }
    if t < k { assert t + 1 == k || PairOk(mem, fl, t + 1, k); }
    if k + 1 < |fl| { assert PairOk(mem, fl, k, k + 1); }
  }

  /** The block that a freed block ends up in. */
  lemma FreedBlock(mem: Memory, fl: seq<nat>, live: Live, heap: set<nat>, i: nat, bp: nat)
    requires State(mem, fl, live, heap) && bp in live
    requires i < |fl| && fl[i] < bp < |mem| && (i + 1 < |fl| ==> bp < fl[i + 1]) && mem[fl[i]].ptr < |mem|
    ensures var m, f := FreedMemory(mem, fl, i, bp), FreedList(mem, fl, i, bp);
            exists k: nat :: k < |f| && f[k] <= bp && bp + live[bp] <= f[k] + Size(m, f[k])
  {
    var m, f := FreedMemory(mem, fl, i, bp), FreedList(mem, fl, i, bp);
    FreeUpper(mem, fl, live, heap, i, bp);
    if fl[i] + Size(mem, fl[i]) == bp {
      assert f[i] <= bp && bp + live[bp] <= f[i] + Size(m, f[i]);
    } else {
      assert f[i + 1] <= bp && bp + live[bp] <= f[i + 1] + Size(m, f[i + 1]);
    }
  }

  /** What free's assignments do to memory, in the program's order. */
  function LinkUp(mem: Memory, p: nat, bp: nat): (m: Memory)
    requires p < |mem| && bp < |mem| && mem[p].ptr < |mem|
    ensures |m| == |mem|
  {
    if bp + mem[bp].size == mem[p].ptr
    then mem[bp := Header(mem[mem[p].ptr].ptr, mem[bp].size + mem[mem[p].ptr].size)]
    else mem[bp := mem[bp].(ptr := mem[p].ptr)]
  }

  function Link(mem: Memory, p: nat, bp: nat): (m: Memory)
    requires p < |mem| && bp < |mem| && mem[p].ptr < |mem|
    ensures |m| == |mem| && forall u | 0 <= u < |mem| && u != p && u != bp :: m[u] == mem[u]
  {
    var m := LinkUp(mem, p, bp);
    if p + m[p].size == bp
    then m[p := Header(m[bp].ptr, m[p].size + m[bp].size)]
    else m[p := m[p].(ptr := bp)]
  }

  lemma LinkIs(mem: Memory, fl: seq<nat>, i: nat, bp: nat)
    requires FreeList(mem, fl) && i < |fl| && fl[i] < bp < |mem| && mem[fl[i]].ptr == Succ(fl, i) < |mem|
    requires i + 1 < |fl| ==> bp < fl[i + 1]
    ensures Link(mem, fl[i], bp) == FreedMemory(mem, fl, i, bp)
  {
    var p, m1 := fl[i], LinkUp(mem, fl[i], bp);
    assert bp + mem[bp].size == mem[p].ptr <==> TouchesUp(mem, fl, i, bp);
    assert m1[p := m1[p].(ptr := bp)] == UpperMemory(mem, fl, i, bp);
  }

  /** The whole of free(), as one change of state. */
  lemma FreeResult(mem: Memory, fl: seq<nat>, live: Live, heap: set<nat>, i: nat, bp: nat) returns (f: seq<nat>)
    requires State(mem, fl, live, heap) && bp in live
    requires i < |fl| && fl[i] < bp && (i + 1 < |fl| ==> bp < fl[i + 1])
    ensures bp < |mem| && fl[i] < |mem| && mem[fl[i]].ptr < |mem| && fl[i] in f
    ensures State(Link(mem, fl[i], bp), f, live - {bp}, heap)
    ensures exists k: nat :: k < |f| && f[k] <= bp && bp + live[bp] <= f[k] + Size(Link(mem, fl[i], bp), f[k])
    ensures forall u: nat | InLive(live - {bp}, u) :: u != fl[i] && u != bp
  {
    FreeKeeps(mem, fl, live, heap, i, bp);
    FreedBlock(mem, fl, live, heap, i, bp);
    LinkIs(mem, fl, i, bp);
    f := FreedList(mem, fl, i, bp);
    assert f[i] == fl[i];
    forall a | a in live && a != bp ensures !(a <= fl[i] < a + live[a]) { BlocksApart(mem, fl, live, heap, i, a); }
  }

  // ---------- the program's own stores ----------

  /** Strictly inside a live block: past its header. */
  predicate InPayload(live: Live, u: nat) {
    exists a | a in live :: a < u < a + live[a]
  }

  lemma PayloadIs(live: Live, a: nat)
    requires a in live
    ensures forall u: nat | a < u < a + live[a] :: InPayload(live, u)
  {
  }

  /** No header of a free or a live block lies inside a live block. */
  lemma NoHeader(mem: Memory, fl: seq<nat>, live: Live, heap: set<nat>, u: nat)
    requires State(mem, fl, live, heap) && InPayload(live, u)
    ensures 0 < u < |mem| && u !in live && u !in fl
  {
    var a :| a in live && a < u < a + live[a];
    forall k: nat | k < |fl| ensures fl[k] != u { BlocksApart(mem, fl, live, heap, k, a); }
  }

  lemma StoreKeeps(mem: Memory, fl: seq<nat>, live: Live, heap: set<nat>, u: nat, h: Header)
    requires State(mem, fl, live, heap) && InPayload(live, u) && u < |mem|
    ensures State(mem[u := h], fl, live, heap)
  {
    NoHeader(mem, fl, live, heap, u);
    var mem' := mem[u := h];
    forall k: nat | k < |fl| ensures NodeOk(mem', fl, k) && Size(mem', fl[k]) == Size(mem, fl[k]) {
      assert NodeOk(mem, fl, k);
    }
    forall i: nat, j: nat | i < j < |fl| ensures PairOk(mem', fl, i, j) { assert PairOk(mem, fl, i, j); }
    forall k: nat ensures Gap(mem', fl, k) { assert Gap(mem, fl, k); }
    forall v: nat ensures InFree(mem', fl, v) <==> InFree(mem, fl, v) {}
  }

  /** The t-th free block that malloc's search looks at, after the f-th. */
  ghost function At(fl: seq<nat>, f: nat, t: nat): nat
    requires f < |fl| && t < |fl|
  {
    fl[if f + 1 + t < |fl| then f + 1 + t else f + 1 + t - |fl|]
  }

  ghost predicate Fits(mem: Memory, fl: seq<nat>, n: nat, f: nat, t: nat) {
    && f < |fl| && t < |fl| && Size(mem, At(fl, f, t)) >= n
    && forall s: nat | s < t :: Size(mem, At(fl, f, s)) < n
  }

  /** `p` is the first block of at least `n` units that malloc meets, starting after `start`. */
  ghost predicate FirstFit(mem: Memory, fl: seq<nat>, start: Option<nat>, n: nat, p: nat) {
    start.Some? && exists f: nat, t: nat :: Fits(mem, fl, n, f, t) && fl[f] == start.value && At(fl, f, t) == p
  }

  ghost predicate HasFit(mem: Memory, fl: seq<nat>, start: Option<nat>, n: nat) {
    start.Some? && !forall k: nat | k < |fl| :: Size(mem, fl[k]) < n
  }

  /** How malloc serves a request for `n` units: from the end of the first block that fits; else from new
      memory, at `at`; else not at all. Folded (see Bio.Bcache.Valid). */
  ghost predicate Served(mem: Memory, fl: seq<nat>, start: Option<nat>, heap: set<nat>, at: Option<nat>, n: nat,
                         r: Option<nat>, heap': set<nat>) {
    forall q: nat {:trigger ServedAt(mem, fl, start, heap, at, n, r, heap', q)} ::
      ServedAt(mem, fl, start, heap, at, n, r, heap', q)
  }

  ghost predicate ServedAt(mem: Memory, fl: seq<nat>, start: Option<nat>, heap: set<nat>, at: Option<nat>, n: nat,
                           r: Option<nat>, heap': set<nat>, q: nat) {
    if HasFit(mem, fl, start, n) then
      && heap' == heap && r.Some?
      && exists p: nat :: FirstFit(mem, fl, start, n, p) && r.value == p + Size(mem, p) - n + 1
    else if at.Some? then r.Some? && heap' == heap + Units(at.value, if n < MORE then MORE else n)
    else r.None? && heap' == heap
  }

  lemma IsServed(mem: Memory, fl: seq<nat>, start: Option<nat>, heap: set<nat>, at: Option<nat>, n: nat,
                 r: Option<nat>, heap': set<nat>, p: nat)
    requires
      if HasFit(mem, fl, start, n) then
        heap' == heap && r.Some? && FirstFit(mem, fl, start, n, p) && r.value == p + Size(mem, p) - n + 1
      else if at.Some? then r.Some? && heap' == heap + Units(at.value, if n < MORE then MORE else n)
      else r.None? && heap' == heap
    ensures Served(mem, fl, start, heap, at, n, r, heap')
  {
    forall q: nat ensures ServedAt(mem, fl, start, heap, at, n, r, heap', q) {}
  }

  class Heap {
    var mem: Memory
    var freep: Option<nat>
    ghost var fl: seq<nat>
    ghost var live: Live
    ghost var heap: set<nat>   // every unit sbrk has returned

    ghost predicate Unfolded(k: nat)
      reads this
    {
      State(mem, fl, live, heap)
    }

    /** Before the first malloc there is no list; after it there always is one.
        Folded (see Bio.Bcache.Valid). */
    ghost predicate Valid()
      reads this
    {
      match freep
      case None => |mem| > 0 && live == map[] && heap == {}
      case Some(f) => f in fl && f < |mem| && forall k: nat {:trigger Unfolded(k)} :: Unfolded(k)
    }

    constructor ()
      ensures Valid() && live == map[] && heap == {} && freep.None?
    {
      mem, freep, fl, live, heap := [Header(0, 0)], None, [], map[], {};
    }

    /** Memory of live blocks is not touched, headers included. */
    twostate predicate Untouched(blocks: Live)
      reads this
    {
      |old(mem)| <= |mem| && forall u: nat | InLive(blocks, u) && u < |old(mem)| :: mem[u] == old(mem)[u]
    }

    /** free's search: the last free block below `bp`, the t-th of the list. */
    method FindPlace(bp: nat) returns (p: nat, ghost t: nat)
      requires Valid() && freep.Some? && bp in live
      ensures t < |fl| && fl[t] == p < bp && (t + 1 < |fl| ==> bp < fl[t + 1])
    {
      assert Unfolded(0);
      assert NodeOk(mem, fl, 0);
      t := Place(fl, bp, |fl|);
      p := freep.value;
      ghost var k: nat :| k < |fl| && fl[k] == p;
      SearchStep(mem, fl, live, heap, bp, k, t);
      while !(bp > p && bp < mem[p].ptr)
        invariant k < |fl| && fl[k] == p && p < |mem|
        invariant mem[p].ptr == Succ(fl, k)
        invariant (bp > p && bp < mem[p].ptr) || (p >= mem[p].ptr && (bp > p || bp < mem[p].ptr)) <==> k == t
        decreases if k <= t then t - k else |fl| - k + t
      {
        if p >= mem[p].ptr && (bp > p || bp < mem[p].ptr) {
          break;
        }
        p := mem[p].ptr;
        k := if k + 1 < |fl| then k + 1 else 0;
        SearchStep(mem, fl, live, heap, bp, k, t);
      }
      SearchStep(mem, fl, live, heap, bp, t, t);
    }

    /** free's stores: the block joins its neighbours where they touch. */
    method LinkIn(p: nat, bp: nat)
      requires p < |mem| && bp < |mem| && mem[p].ptr < |mem|
      modifies `mem
      ensures mem == Link(old(mem), p, bp)
    {
      if bp + mem[bp].size == mem[p].ptr {
        mem := mem[bp := Header(mem[mem[p].ptr].ptr, mem[bp].size + mem[mem[p].ptr].size)];
      } else {
        mem := mem[bp := mem[bp].(ptr := mem[p].ptr)];
      }
      if p + mem[p].size == bp {
        mem := mem[p := Header(mem[bp].ptr, mem[p].size + mem[bp].size)];
      } else {
        mem := mem[p := mem[p].(ptr := bp)];
      }
    }

    method Free(ap: nat)
      requires Valid() && freep.Some? && ap > 0 && ap - 1 in live
      modifies this
      ensures Valid() && freep.Some? && live == old(live) - {ap - 1} && heap == old(heap) && |mem| == |old(mem)|
      ensures Untouched(live)
      ensures exists k: nat :: k < |fl| && fl[k] <= ap - 1 && ap - 1 + old(live)[ap - 1] <= fl[k] + Size(mem, fl[k])
      ensures freep.value in old(fl) && freep.value < ap - 1
      ensures forall k: nat | k < |old(fl)| && old(fl)[k] < ap - 1 :: old(fl)[k] <= freep.value
    {
      var bp := ap - 1;
      var p;
      ghost var t;
      p, t := FindPlace(bp);
      assert Unfolded(0);
      ghost var f := FreeResult(mem, fl, live, heap, t, bp);
      LastBelow(t, bp);
      LinkIn(p, bp);
      fl, live := f, live - {bp};
      freep := Some(p);
    }

    lemma LastBelow(t: nat, bp: nat)
      requires Valid() && freep.Some? && t < |fl| && (t + 1 < |fl| ==> bp < fl[t + 1])
      ensures forall k: nat | k < |fl| :: fl[k] < bp ==> fl[k] <= fl[t]
    {
      assert Unfolded(0);
      forall k: nat | k < |fl| ensures fl[k] < bp ==> fl[k] <= fl[t] {
        if k < t { assert PairOk(mem, fl, k, t); }
        if t + 1 < k { assert PairOk(mem, fl, t + 1, k); }
      }
    }

    /** sbrk: `nu` more units at `hp`, as one block with its header filled in. */
    method Extend(hp: nat, nu: nat)
      requires Valid() && freep.Some? && hp >= |mem| && nu > 0
      modifies this`mem, this`live, this`heap
      ensures Valid() && hp !in old(live) && live == old(live)[hp := nu] && heap == old(heap) + Units(hp, nu)
      ensures |mem| == hp + nu && mem[..|old(mem)|] == old(mem)
    {
      var more := seq(hp - |mem| + nu, _ => Header(0, 0))[hp - |mem| := Header(0, nu)];
      assert Unfolded(0);
      ExtendKeeps(mem, fl, live, heap, more, hp, nu);
      mem, live, heap := mem + more, live[hp := nu], heap + Units(hp, nu);
    }

    /** morecore, where sbrk returns unit `at`, or fails. */
    method Morecore(n: nat, at: Option<nat>) returns (r: Option<nat>)
      requires Valid() && freep.Some? && n > 0 && (at.Some? ==> at.value >= |mem|)
      modifies this
      ensures Valid() && freep.Some? && live == old(live) && Untouched(live)
      ensures r.Some? <==> at.Some?
      ensures r.None? ==> mem == old(mem) && heap == old(heap) && fl == old(fl) && freep == old(freep)
      ensures r.Some? ==>
        && r == freep
        && heap == old(heap) + Units(at.value, if n < MORE then MORE else n)
        && exists k: nat :: k < |fl| && Size(mem, fl[k]) >= n
    {
      var nu := if n < MORE then MORE else n;
      if at.None? {
        return None;
      }
      var hp := at.value;
      Extend(hp, nu);
      Free(hp + 1);
      ghost var k: nat :| k < |fl| && fl[k] <= hp && hp + nu <= fl[k] + Size(mem, fl[k]);
      assert Size(mem, fl[k]) >= n;
      assert live == old(live);
      return freep;
    }

    lemma FreeIsNotLive(k: nat)
      requires Valid() && freep.Some? && k < |fl|
      ensures fl[k] < |mem| && fl[k] + Size(mem, fl[k]) <= |mem|
      ensures forall a | a in live :: (fl[k] < a && fl[k] + Size(mem, fl[k]) <= a) || a + live[a] <= fl[k]
    {
      assert Unfolded(0);
      assert NodeOk(mem, fl, k);
      forall a | a in live ensures (fl[k] < a && fl[k] + Size(mem, fl[k]) <= a) || a + live[a] <= fl[k] {
        BlocksApart(mem, fl, live, heap, k, a);
      }
    }

    /** malloc of a whole free block `p`, the k-th, after `prevp`. */
    method TakeWhole(prevp: nat, p: nat, ghost k: nat) returns (ap: nat)
      requires Valid() && freep.Some? && 0 < k < |fl| && fl[k] == p && fl[k - 1] == prevp
      modifies this
      ensures Valid() && freep == Some(prevp) && heap == old(heap) && |mem| == |old(mem)|
      ensures ap == p + 1 && p !in old(live) && live == old(live)[p := Size(old(mem), p)]
      ensures Untouched(old(live))
    {
      FreeIsNotLive(k - 1);
      FreeIsNotLive(k);
      assert Unfolded(0);
      WholeKeeps(mem, fl, live, heap, k);
      live := live[p := Size(mem, p)];
      mem := mem[prevp := mem[prevp].(ptr := mem[p].ptr)];
      fl := Removed(fl, k);
      assert fl[k - 1] == prevp;
      freep := Some(prevp);
      return p + 1;
    }

    /** malloc of the last `n` units of a larger free block. */
    method TakeTail(prevp: nat, p: nat, n: nat, ghost k: nat) returns (ap: nat)
      requires Valid() && freep.Some? && 0 < k < |fl| && fl[k] == p && fl[k - 1] == prevp && 0 < n < Size(mem, p)
      modifies this
      ensures Valid() && freep == Some(prevp) && heap == old(heap) && |mem| == |old(mem)|
      ensures ap > 0 && ap - 1 !in old(live) && live == old(live)[ap - 1 := n]
      ensures ap - 1 == p + Size(old(mem), p) - n
      ensures Untouched(old(live))
    {
      ghost var q' := TailResult(k, n);
      var q := CutOff(p, n);
      live := live[q := n];
      freep := Some(prevp);
      return q + 1;
    }

    /** malloc of `n` units out of the free block `p`. */
    method Take(prevp: nat, p: nat, n: nat, ghost k: nat) returns (ap: nat)
      requires Valid() && freep.Some? && 0 < k < |fl| && fl[k] == p && fl[k - 1] == prevp
      requires p < |mem| && 0 < n <= mem[p].size
      modifies this
      ensures Valid() && freep == Some(prevp) && heap == old(heap) && |mem| == |old(mem)|
      ensures ap > 0 && ap - 1 !in old(live) && live == old(live)[ap - 1 := n]
      ensures ap - 1 == p + Size(old(mem), p) - n
      ensures Untouched(old(live))
    {
      if mem[p].size == n {
        ap := TakeWhole(prevp, p, k);
      } else {
        ap := TakeTail(prevp, p, n, k);
      }
    }

    method CutOff(p: nat, n: nat) returns (q: nat)
      requires p < |mem| && 0 < n < mem[p].size && p + mem[p].size <= |mem|
      modifies `mem
      ensures q == p + old(mem)[p].size - n && mem == CutTail(old(mem), p, n)
    {
      mem := mem[p := mem[p].(size := mem[p].size - n)];
      q := p + mem[p].size;
      mem := mem[q := mem[q].(size := n)];
    }

    lemma TailApart(k: nat, n: nat)
      requires Valid() && freep.Some? && 0 < k < |fl| && 0 < n < Size(mem, fl[k])
      ensures fl[k - 1] < |mem| && forall u: nat | InLive(live, u) :: !(fl[k] <= u < fl[k] + Size(mem, fl[k]))
    {
      FreeIsNotLive(k - 1);
      FreeIsNotLive(k);
    }

    lemma TailResult(k: nat, n: nat) returns (q: nat)
      requires Valid() && freep.Some? && 0 < k < |fl| && 0 < n < Size(mem, fl[k])
      ensures fl[k] < |mem| && fl[k] + mem[fl[k]].size <= |mem| && q == fl[k] + mem[fl[k]].size - n && q !in live
      ensures State(CutTail(mem, fl[k], n), fl, live[q := n], heap)
      ensures fl[k - 1] < |mem| && forall u: nat | InLive(live, u) :: u != fl[k] && u != q
    {
      TailApart(k, n);
      assert Unfolded(0);
      TailKeeps(mem, fl, live, heap, k, n);
      q := fl[k] + mem[fl[k]].size - n;
    }

    lemma SearchNext(f: nat, t: nat)
      requires Valid() && freep.Some? && f < |fl| && t < |fl|
      ensures At(fl, f, t) < |mem| && fl[f] < |mem|
      ensures t + 1 < |fl| ==> mem[At(fl, f, t)].ptr == At(fl, f, t + 1)
      ensures mem[fl[f]].ptr == At(fl, f, 0)
      ensures At(fl, f, t) == fl[f] <==> t == |fl| - 1
      ensures Size(mem, At(fl, f, t)) > 0 ==>
        exists k: nat ::
          0 < k < |fl| && fl[k] == At(fl, f, t) && fl[k - 1] == if t == 0 then fl[f] else At(fl, f, t - 1)
    {
      assert Unfolded(0);
      var k := if f + 1 + t < |fl| then f + 1 + t else f + 1 + t - |fl|;
      assert NodeOk(mem, fl, k) && NodeOk(mem, fl, f) && NodeOk(mem, fl, 0);
      OtherBlock(mem, fl, k, f);
      if Size(mem, fl[k]) > 0 {
        assert 0 < k && fl[k] == At(fl, f, t) && fl[k - 1] == if t == 0 then fl[f] else At(fl, f, t - 1);
      }
    }

    lemma AllLooked(f: nat, n: nat)
      requires f < |fl| && forall t: nat | t < |fl| :: Size(mem, At(fl, f, t)) < n
      ensures forall k: nat | k < |fl| :: Size(mem, fl[k]) < n
    {
      forall k: nat | k < |fl| ensures Size(mem, fl[k]) < n {
        assert At(fl, f, if k > f then k - f - 1 else k - f - 1 + |fl|) == fl[k];
      }
    }

    /** One round of malloc's search, from freep back to freep. */
    method Search(n: nat) returns (found: bool, prevp: nat, p: nat, ghost k: nat)
      requires Valid() && freep.Some? && n > 0
      ensures !found ==> p == freep.value && forall j: nat | j < |fl| :: Size(mem, fl[j]) < n
      ensures found ==> 0 < k < |fl| && fl[k] == p && fl[k - 1] == prevp && p < |mem| && n <= mem[p].size
      ensures found ==> FirstFit(mem, fl, freep, n, p)
    {
      prevp := freep.value;
      ghost var f: nat :| f < |fl| && fl[f] == prevp;
      ghost var t: nat := 0;
      SearchNext(f, 0);
      p := mem[prevp].ptr;
      while true
        invariant t < |fl| && p == At(fl, f, t) && prevp == if t == 0 then fl[f] else At(fl, f, t - 1)
        invariant forall s: nat | s < t :: Size(mem, At(fl, f, s)) < n
        decreases |fl| - t
      {
        SearchNext(f, t);
        if mem[p].size >= n {
          k :| 0 < k < |fl| && fl[k] == p && fl[k - 1] == prevp;
          assert Fits(mem, fl, n, f, t);
          return true, prevp, p, k;
        }
        if p == freep.value {
          AllLooked(f, n);
          return false, prevp, p, 0;
        }
        prevp := p;
        p := mem[p].ptr;
        t := t + 1;
      }
    }

    /** malloc, where sbrk (if it comes to that) returns unit `at`, or fails. At
        most one region is ever added, and only if no free block is large enough. */
    method Malloc(nbytes: nat, at: Option<nat>) returns (r: Option<nat>)
      requires Valid() && nbytes <= MAXBYTES && (at.Some? ==> at.value >= |mem|)
      modifies this
      ensures Valid() && freep.Some? && Untouched(old(live))
      ensures Served(old(mem), old(fl), old(freep), old(heap), at, NUnits(nbytes), r, heap)
      ensures r.None? ==> at.None? && live == old(live) && heap == old(heap)
      ensures r.Some? ==>
        var n := NUnits(nbytes);
        && r.value > 0 && r.value - 1 !in old(live) && live == old(live)[r.value - 1 := n]
        && (n - 1) * UNIT >= nbytes
    {
      var n := NUnits(nbytes);
      if freep.None? {
        Init();
      }
      ghost var more, mem0, fl0, freep0 := false, mem, fl, freep;
      assert HasFit(old(mem), old(fl), old(freep), n) <==> HasFit(mem, fl, freep, n);
      while true
        invariant Valid() && freep.Some? && live == old(live) && Untouched(old(live))
        invariant !more ==> mem == mem0 && fl == fl0 && heap == old(heap) && freep == freep0
        invariant more ==> at.Some? && heap == old(heap) + Units(at.value, if n < MORE then MORE else n)
        invariant more ==> exists k: nat :: k < |fl| && Size(mem, fl[k]) >= n
        invariant more ==> !HasFit(old(mem), old(fl), old(freep), n)
        decreases if more then 0 else 1
      {
        var found, prevp, p;
        ghost var k;
        found, prevp, p, k := Search(n);
        assert found <==> HasFit(mem, fl, freep, n);
        if found {
          assert !more ==> FirstFit(old(mem), old(fl), old(freep), n, p);
          var ap := Take(prevp, p, n, k);
          IsServed(old(mem), old(fl), old(freep), old(heap), at, n, Some(ap), heap, p);
          return Some(ap);
        }
        r := Morecore(n, at);
        if r.None? {
          IsServed(old(mem), old(fl), old(freep), old(heap), at, n, None, heap, 0);
          return;
        }
        more := true;
      }
    }

    /** A store of the program's, into the payload of a live block. */
    method Store(u: nat, h: Header)
      requires Valid() && InPayload(live, u)
      modifies `mem
      ensures Valid() && u < |old(mem)| && mem == old(mem)[u := h]
    {
      assert Unfolded(0);
      NoHeader(mem, fl, live, heap, u);
      StoreKeeps(mem, fl, live, heap, u, h);
      mem := mem[u := h];
    }

    lemma LiveApart(a: nat, b: nat)
      requires Valid() && a in live && b in live && a < b
      ensures a + live[a] <= b
    {
      assert freep.Some? && Unfolded(0);
    }

    /** malloc's first call: a list of `base` alone. */
    method Init()
      requires Valid() && freep.None?
      modifies this
      ensures Valid() && freep.Some? && live == old(live) && heap == old(heap) && |mem| == |old(mem)|
      ensures fl == [BASE] && Size(mem, BASE) == 0
    {
      mem := mem[BASE := Header(BASE, 0)];
      freep := Some(BASE);
      fl := [BASE];
      assert NodeOk(mem, fl, 0);
      assert FreeList(mem, fl) && Coalesced(mem, fl) && Exact(mem, fl, live, heap);
    }
  }
}
