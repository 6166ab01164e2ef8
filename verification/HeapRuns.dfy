/** Whole runs of a program on umalloc.c: any sequence of mallocs, frees of blocks it got, and stores of
    its own into those blocks. */
module HeapRuns {
  import opened Params
  import opened Heap

  datatype Call = Alloc(nbytes: nat, at: Option<nat>) | Release(ap: nat) | Put(u: nat, h: Header)

  /** What a call came to; a block is named by its header. */
  datatype Event = Got(block: nat, n: nat) | Refused | Gave(block: nat) | Wrote(u: nat, h: Header)

  /** The blocks that the program has got and not given back. */
  function Mine(es: seq<Event>): Live {
    if es == [] then map[] else
    var mine := Mine(es[..|es| - 1]);
    match es[|es| - 1]
    case Got(b, n) => mine[b := n]
    case Gave(b) => mine - {b}
    case _ => mine
  }

  /** What the program last stored into them, by unit. */
  ghost function Stored(es: seq<Event>): map<nat, Header> {
    if es == [] then map[] else
    var was, mine := Stored(es[..|es| - 1]), Mine(es[..|es| - 1]);
    match es[|es| - 1]
    case Wrote(u, h) => was[u := h]
    case Gave(b) => map u | u in was && !(b in mine && b <= u < b + mine[b]) :: was[u]
    case _ => was
  }

  /** What a program may do that has the blocks `mine`, when memory ends at `top`: free a block of its own,
      and store inside one. sbrk's answer lies past all earlier memory. */
  predicate Allowed(c: Call, mine: Live, top: nat) {
    match c
    case Alloc(nbytes, at) => nbytes <= MAXBYTES && (at.Some? ==> at.value >= top)
    case Release(ap) => ap > 0 && ap - 1 in mine
    case Put(u, _) => InPayload(mine, u)
  }

  ghost predicate Answers(c: Call, e: Event) {
    match c
    case Alloc(nbytes, at) => (e.Refused? && at.None?) || (e.Got? && e.n == NUnits(nbytes))
    case Release(ap) => ap > 0 && e == Gave(ap - 1)
    case Put(u, h) => e == Wrote(u, h)
  }

  ghost predicate UnitKept(mem: Memory, live: Live, stored: map<nat, Header>, u: nat) {
    u in stored ==> InPayload(live, u) && u < |mem| && mem[u] == stored[u]
  }

  /** Every unit stored holds what was stored last. */
  ghost predicate Kept(mem: Memory, live: Live, stored: map<nat, Header>) {
    forall u: nat {:trigger UnitKept(mem, live, stored, u)} :: UnitKept(mem, live, stored, u)
  }

  lemma KeptOnGrowth(mem: Memory, mem': Memory, live: Live, live': Live, stored: map<nat, Header>)
    requires Kept(mem, live, stored) && |mem| <= |mem'| && forall a | a in live :: a in live' && live'[a] == live[a]
    requires forall u: nat | InLive(live, u) && u < |mem| :: mem'[u] == mem[u]
    ensures Kept(mem', live', stored)
  {
    forall u: nat ensures UnitKept(mem', live', stored, u) {
      assert UnitKept(mem, live, stored, u);
      if u in stored {
        var a :| a in live && a < u < a + live[a];
        assert InLive(live, u) && a in live';
      }
    }
  }

  lemma KeptOnRelease(mem: Memory, mem': Memory, live: Live, stored: map<nat, Header>, b: nat,
                      stored': map<nat, Header>)
    requires Kept(mem, live, stored) && b in live && |mem| <= |mem'|
    requires forall u: nat | InLive(live - {b}, u) && u < |mem| :: mem'[u] == mem[u]
    requires stored' == map u | u in stored && !(b <= u < b + live[b]) :: stored[u]
    ensures Kept(mem', live - {b}, stored')
  {
    forall u: nat ensures UnitKept(mem', live - {b}, stored', u) {
      assert UnitKept(mem, live, stored, u);
      if u in stored' {
        var a :| a in live && a < u < a + live[a];
        assert a in live - {b} && (live - {b})[a] == live[a] && InLive(live - {b}, u);
      }
    }
  }

  lemma KeptOnStore(mem: Memory, live: Live, stored: map<nat, Header>, u: nat, h: Header)
    requires Kept(mem, live, stored) && InPayload(live, u) && u < |mem|
    ensures Kept(mem[u := h], live, stored[u := h])
  {
    var mem', stored' := mem[u := h], stored[u := h];
    forall v: nat ensures UnitKept(mem', live, stored', v) {
      assert UnitKept(mem, live, stored, v);
    }
  }

  lemma Snoc(es: seq<Event>, e: Event)
    ensures (es + [e])[..|es|] == es && (es + [e])[|es|] == e
  {
  }

  ghost predicate Consistent(h: Heap, es: seq<Event>)
    reads h
  {
    h.Valid() && h.live == Mine(es) && Kept(h.mem, h.live, Stored(es))
  }

  /** malloc, in a run. */
  method DoAlloc(h: Heap, nbytes: nat, at: Option<nat>, ghost es: seq<Event>) returns (e: Event)
    requires Consistent(h, es) && nbytes <= MAXBYTES && (at.Some? ==> at.value >= |h.mem|)
    modifies h
    ensures Consistent(h, es + [e]) && Answers(Alloc(nbytes, at), e)
    ensures e.Got? ==> e.block !in old(h.live)
  {
    ghost var mem, live := h.mem, h.live;
    var r := h.Malloc(nbytes, at);
    e := if r.Some? then Got(r.value - 1, NUnits(nbytes)) else Refused;
    Snoc(es, e);
    KeptOnGrowth(mem, h.mem, live, h.live, Stored(es));
  }

  method DoRelease(h: Heap, ap: nat, ghost es: seq<Event>) returns (e: Event)
    requires Consistent(h, es) && ap > 0 && ap - 1 in h.live
    modifies h
    ensures Consistent(h, es + [e]) && Answers(Release(ap), e)
  {
    ghost var mem, live := h.mem, h.live;
    e := Gave(ap - 1);
    h.Free(ap);
    Snoc(es, e);
    KeptOnRelease(mem, h.mem, live, Stored(es), ap - 1, Stored(es + [e]));
  }

  method DoPut(h: Heap, u: nat, v: Header, ghost es: seq<Event>) returns (e: Event)
    requires Consistent(h, es) && InPayload(h.live, u)
    modifies h
    ensures Consistent(h, es + [e]) && Answers(Put(u, v), e)
  {
    ghost var mem := h.mem;
    e := Wrote(u, v);
    h.Store(u, v);
    Snoc(es, e);
    KeptOnStore(mem, h.live, Stored(es), u, v);
  }

  /** Any run, up to the first call that the program may not make: the blocks it has do not overlap, and
      every one holds what the program last stored there. */
  method Run(calls: seq<Call>) returns (h: Heap, es: seq<Event>)
    ensures fresh(h) && h.Valid() && h.live == Mine(es)
    ensures |es| <= |calls| && forall k | 0 <= k < |es| :: Answers(calls[k], es[k])
    ensures |es| < |calls| ==> !Allowed(calls[|es|], Mine(es), |h.mem|)
    ensures forall a, b | a in Mine(es) && b in Mine(es) && a < b :: a + Mine(es)[a] <= b
    ensures Kept(h.mem, Mine(es), Stored(es))
  {
    h := new Heap();
    es := [];
    while |es| < |calls|
      invariant fresh(h) && Consistent(h, es)
      invariant |es| <= |calls| && forall k | 0 <= k < |es| :: Answers(calls[k], es[k])
    {
      var c, e := calls[|es|], Refused;
      if !Allowed(c, Mine(es), |h.mem|) {
        break;
      }
      match c {
        case Alloc(nbytes, at) => e := DoAlloc(h, nbytes, at, es);
        case Release(ap) => e := DoRelease(h, ap, es);
        case Put(u, v) => e := DoPut(h, u, v, es);
      }
      es := es + [e];
    }
    forall a, b | a in Mine(es) && b in Mine(es) && a < b ensures a + Mine(es)[a] <= b { h.LiveApart(a, b); }
  }
}
