/** pipe.c: a 512-byte ring between any number of readers and writers. Each
    method is one stretch of code run with the pipe's lock held, up to a sleep or
    the end of the call, so every interleaving is some sequence of these calls. */
module Pipe {
  import opened Params

  const PIPESIZE: nat := 512
  const WRAP: nat := 0x1_0000_0000  // nread and nwrite are 32-bit counters

  datatype WriteResult =
    | Wrote(n: nat)
    | Broken           // -1: nobody can read, or the writer was killed
    | Sleeps(i: nat)   // sleeps on &p->nwrite, to go on with byte i

  datatype ReadResult =
    | Read(bytes: seq<Byte>)
    | Killed           // -1
    | Waits            // sleeps on &p->nread

  /** Counters that wrap still index the ring correctly, because 512 divides 2^32. */
  lemma WrapIndex(k: nat)
    ensures k % WRAP % PIPESIZE == k % PIPESIZE
  {
    assert k == WRAP * (k / WRAP) + k % WRAP;
    assert WRAP * (k / WRAP) == PIPESIZE * (0x80_0000 * (k / WRAP));
    ModPlus(k % WRAP, 0x80_0000 * (k / WRAP));
  }

  lemma {:induction false} ModPlus(a: nat, q: nat)
    ensures (a + PIPESIZE * q) % PIPESIZE == a % PIPESIZE
  {
    if q > 0 { ModPlus(a, q - 1); }
  }

  /** Two positions at most `PIPESIZE` apart have equal counters only if they are equal, and
      counters PIPESIZE apart only if the positions are. */
  lemma WrapCompare(r: nat, w: nat)
    requires r <= w <= r + PIPESIZE
    ensures r % WRAP == w % WRAP <==> r == w
    ensures w % WRAP == (r % WRAP + PIPESIZE) % WRAP <==> w == r + PIPESIZE
    ensures (w % WRAP - r % WRAP) % WRAP == w - r
  {
  }

  lemma WrapNext(k: nat)
    ensures (k % WRAP + 1) % WRAP == (k + 1) % WRAP
  {
  }

  lemma DistinctSlots(j: nat, k: nat)
    requires j < k < j + PIPESIZE
    ensures j % PIPESIZE != k % PIPESIZE
  {
  }

  class Pipe {
    const data: array<Byte>
    var nread: nat
    var nwrite: nat
    var readopen: bool
    var writeopen: bool
    ghost var stored: seq<Byte>   // every byte ever written, in order
    ghost var taken: nat          // how many of them have been read
    ghost var readersAsleep: bool // someone has slept on &p->nread since its last wakeup
    ghost var writersAsleep: bool // someone has slept on &p->nwrite since its last wakeup

    ghost predicate Valid()
      reads `nread, `nwrite, `stored, `taken, data
    {
      && taken <= |stored| <= taken + PIPESIZE
      && forall k: nat {:trigger Unfolded(k)} :: Unfolded(k)
    }

    // The counters and the ring, behind a quantifier so that only proofs naming Unfolded see them.
    ghost predicate Unfolded(k: nat)
      reads `nread, `nwrite, `stored, `taken, data
    {
      && data.Length == PIPESIZE
      && nread == taken % WRAP && nwrite == |stored| % WRAP
      && forall j | taken <= j < |stored| :: data[j % PIPESIZE] == stored[j]
    }

    /** Whoever sleeps still has the reason for which it went to sleep. */
    ghost predicate NoneForgotten()
      reads this
    {
      && (readersAsleep ==> |stored| == taken && writeopen)
      && (writersAsleep ==> |stored| == taken + PIPESIZE && readopen)
    }

    constructor ()
      ensures Valid() && NoneForgotten() && stored == [] && taken == 0 && readopen && writeopen && fresh(data)
      ensures !readersAsleep && !writersAsleep
    {
      data := new Byte[PIPESIZE](_ => 0);
      nread, nwrite, readopen, writeopen, stored, taken := 0, 0, true, true, [], 0;
      readersAsleep, writersAsleep := false, false;
      new;
      assert forall k: nat :: Unfolded(k);
    }

    /** The test for a full ring, in wrapping arithmetic. */
    method Full() returns (full: bool)
      requires Valid()
      ensures full <==> |stored| == taken + PIPESIZE
    {
      assert Unfolded(0);
      WrapCompare(taken, |stored|);
      return nwrite == (nread + PIPESIZE) % WRAP;
    }

    /** The test for an empty ring. */
    method Empty() returns (empty: bool)
      requires Valid()
      ensures empty <==> |stored| == taken
    {
      assert Unfolded(0);
      WrapCompare(taken, |stored|);
      return nread == nwrite;
    }

    /** One byte into the ring: no byte still pending is overwritten. */
    method Put(b: Byte)
      requires Valid() && |stored| < taken + PIPESIZE
      modifies this`nwrite, this`stored, data
      ensures Valid() && stored == old(stored) + [b]
    {
      assert Unfolded(0);
      ghost var n := |stored|;
      WrapIndex(n);
      forall k | taken <= k < n ensures k % PIPESIZE != n % PIPESIZE { DistinctSlots(k, n); }
      WrapNext(n);
      data[nwrite % PIPESIZE] := b;
      nwrite := (nwrite + 1) % WRAP;
      stored := stored + [b];
      assert forall k: nat :: Unfolded(k);
    }

    /** The oldest byte out of the ring. */
    method Take() returns (b: Byte)
      requires Valid() && taken < |stored|
      modifies this`nread, this`taken
      ensures Valid() && taken == old(taken) + 1 && b == stored[old(taken)]
    {
      assert Unfolded(0);
      WrapIndex(taken);
      WrapNext(taken);
      b := data[nread % PIPESIZE];
      nread := (nread + 1) % WRAP;
      taken := taken + 1;
      assert forall k: nat :: Unfolded(k);
    }

    /** pipewrite of `addr`, from byte `from` on: `k` bytes of `addr` have gone in when it stops.
        A writer that gives up at a full ring does not wake the readers: exactly then can a reader
        sleep on beside unread bytes. */
    method Pipewrite(addr: seq<Byte>, from: nat, killed: bool) returns (r: WriteResult, ghost k: nat)
      requires Valid() && from <= |addr|
      modifies this`nwrite, this`stored, this`readersAsleep, this`writersAsleep, data
      ensures Valid()
      ensures from <= k <= |addr| && stored == old(stored) + addr[from..k]
      ensures r.Wrote? <==> k == |addr|
      ensures r.Wrote? ==> r.n == |addr|
      ensures r.Sleeps? ==> r.i == k
      ensures readersAsleep == (old(readersAsleep) && r.Broken?) && writersAsleep == (old(writersAsleep) || r.Sleeps?)
      ensures !r.Wrote? ==> |stored| == taken + PIPESIZE && (r.Broken? <==> !readopen || killed)
      ensures old(NoneForgotten()) ==>
        (NoneForgotten() <==> !(old(readersAsleep) && (killed || !readopen) && |addr| - from > PIPESIZE))
    {
      var i := from;
      assert stored == old(stored) + addr[from..i];
      while i < |addr|
        invariant from <= i <= |addr|
        invariant Valid() && stored == old(stored) + addr[from..i]
        invariant readersAsleep == old(readersAsleep) && writersAsleep == old(writersAsleep)
      {
        var full := Full();
        if full {
          if !readopen || killed {
            return Broken, i;
          }
          readersAsleep := false;
          writersAsleep := true;
          return Sleeps(i), i;
        }
        Put(addr[i]);
        assert addr[from..i + 1] == addr[from..i] + [addr[i]];
        i := i + 1;
      }
      readersAsleep := false;
      return Wrote(|addr|), i;
    }

    /** piperead of up to `n` bytes: always the oldest ones pending. */
    method Piperead(n: nat, killed: bool) returns (r: ReadResult)
      requires Valid()
      modifies this`nread, this`taken, this`readersAsleep, this`writersAsleep
      ensures Valid()
      ensures old(NoneForgotten()) ==> NoneForgotten()
      ensures !r.Read? <==> old(taken) == |stored| && writeopen
      ensures !r.Read? ==> taken == old(taken) && (r.Killed? <==> killed)
      ensures readersAsleep == (old(readersAsleep) || r.Waits?) && writersAsleep == (old(writersAsleep) && !r.Read?)
      ensures r.Read? ==>
        && taken == old(taken) + |r.bytes|
        && r.bytes == stored[old(taken)..taken]
        && |r.bytes| == (if n < |stored| - old(taken) then n else |stored| - old(taken))
    {
      var empty := Empty();
      if empty && writeopen {
        if killed {
          return Killed;
        }
        readersAsleep := true;
        return Waits;
      }
      var bytes := [];
      var i := 0;
      while i < n
        invariant 0 <= i <= n && |bytes| == i && taken == old(taken) + i
        invariant readersAsleep == old(readersAsleep) && writersAsleep == old(writersAsleep)
        invariant Valid() && bytes == stored[old(taken)..taken]
      {
        empty := Empty();
        if empty {
          break;
        }
        var b := Take();
        bytes := bytes + [b];
        i := i + 1;
      }
      writersAsleep := false;
      return Read(bytes);
    }

    /** pipeclose; true if the pipe is freed. */
    method Pipeclose(writable: bool) returns (freed: bool)
      requires Valid()
      modifies this`readopen, this`writeopen, this`readersAsleep, this`writersAsleep
      ensures Valid()
      ensures old(NoneForgotten()) ==> NoneForgotten()
      ensures writeopen == (old(writeopen) && !writable) && readopen == (old(readopen) && writable)
      ensures readersAsleep == (old(readersAsleep) && !writable) && writersAsleep == (old(writersAsleep) && writable)
      ensures freed <==> !readopen && !writeopen
    {
      if writable {
        writeopen := false;
        readersAsleep := false;
      } else {
        readopen := false;
        writersAsleep := false;
      }
      return !readopen && !writeopen;
    }
  }

  /** A reader sleeps on a new pipe; a writer of 513 bytes fills the ring, finds itself killed and
      gives up: the reader sleeps on beside 512 unread bytes. */
  method ReaderForgotten(addr: seq<Byte>) returns (p: Pipe)
    requires |addr| == PIPESIZE + 1
    ensures fresh(p) && p.Valid() && p.readersAsleep && p.taken == 0 && p.stored == addr[..PIPESIZE]
    ensures !p.NoneForgotten()
  {
    p := new Pipe();
    var r := p.Piperead(1, false);
    var w, k := p.Pipewrite(addr, 0, true);
  }
}
