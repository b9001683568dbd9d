/** The ring buffer of kernel/pipe.c. pipewrite and piperead run under the pipe's lock except while they sleep; each
    method here is one such stretch, so an interleaving of readers and writers is a sequence of calls. */
module Pipe {

  const PIPESIZE := 512
  const WORD := 0x1_0000_0000

  /** How a stretch of pipewrite or piperead ends: with the call's result, or asleep. */
  datatype Status = Done(r: int) | Asleep

  /** Counters that wrap at m address a ring of p slots consistently exactly when p divides m. */
  lemma WrapHarmlessIff(m: nat, p: nat)
    requires m > 0 && p > 0
    ensures (forall k: nat :: SameSlot(m, p, k)) <==> m % p == 0
  {
    if m % p == 0 {
      forall k: nat ensures SameSlot(m, p, k) { WrapSlot(m, p, k); }
    } else {
      assert !SameSlot(m, p, m);
    }
  }

  predicate SameSlot(m: nat, p: nat, k: nat)
    requires m > 0 && p > 0
  {
    k % m % p == k % p
  }

  lemma WrapSlot(m: nat, p: nat, k: nat)
    requires m > 0 && p > 0 && m % p == 0
    ensures SameSlot(m, p, k)
  {
    var a, b := k / m, m / p;
    assert k == a * m + k % m && m == b * p;
    assert a * m == (a * b) * p;
    ModShift(k % m, a * b, p);
  }

  lemma ModShift(r: nat, c: nat, p: nat)
    requires p > 0
    ensures (c * p + r) % p == r % p
  {
    var a := c * p + r;
    var x, y := a / p, r / p;
    Distribute(x, c, y, p);
    SmallMultiple(x - (c + y), p, r % p - a % p);
  }

  lemma Distribute(x: int, c: int, y: int, p: int)
    ensures (x - (c + y)) * p == x * p - c * p - y * p
  {
  }

  /** No multiple of p but 0 lies between -p and p. */
  lemma SmallMultiple(d: int, p: int, v: int)
    requires -p < v < p && d * p == v
    ensures v == 0
  {
    if d > 0 {
      AtLeast(d, p);
    } else if d < 0 {
      Negated(d, p);
      AtLeast(-d, p);
    }
  }

  lemma Negated(d: int, p: int)
    ensures (-d) * p == -(d * p)
  {
  }

  lemma {:induction false} AtLeast(n: nat, p: nat)
    requires n > 0
    ensures n * p >= p
  {
    if n > 1 {
      AtLeast(n - 1, p);
      Distribute(n, 1, 0, p);
    }
  }

  lemma NextCount(k: nat)
    ensures (k % WORD + 1) % WORD == (k + 1) % WORD
  {
  }

  class Ring {
    var data: array<char>
    var nread: nat
    var nwrite: nat
    var readopen: bool
    var writeopen: bool
    ghost var stored: seq<char>
    ghost var taken: nat

    ghost predicate Valid()
      reads this, data
    {
      && data.Length == PIPESIZE
      && taken <= |stored| <= taken + PIPESIZE
      && nread == taken % WORD && nwrite == |stored| % WORD
      && (forall k :: taken <= k < |stored| ==> InSlot(k))
    }

    ghost predicate InSlot(k: nat)
      reads this, data
    {
      data.Length == PIPESIZE && k < |stored| && data[k % PIPESIZE] == stored[k]
    }

    /** pipealloc */
    constructor ()
      ensures Valid() && fresh(data) && stored == [] && taken == 0 && readopen && writeopen
    {
      data := new char[PIPESIZE](_ => '\0');
      nread, nwrite, readopen, writeopen := 0, 0, true, true;
      stored, taken := [], 0;
    }

    /** The counters tell full and empty apart although they wrap. */
    lemma Counters()
      requires Valid()
      ensures nwrite == (nread + PIPESIZE) % WORD <==> |stored| == taken + PIPESIZE
      ensures nread == nwrite <==> taken == |stored|
      ensures nread % PIPESIZE == taken % PIPESIZE && nwrite % PIPESIZE == |stored| % PIPESIZE
    {
      WrapSlot(WORD, PIPESIZE, taken);
      WrapSlot(WORD, PIPESIZE, |stored|);
    }

    /** Where a pipewrite of n bytes, at its byte i, stops if it need not wait for room. */
    static function StopOf(n: nat, i: nat, bad: nat): nat { if bad >= n then n else if i > bad then i else bad }

    /** pipewrite from its byte i on, until it is done, sleeps on a full pipe, or gives up; copyin fails at byte bad. A
        pipe that fills up before makes it wait or give up; else it stores the bytes before bad and returns the full
        count. */
    method Write(addr: seq<char>, i: nat, killed: bool, bad: nat) returns (st: Status, next: nat)
      requires Valid() && i <= |addr|
      modifies this`nwrite, this`stored, data
      ensures Valid() && i <= next <= |addr| && stored == old(stored) + addr[i..next] && taken == old(taken)
      ensures var stop, full := StopOf(|addr|, i, bad), i + taken + PIPESIZE - |old(stored)|;
              if full <= stop && full < |addr|
              then next == full && st == if !readopen || killed then Done(-1) else Asleep
              else next == stop && st == Done(|addr|)
    {
      next := i;
      while next < |addr|
        invariant Valid() && i <= next <= |addr| && stored == old(stored) + addr[i..next]
        invariant next == i || next <= bad
      {
        Counters();
        if nwrite == (nread + PIPESIZE) % WORD {
          if !readopen || killed {
            return Done(-1), next;
          }
          return Asleep, next;
        }
        if next >= bad {
          break;
        }
        Put(addr[next]);
        assert addr[i..next + 1] == addr[i..next] + [addr[next]];
        next := next + 1;
      }
      st := Done(|addr|);
    }

    /** Stores one byte. */
    method Put(ch: char)
      requires Valid() && |stored| < taken + PIPESIZE
      modifies this`nwrite, this`stored, data
      ensures Valid() && stored == old(stored) + [ch]
    {
      WrapSlot(WORD, PIPESIZE, |stored|);
      NextCount(|stored|);
      data[nwrite % PIPESIZE] := ch;
      nwrite := (nwrite + 1) % WORD;
      stored := stored + [ch];
      forall k | taken <= k < |stored| ensures InSlot(k) {
        if k < |stored| - 1 {
          assert old(InSlot(k));
          SlotsApart(k, |stored| - 1);
        }
      }
    }

    /** Takes the next byte. */
    method Take() returns (ch: char)
      requires Valid() && taken < |stored|
      modifies this`nread, this`taken
      ensures Valid() && taken == old(taken) + 1 && ch == stored[old(taken)]
    {
      WrapSlot(WORD, PIPESIZE, taken);
      NextCount(taken);
      assert InSlot(taken);
      ch := data[nread % PIPESIZE];
      nread := (nread + 1) % WORD;
      taken := taken + 1;
      forall k | taken <= k < |stored| ensures InSlot(k) { assert old(InSlot(k)); }
    }

    /** piperead: on an empty pipe that has a writer it sleeps, or gives up if killed; else it takes what there is, up
        to n bytes, in order. If copyout fails at byte bad, that byte is lost, and the count is that of the bytes before
        it. */
    method Read(n: nat, killed: bool, bad: nat) returns (st: Status, got: seq<char>)
      requires Valid()
      modifies this`nread, this`taken
      ensures Valid() && old(taken) + |got| <= |stored| && got == stored[old(taken)..old(taken) + |got|]
      ensures var ready := |stored| - old(taken);
              if ready == 0 && writeopen
              then got == [] && taken == old(taken) && st == if killed then Done(-1) else Asleep
              else var k := if n < ready then n else ready;
                   && st == Done(|got|) && |got| == (if bad < k then bad else k)
                   && taken == old(taken) + if bad < k then bad + 1 else k
    {
      got := [];
      Counters();
      if nread == nwrite && writeopen {
        if killed {
          return Done(-1), got;
        }
        return Asleep, got;
      }
      while |got| < n
        invariant Valid() && |got| <= n && taken == old(taken) + |got| <= |stored| && got == stored[old(taken)..taken]
        invariant |got| <= bad
      {
        Counters();
        if nread == nwrite {
          break;
        }
        var ch := Take();
        if |got| == bad {
          break;
        }
        got := got + [ch];
      }
      st := Done(|got|);
    }

    /** pipeclose, as far as the pipe stays in use. */
    method Close(writable: bool)
      requires Valid()
      modifies this`readopen, this`writeopen
      ensures Valid() && (writable ==> !writeopen && readopen == old(readopen))
      ensures !writable ==> !readopen && writeopen == old(writeopen)
    {
      if writable {
        writeopen := false;
      } else {
        readopen := false;
      }
      forall k | taken <= k < |stored| ensures InSlot(k) { assert old(InSlot(k)); }
    }
  }

  lemma SlotsApart(k: nat, l: nat)
    requires k < l < k + PIPESIZE
    ensures k % PIPESIZE != l % PIPESIZE
  {
  }
}
