/** kern/pipe.c: a ring of PIPESIZE bytes between two 32-bit counters that wrap around. */
module Pipe {
  import opened Params

  const PIPESIZE: nat := 512

  type Byte = bv8

  lemma ModAdd(q: nat, size: nat, b: nat)
    requires size > 0
    ensures (q * size + b) % size == b % size
  {
    if q > 0 {
      ModAdd(q - 1, size, b);
      assert q * size + b == ((q - 1) * size + b) + size;
      ModStep((q - 1) * size + b, size);
    }
  }

  lemma ModStep(n: nat, size: nat)
    requires size > 0
    ensures (n + size) % size == n % size
  {
    var a, b := (n + size) / size, n / size + 1;
    assert n + size == a * size + (n + size) % size;
    assert n == n / size * size + n % size;
    Distribute(n / size, size);
    Difference(a, b, size);
    SmallMultiple(a - b, size);
  }

  lemma Distribute(q: nat, size: nat)
    ensures q * size + size == (q + 1) * size
  {
  }

  lemma Difference(a: int, b: int, size: nat)
    ensures a * size - b * size == (a - b) * size
  {
  }

  lemma SmallMultiple(k: int, size: nat)
    ensures k >= 1 ==> k * size >= size
    ensures k <= -1 ==> k * size + size <= 0
  {
    if k >= 1 {
      assert (k - 1) * size >= 0 && k * size == (k - 1) * size + size;
    } else if k <= -1 {
      assert (-1 - k) * size >= 0 && k * size + size == -((-1 - k) * size);
    }
  }

  /** A wrapped counter names the same place of a ring, for every count, exactly when the size of the ring
      divides 2^32. */
  lemma WrapNeedsDivisor(size: nat)
    requires size > 0
    ensures WORD % size == 0 <==> forall n: nat :: n % WORD % size == n % size
  {
    if WORD % size == 0 {
      forall n: nat ensures n % WORD % size == n % size {
        var q := WORD / size;
        assert WORD == q * size;
        assert n == n / WORD * WORD + n % WORD;
        MulTwice(n / WORD, q, size);
        ModAdd(n / WORD * q, size, n % WORD);
      }
    } else {
      assert WORD % WORD % size == 0;
    }
  }

  lemma MulTwice(a: nat, q: nat, size: nat)
    ensures a * (q * size) == (a * q) * size
  {
  }

  /** PIPESIZE does. */
  lemma WrapKeepsPlace(n: nat)
    ensures n % WORD % PIPESIZE == n % PIPESIZE
  {
    WrapNeedsDivisor(PIPESIZE);
  }

  /** The difference of two wrapped counters, in 32-bit arithmetic, is the difference of the counts. */
  lemma WrapKeepsDifference(w: nat, r: nat)
    requires r <= w <= r + PIPESIZE
    ensures (w % WORD - r % WORD) % WORD == w - r
    ensures w % WORD == r % WORD <==> w == r
  {
    var d := w - r;
    assert w == w / WORD * WORD + w % WORD && r == r / WORD * WORD + r % WORD;
    var q := w / WORD - r / WORD;
    assert w % WORD - r % WORD == d - q * WORD;
    assert q == 0 || q == 1;
  }

  lemma WrapStep(n: nat)
    ensures (n % WORD + 1) % WORD == (n + 1) % WORD
  {
  }

  /** What a turn of pipe_read or pipe_write ends with. */
  datatype Outcome = Asleep | Refused | Moved(n: nat)

  class Ring {
    const data: array<Byte>
    var nread: nat      // uint32_t
    var nwrite: nat     // uint32_t
    var readopen: bool
    var writeopen: bool
    ghost var sent: seq<Byte>     // all bytes ever written
    ghost var got: seq<Byte>      // all bytes ever read

    /** The bytes read are a prefix of the bytes written, and the ring holds the rest. */
    ghost predicate Valid()
      reads this, data
    {
      && data.Length == PIPESIZE
      && |got| <= |sent| <= |got| + PIPESIZE && got == sent[..|got|]
      && nread == |got| % WORD && nwrite == |sent| % WORD
      && forall k :: |got| <= k < |sent| ==> data[k % PIPESIZE] == sent[k]
    }

    constructor ()
      ensures Valid() && sent == [] && got == [] && fresh(data)
    {
      data := new Byte[PIPESIZE](_ => 0);
      nread, nwrite, readopen, writeopen, sent, got := 0, 0, true, true, [], [];
    }

    /** dst[total] = p->data[p->nread++ % PIPESIZE] */
    method Take() returns (b: Byte)
      requires Valid() && |got| < |sent|
      modifies `nread, `got
      ensures Valid() && got == old(got) + [b]
    {
      WrapKeepsPlace(|got|);
      WrapStep(|got|);
      b := data[nread % PIPESIZE];
      assert b == sent[|got|] && got + [b] == sent[..|got| + 1];
      got := got + [b];
      nread := (nread + 1) % WORD;
    }

    /** p->data[p->nwrite++ % PIPESIZE] = src[total] */
    method Put(b: Byte)
      requires Valid() && |sent| < |got| + PIPESIZE
      modifies `nwrite, `sent, data
      ensures Valid() && sent == old(sent) + [b]
    {
      WrapKeepsPlace(|sent|);
      WrapStep(|sent|);
      PlacesApart(|got|, |sent|);
      data[nwrite % PIPESIZE] := b;
      sent := sent + [b];
      nwrite := (nwrite + 1) % WORD;
    }

    /** A turn of pipe_read; `woken` when the process has just slept. */
    method Read(nbytes: nat, woken: bool, killed: bool) returns (o: Outcome, dst: seq<Byte>)
      requires Valid()
      modifies this
      ensures Valid() && sent == old(sent) && got == old(got) + dst
      ensures o == if woken && (!writeopen || killed) then Refused
                   else if old(|got|) == |sent| then Asleep
                   else Moved(|dst|)
      ensures !o.Moved? ==> dst == []
      ensures o.Moved? ==> |dst| == if nbytes < |sent| - old(|got|) then nbytes else |sent| - old(|got|)
      ensures nwrite == old(nwrite) && readopen == old(readopen) && writeopen == old(writeopen)
    {
      dst := [];
      if woken && (!writeopen || killed) {
        return Refused, dst;
      }
      WrapKeepsDifference(|sent|, |got|);
      if nwrite == nread {
        return Asleep, dst;
      }
      var total := 0;
      while total < nbytes
        invariant 0 <= total <= nbytes && Valid() && sent == old(sent) && got == old(got) + dst && total == |dst|
        invariant nwrite == old(nwrite) && readopen == old(readopen) && writeopen == old(writeopen)
      {
        WrapKeepsDifference(|sent|, |got|);
        if nwrite == nread {
          break;
        }
        var b := Take();
        dst := dst + [b];
        total := total + 1;
      }
      o := Moved(total);
    }

    /** A turn of pipe_write. */
    method Write(src: seq<Byte>, woken: bool, killed: bool) returns (o: Outcome)
      requires Valid()
      modifies this, data
      ensures Valid() && got == old(got)
      ensures o == if woken && (!readopen || killed) then Refused
                   else if old(|sent|) == |got| + PIPESIZE then Asleep
                   else Moved(if |src| < |got| + PIPESIZE - old(|sent|) then |src| else |got| + PIPESIZE - old(|sent|))
      ensures sent == old(sent) + if o.Moved? then src[..o.n] else []
      ensures nread == old(nread) && readopen == old(readopen) && writeopen == old(writeopen)
    {
      if woken && (!readopen || killed) {
        return Refused;
      }
      WrapKeepsDifference(|sent|, |got|);
      if (nwrite - nread) % WORD == PIPESIZE {
        return Asleep;
      }
      var total := 0;
      while total < |src|
        invariant 0 <= total <= |src| && Valid() && got == old(got) && sent == old(sent) + src[..total]
        invariant nread == old(nread) && readopen == old(readopen) && writeopen == old(writeopen)
      {
        WrapKeepsDifference(|sent|, |got|);
        if (nwrite - nread) % WORD == PIPESIZE {
          break;
        }
        Put(src[total]);
        total := total + 1;
      }
      o := Moved(total);
    }

    /** The places of the bytes in the ring differ from the next one to be written. */
    static lemma PlacesApart(r: nat, w: nat)
      requires r <= w < r + PIPESIZE
      ensures forall k :: r <= k < w ==> k % PIPESIZE != w % PIPESIZE
    {
      forall k | r <= k < w ensures k % PIPESIZE != w % PIPESIZE {
        assert w == k + (w - k) && 0 < w - k < PIPESIZE;
      }
    }
  }
}
