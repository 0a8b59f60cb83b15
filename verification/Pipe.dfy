/** Pipes (kern/pipe.c): a ring of PIPESIZE bytes with two 32-bit counters that wrap.

    Readers and writers are processes that hold p->lock between two sleeps; a method call
    below is one such stretch, and any sequence of calls by any processes is an interleaving.
    A process that makes a call is awake.
    `stored` and `taken` are all the bytes ever written and read. */
module Pipe {
  const PIPESIZE: nat := 512
  const WRAP: nat := 0x1_0000_0000

  type Byte = x: int | 0 <= x < 256

  datatype WriteEnd = Wrote | WriterSleeps | Broken
  datatype ReadEnd = Read(bytes: seq<Byte>) | ReaderSleeps | Interrupted

  lemma StepWraps(x: nat, k: nat)
    requires k <= PIPESIZE
    ensures (x + k) % WRAP == if x % WRAP + k < WRAP then x % WRAP + k else x % WRAP + k - WRAP
  {
    var q := x / WRAP;
    assert x + k == q * WRAP + (x % WRAP + k);
  }

  lemma WrapKeepsSlot(w: nat)
    ensures w % WRAP % PIPESIZE == w % PIPESIZE
  {
    var q, m := w / WRAP, w % WRAP;
    assert w == PIPESIZE * (8388608 * q + m / PIPESIZE) + m % PIPESIZE;
  }

  /** Counters at most PIPESIZE apart agree exactly when their wrapped values do. */
  lemma Wrapped(r: nat, w: nat)
    requires r <= w <= r + PIPESIZE
    ensures w % WRAP == r % WRAP <==> w == r
    ensures w % WRAP == (r % WRAP + PIPESIZE) % WRAP <==> w == r + PIPESIZE
    ensures (w + 1) % WRAP == (w % WRAP + 1) % WRAP
    ensures w % WRAP % PIPESIZE == w % PIPESIZE
  {
    StepWraps(r, w - r);
    StepWraps(r % WRAP, PIPESIZE);
    StepWraps(w, 1);
    StepWraps(w % WRAP, 1);
    WrapKeepsSlot(w);
  }

  lemma SlotsApart(k: nat, n: nat)
    requires k < n < k + PIPESIZE
    ensures k % PIPESIZE != n % PIPESIZE
  {
  }

  class PipeBuf {
    const data: array<Byte>
    var nread: nat
    var nwrite: nat
    var readopen: bool
    var writeopen: bool
    ghost var stored: seq<Byte>
    ghost var taken: seq<Byte>
    ghost var writersAsleep: set<nat>   // processes sleeping on &p->nwrite
    ghost var readersAsleep: set<nat>   // processes sleeping on &p->nread

    /** The bytes in the ring, oldest first. */
    ghost function Ring(): (r: seq<Byte>)
      reads this
      requires |taken| <= |stored|
    {
      stored[|taken|..]
    }

    /** First in, first out: read bytes, then the ring, are the written bytes. */
    ghost predicate Fifo()
      reads this, data
    {
      && data.Length == PIPESIZE
      && nread == |taken| % WRAP && nwrite == |stored| % WRAP
      && taken <= stored && |stored| <= |taken| + PIPESIZE
      && (forall k :: |taken| <= k < |stored| ==> data[k % PIPESIZE] == stored[k])
    }

    /** With the lock free, a writer sleeps only on a full ring that can still be read, and a
        reader only while the write end is open. */
    ghost predicate Valid()
      reads this, data
    {
      && Fifo()
      && (writersAsleep != {} ==> |Ring()| == PIPESIZE && readopen)
      && (readersAsleep != {} ==> writeopen)
    }

    /** A reader sleeps although there is something to read.  Each method says exactly when it
        leaves the pipe so. */
    ghost predicate Stranded()
      reads this
      requires |taken| <= |stored|
    {
      readersAsleep != {} && Ring() != []
    }

    constructor ()
      ensures Valid() && fresh(data) && stored == [] && taken == []
      ensures readopen && writeopen && writersAsleep == {} && readersAsleep == {}
    {
      data := new Byte[PIPESIZE](_ => 0);
      nread, nwrite := 0, 0;
      readopen, writeopen := true, true;
      stored, taken := [], [];
      writersAsleep, readersAsleep := {}, {};
    }

    /** kill of process pid (kern/proc.c): if it sleeps it runs again. */
    method Kill(pid: nat)
      requires Valid()
      modifies this`writersAsleep, this`readersAsleep
      ensures Valid() && writersAsleep == old(writersAsleep) - {pid} && readersAsleep == old(readersAsleep) - {pid}
      ensures Stranded() <==> old(readersAsleep) - {pid} != {} && Ring() != []
    {
      writersAsleep, readersAsleep := writersAsleep - {pid}, readersAsleep - {pid};
    }

    /** p->data[p->nwrite++ % PIPESIZE] = c. */
    method Store(c: Byte)
      requires Fifo() && |Ring()| < PIPESIZE
      modifies this`nwrite, this`stored, data
      ensures Fifo() && stored == old(stored) + [c]
    {
      Wrapped(|taken|, |stored|);
      ghost var n := |stored|;
      data[nwrite % PIPESIZE] := c;
      nwrite := (nwrite + 1) % WRAP;
      stored := stored + [c];
      forall k | |taken| <= k < |stored| ensures data[k % PIPESIZE] == stored[k] {
        if k < n {
          SlotsApart(k, n);
        }
      }
    }

    /** One stretch of pipewrite by process pid from byte i of addr on: until all is stored, or
        the ring is full and the writer sleeps, or gives up.  It gives up exactly when the bytes
        left exceed the room and it was killed or nobody can read; a reader that slept then
        sleeps on, without its wakeup, on a full ring. */
    method Write(pid: nat, addr: seq<Byte>, i: nat, killed: bool) returns (j: nat, r: WriteEnd)
      requires Valid() && i <= |addr|
      modifies this`nwrite, this`stored, this`writersAsleep, this`readersAsleep, data
      ensures Valid() && i <= j <= |addr|
      ensures stored == old(stored) + addr[i..j]
      ensures r.Wrote? ==> j == |addr| && readersAsleep == {} && writersAsleep == old(writersAsleep) - {pid}
      ensures r.WriterSleeps? ==> j < |addr| && |Ring()| == PIPESIZE && readopen && !killed
      ensures r.WriterSleeps? ==> readersAsleep == {} && writersAsleep == old(writersAsleep) + {pid}
      ensures r.Broken? ==> j < |addr| && |Ring()| == PIPESIZE
      ensures r.Broken? ==> readersAsleep == old(readersAsleep) - {pid} && writersAsleep == old(writersAsleep) - {pid}
      ensures r.Broken? <==> |addr| - i > PIPESIZE - |old(Ring())| && (killed || !readopen)
      ensures Stranded() <==>
        old(readersAsleep) - {pid} != {} && |addr| - i > PIPESIZE - |old(Ring())| && (killed || !readopen)
    {
      j := i;
      writersAsleep, readersAsleep := writersAsleep - {pid}, readersAsleep - {pid};
      while j < |addr|
        invariant i <= j <= |addr| && Fifo() && stored == old(stored) + addr[i..j]
        invariant readersAsleep == old(readersAsleep) - {pid} && writersAsleep == old(writersAsleep) - {pid}
        invariant j > i ==> writersAsleep == {}
      {
        Wrapped(|taken|, |stored|);
        if nwrite == (nread + PIPESIZE) % WRAP {
          if !readopen || killed {
            return j, Broken;
          }
          readersAsleep := {};
          writersAsleep := writersAsleep + {pid};
          return j, WriterSleeps;
        }
        Store(addr[j]);
        assert addr[i..j + 1] == addr[i..j] + [addr[j]];
        j := j + 1;
      }
      readersAsleep := {};
      return j, Wrote;
    }

    /** addr[i] = p->data[p->nread++ % PIPESIZE]. */
    method Take() returns (c: Byte)
      requires Fifo() && |Ring()| > 0
      modifies this`nread, this`taken
      ensures Fifo() && taken == old(taken) + [c] && c == old(Ring())[0]
    {
      Wrapped(|taken|, |taken|);
      c := data[nread % PIPESIZE];
      nread := (nread + 1) % WRAP;
      taken := taken + [c];
    }

    /** One stretch of piperead by process pid. */
    method Read(pid: nat, n: nat, killed: bool) returns (r: ReadEnd)
      requires Valid()
      modifies this`nread, this`taken, this`writersAsleep, this`readersAsleep
      ensures Valid() && stored == old(stored)
      ensures r.Read? ==>
        && taken == old(taken) + r.bytes && |r.bytes| == (if n < |old(Ring())| then n else |old(Ring())|)
        && (n > 0 && r.bytes == [] ==> old(Ring()) == [] && !writeopen)
        && writersAsleep == {} && readersAsleep == old(readersAsleep) - {pid}
      ensures !r.Read? ==> taken == old(taken) && Ring() == [] && writeopen
      ensures !r.Read? ==> writersAsleep == old(writersAsleep) - {pid}
      ensures r.ReaderSleeps? ==> !killed && readersAsleep == old(readersAsleep) + {pid}
      ensures r.Interrupted? ==> killed && readersAsleep == old(readersAsleep) - {pid}
      ensures Stranded() <==> old(readersAsleep) - {pid} != {} && |old(Ring())| > n
    {
      writersAsleep, readersAsleep := writersAsleep - {pid}, readersAsleep - {pid};
      Wrapped(|taken|, |stored|);
      if nread == nwrite && writeopen {
        if killed {
          return Interrupted;
        }
        readersAsleep := readersAsleep + {pid};
        return ReaderSleeps;
      }
      var bytes: seq<Byte> := [];
      while |bytes| < n
        invariant |bytes| <= n && Fifo() && stored == old(stored) && taken == old(taken) + bytes
        invariant readersAsleep == old(readersAsleep) - {pid}
        decreases n - |bytes|
      {
        Wrapped(|taken|, |stored|);
        if nread == nwrite {
          break;
        }
        var c := Take();
        bytes := bytes + [c];
      }
      writersAsleep := {};
      return ReadEnd.Read(bytes);
    }

    /** pipeclose: the other side is woken to see it.  The pipe is freed with its last end. */
    method Close(writable: bool) returns (freed: bool)
      requires Valid()
      modifies this`readopen, this`writeopen, this`writersAsleep, this`readersAsleep
      ensures Valid()
      ensures writable ==> !writeopen && readopen == old(readopen)
      ensures writable ==> readersAsleep == {} && writersAsleep == old(writersAsleep)
      ensures !writable ==> !readopen && writeopen == old(writeopen)
      ensures !writable ==> readersAsleep == old(readersAsleep) && writersAsleep == {}
      ensures freed <==> if writable then !old(readopen) else !old(writeopen)
      ensures freed ==> readersAsleep == {} && writersAsleep == {}
      ensures Stranded() <==> old(Stranded()) && !writable
    {
      if writable {
        writeopen := false;
        readersAsleep := {};
      } else {
        readopen := false;
        writersAsleep := {};
      }
      return !readopen && !writeopen;
    }
  }

  /** The property "a sleeping reader has an empty ring" fails: a reader sleeps, a killed
      writer fills the ring and gives up, and the reader sleeps on although PIPESIZE bytes are
      there and the write end is open. */
  method KilledWriterLeavesReaderAsleep() returns (p: PipeBuf)
    ensures p.Valid() && p.Stranded() && p.readersAsleep == {1} && |p.Ring()| == PIPESIZE && p.writeopen
  {
    p := new PipeBuf();
    var r := p.Read(1, 1, false);
    var j, w := p.Write(2, seq(PIPESIZE + 1, _ => 0), 0, true);
  }

  /** Not so if the reader has been killed meanwhile: then nobody sleeps. */
  method KilledReaderIsAwake() returns (p: PipeBuf)
    ensures p.Valid() && !p.Stranded() && p.readersAsleep == {} && |p.Ring()| == PIPESIZE
  {
    p := new PipeBuf();
    var r := p.Read(1, 1, false);
    p.Kill(1);
    r := p.Read(1, 1, true);
    var j, w := p.Write(2, seq(PIPESIZE + 1, _ => 0), 0, true);
  }
}
