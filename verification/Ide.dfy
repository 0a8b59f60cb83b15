/** The interrupt-driven disk queue of kern/ide.c refines the synchronous disk of
    kern/memide.c.

    iderw appends a buffer to a linked queue and starts the disk if the queue was empty;
    ideintr finishes the request at the head and starts the next.  The device captures the
    data of a write when it is started and delivers the data of a read when it is done. */
module Ide {
  import opened Blocks
  import opened Options

  datatype Buf = Buf(at: Addr, valid: bool, dirty: bool, data: Block)

  /** What idestart tells the device to do. */
  datatype Command = ReadCmd(at: Addr) | WriteCmd(at: Addr, data: Block)

  function CommandFor(b: Buf): Command
  {
    if b.dirty then WriteCmd(b.at, b.data) else ReadCmd(b.at)
  }

  /** iderw of kern/memide.c. */
  function SyncDisk(disk: Disk, b: Buf): (r: Disk)
  {
    if b.dirty then disk[b.at := b.data] else disk
  }

  function SyncBuf(disk: Disk, b: Buf): (r: Buf)
    requires b.at in disk
  {
    if b.dirty then b.(dirty := false, valid := true) else b.(data := disk[b.at], valid := true)
  }

  /** A sequence of requests carried out one after the other. */
  function SyncAll(disk: Disk, reqs: seq<Buf>): (r: Disk)
  {
    if reqs == [] then disk else SyncDisk(SyncAll(disk, reqs[..|reqs| - 1]), reqs[|reqs| - 1])
  }

  /** The qnext pointers from `head` on spell out q. */
  ghost predicate Chain(next: seq<Option<nat>>, head: Option<nat>, q: seq<nat>)
    decreases q
  {
    if q == [] then head.None?
    else head == Some(q[0]) && q[0] < |next| && Chain(next, next[q[0]], q[1..])
  }

  lemma {:induction false} ChainIn(next: seq<Option<nat>>, head: Option<nat>, q: seq<nat>, k: nat)
    requires Chain(next, head, q) && k < |q|
    ensures q[k] < |next| && next[q[k]] == if k + 1 < |q| then Some(q[k + 1]) else None
    decreases q
  {
    if k > 0 {
      ChainIn(next, next[q[0]], q[1..], k - 1);
    } else if |q| > 1 {
      assert Chain(next, next[q[0]], q[1..]);
    }
  }

  /** Links of buffers that are not in the queue do not matter. */
  lemma {:induction false} ChainKept(next: seq<Option<nat>>, next': seq<Option<nat>>, head: Option<nat>, q: seq<nat>)
    requires Chain(next, head, q) && |next'| == |next|
    requires forall i :: 0 <= i < |next| && i in q ==> next'[i] == next[i]
    ensures Chain(next', head, q)
    decreases q
  {
    if q != [] {
      assert forall i :: i in q[1..] ==> i in q;
      ChainKept(next, next', next[q[0]], q[1..]);
    }
  }

  /** Hanging b on the end. */
  lemma {:induction false} ChainAppend(next: seq<Option<nat>>, head: Option<nat>, q: seq<nat>, b: nat)
    requires Chain(next, head, q) && b < |next| && b !in q && next[b].None?
    requires forall i, j :: 0 <= i < j < |q| ==> q[i] != q[j]
    ensures if q == [] then Chain(next, Some(b), [b])
            else q[|q| - 1] < |next| && Chain(next[q[|q| - 1] := Some(b)], head, q + [b])
    decreases q
  {
    if q != [] {
      ChainIn(next, head, q, |q| - 1);
      var last := q[|q| - 1];
      var next' := next[last := Some(b)];
      if |q| == 1 {
        assert (q + [b])[1..] == [b];
        assert Chain(next', next'[b], []);
      } else {
        assert q[1..][|q| - 2] == last;
        ChainAppend(next, next[q[0]], q[1..], b);
        assert (q + [b])[1..] == q[1..] + [b];
        assert next'[q[0]] == next[q[0]];
      }
    }
  }

  // ----- what is queued and what is done -----

  ghost predicate AddrOk(bufs: seq<Buf>, disk: Disk, i: int)
    requires 0 <= i < |bufs|
  {
    bufs[i].at in disk
  }

  /** No two buffers are for the same block. */
  ghost predicate BufsApart(bufs: seq<Buf>, i: int, j: int)
    requires 0 <= i < |bufs| && 0 <= j < |bufs|
  {
    i != j ==> bufs[i].at != bufs[j].at
  }

  ghost predicate BufsOk(bufs: seq<Buf>, disk: Disk)
  {
    && (forall i :: 0 <= i < |bufs| ==> AddrOk(bufs, disk, i))
    && (forall i, j :: 0 <= i < |bufs| && 0 <= j < |bufs| ==> BufsApart(bufs, i, j))
  }

  /** A queued buffer still waits and still holds what it held when it was queued. */
  ghost predicate QueuedOk(bufs: seq<Buf>, q: seq<nat>, snaps: seq<Buf>, i: int)
    requires 0 <= i < |q| <= |snaps|
  {
    && q[i] < |bufs| && !(bufs[q[i]].valid && !bufs[q[i]].dirty)
    && bufs[q[i]] == snaps[|snaps| - |q| + i]
  }

  ghost predicate SyncedOk(bufs: seq<Buf>, disk: Disk, q: seq<nat>, b: nat)
  {
    && b < |bufs| && b !in q && bufs[b].at in disk
    && bufs[b].valid && !bufs[b].dirty && bufs[b].data == disk[bufs[b].at]
  }

  /** Requests finish in the order they were made, each as the synchronous disk would. */
  ghost predicate InOrder(bufs: seq<Buf>, disk: Disk, disk0: Disk, q: seq<nat>, asked: seq<nat>, snaps: seq<Buf>)
  {
    && |asked| == |snaps| && |q| <= |asked|
    && q == asked[|asked| - |q|..]
    && (forall i :: 0 <= i < |q| ==> QueuedOk(bufs, q, snaps, i))
    && disk == SyncAll(disk0, snaps[..|asked| - |q|])
  }

  ghost predicate AllSynced(bufs: seq<Buf>, disk: Disk, q: seq<nat>, synced: set<nat>)
  {
    forall b: nat :: b in synced ==> SyncedOk(bufs, disk, q, b)
  }

  ghost predicate Distinct(q: seq<nat>)
  {
    forall i, j :: 0 <= i < j < |q| ==> q[i] != q[j]
  }

  lemma Completed(d: Disk, snaps: seq<Buf>, k: nat)
    requires k < |snaps|
    ensures SyncAll(d, snaps[..k + 1]) == SyncDisk(SyncAll(d, snaps[..k]), snaps[k])
  {
    assert snaps[..k + 1][..k] == snaps[..k];
  }

  /** Finishing the head as the synchronous disk would keeps all of this. */
  lemma HeadDone(bufs: seq<Buf>, disk: Disk, disk0: Disk, q: seq<nat>, asked: seq<nat>, snaps: seq<Buf>,
                 synced: set<nat>)
    requires BufsOk(bufs, disk) && InOrder(bufs, disk, disk0, q, asked, snaps) && q != [] && Distinct(q)
    requires AllSynced(bufs, disk, q, synced)
    ensures q[0] < |bufs| && bufs[q[0]].at in disk
    ensures var b := q[0];
            var bufs' := bufs[b := SyncBuf(disk, bufs[b])];
            var disk' := SyncDisk(disk, bufs[b]);
            && BufsOk(bufs', disk') && InOrder(bufs', disk', disk0, q[1..], asked, snaps) && Distinct(q[1..])
            && AllSynced(bufs', disk', q[1..], synced + {b})
  {
    var b, k := q[0], |snaps| - |q|;
    assert QueuedOk(bufs, q, snaps, 0) && AddrOk(bufs, disk, b);
    var bufs' := bufs[b := SyncBuf(disk, bufs[b])];
    var disk' := SyncDisk(disk, bufs[b]);
    Completed(disk0, snaps, k);
    forall i | 0 <= i < |bufs'| ensures AddrOk(bufs', disk', i) {
      assert AddrOk(bufs, disk, i);
    }
    forall i, j | 0 <= i < |bufs'| && 0 <= j < |bufs'| ensures BufsApart(bufs', i, j) {
      assert BufsApart(bufs, i, j);
    }
    var q' := q[1..];
    forall i | 0 <= i < |q'| ensures QueuedOk(bufs', q', snaps, i) {
      assert QueuedOk(bufs, q, snaps, i + 1);
      assert q[i + 1] != q[0];
    }
    var synced' := synced + {b};
    forall x: nat | x in synced' ensures SyncedOk(bufs', disk', q', x) {
      if x == b {
        assert forall i :: 0 <= i < |q'| ==> q'[i] == q[i + 1];
      } else {
        assert SyncedOk(bufs, disk, q, x) && BufsApart(bufs, x, b);
      }
    }
    assert q' == asked[|asked| - |q'|..];
  }

  lemma NextHead(next: seq<Option<nat>>, head: Option<nat>, q: seq<nat>, q': seq<nat>)
    requires Chain(next, head, q) && q != [] && q' == q[1..]
    ensures head == Some(q[0]) && q[0] < |next| && Chain(next, next[q[0]], q')
    ensures next[q[0]] == if q' == [] then None else Some(q'[0])
  {
    ChainIn(next, head, q, 0);
  }

  lemma Submitted(bufs: seq<Buf>, disk: Disk, disk0: Disk, q: seq<nat>, asked: seq<nat>, snaps: seq<Buf>,
                  synced: set<nat>, b: nat)
    requires InOrder(bufs, disk, disk0, q, asked, snaps) && Distinct(q) && AllSynced(bufs, disk, q, synced)
    requires b < |bufs| && b !in q && !(bufs[b].valid && !bufs[b].dirty)
    ensures InOrder(bufs, disk, disk0, q + [b], asked + [b], snaps + [bufs[b]])
    ensures Distinct(q + [b]) && AllSynced(bufs, disk, q + [b], synced)
  {
    var q', asked', snaps' := q + [b], asked + [b], snaps + [bufs[b]];
    assert snaps'[..|asked'| - |q'|] == snaps[..|asked| - |q|];
    forall i | 0 <= i < |q'| ensures QueuedOk(bufs, q', snaps', i) {
      if i < |q| { assert QueuedOk(bufs, q, snaps, i); }
    }
    forall x: nat | x in synced ensures SyncedOk(bufs, disk, q', x) {
      assert SyncedOk(bufs, disk, q, x);
    }
  }

  lemma Refilled(bufs: seq<Buf>, disk: Disk, disk0: Disk, q: seq<nat>, asked: seq<nat>, snaps: seq<Buf>,
                 synced: set<nat>, b: nat, x: Buf)
    requires BufsOk(bufs, disk) && InOrder(bufs, disk, disk0, q, asked, snaps) && AllSynced(bufs, disk, q, synced)
    requires b < |bufs| && b !in q && x.at in disk
    requires forall i :: 0 <= i < |bufs| && i != b ==> bufs[i].at != x.at
    ensures var u := bufs[b := x];
            BufsOk(u, disk) && InOrder(u, disk, disk0, q, asked, snaps) && AllSynced(u, disk, q, synced - {b})
  {
    var u, synced' := bufs[b := x], synced - {b};
    forall i | 0 <= i < |u| ensures AddrOk(u, disk, i) {
      assert AddrOk(bufs, disk, i);
    }
    forall i, j | 0 <= i < |u| && 0 <= j < |u| ensures BufsApart(u, i, j) {
      assert BufsApart(bufs, i, j);
    }
    forall i | 0 <= i < |q| ensures QueuedOk(u, q, snaps, i) {
      assert QueuedOk(bufs, q, snaps, i) && q[i] in q;
    }
    forall y: nat | y in synced' ensures SyncedOk(u, disk, q, y) {
      assert SyncedOk(bufs, disk, q, y);
    }
  }

  /** The device works on the head of the queue. */
  ghost predicate Started(bufs: seq<Buf>, q: seq<nat>, command: Option<Command>)
  {
    if q == [] then command.None? else q[0] < |bufs| && command == Some(CommandFor(bufs[q[0]]))
  }

  /** Buffers, disk and device are as the requests made so far say. */
  ghost predicate Served(bufs: seq<Buf>, disk: Disk, disk0: Disk, q: seq<nat>, asked: seq<nat>, snaps: seq<Buf>,
                         synced: set<nat>, command: Option<Command>)
  {
    && Distinct(q) && BufsOk(bufs, disk)
    && InOrder(bufs, disk, disk0, q, asked, snaps)
    && AllSynced(bufs, disk, q, synced)
    && Started(bufs, q, command)
  }

  lemma StartedNext(bufs: seq<Buf>, q: seq<nat>, b: nat, links: seq<Option<nat>>, head: Option<nat>,
                    command: Option<Command>)
    requires Started(bufs, q, command) && b < |bufs| && b !in q && Chain(links, head, q + [b])
    ensures Started(bufs, q + [b], if head == Some(b) then Some(CommandFor(bufs[b])) else command)
  {
    assert head == Some((q + [b])[0]);
  }

  /** The head is done, and the device is told to go on with the next. */
  lemma ServedHead(bufs: seq<Buf>, disk: Disk, disk0: Disk, q: seq<nat>, asked: seq<nat>, snaps: seq<Buf>,
                   synced: set<nat>, command: Option<Command>, q': seq<nat>, synced': set<nat>)
    requires Served(bufs, disk, disk0, q, asked, snaps, synced, command)
    requires q != [] && q' == q[1..] && synced' == synced + {q[0]}
    ensures q[0] < |bufs| && bufs[q[0]].at in disk
    ensures var bufs' := bufs[q[0] := SyncBuf(disk, bufs[q[0]])];
            && (q' != [] ==> q'[0] < |bufs'|)
            && Served(bufs', SyncDisk(disk, bufs[q[0]]), disk0, q', asked, snaps, synced',
                      if q' == [] then None else Some(CommandFor(bufs'[q'[0]])))
  {
    HeadDone(bufs, disk, disk0, q, asked, snaps, synced);
    if q' != [] {
      assert QueuedOk(bufs, q, snaps, 1);
    }
  }

  /** One request more. */
  lemma ServedNext(bufs: seq<Buf>, disk: Disk, disk0: Disk, q: seq<nat>, asked: seq<nat>, snaps: seq<Buf>,
                   synced: set<nat>, command: Option<Command>, b: nat, links: seq<Option<nat>>, head: Option<nat>,
                   q': seq<nat>, asked': seq<nat>, snaps': seq<Buf>, command': Option<Command>)
    requires Served(bufs, disk, disk0, q, asked, snaps, synced, command) && Chain(links, head, q')
    requires b < |bufs| && b !in q && !(bufs[b].valid && !bufs[b].dirty)
    requires q' == q + [b] && asked' == asked + [b] && snaps' == snaps + [bufs[b]]
    requires command' == if head == Some(b) then Some(CommandFor(bufs[b])) else command
    ensures Served(bufs, disk, disk0, q', asked', snaps', synced, command')
  {
    Submitted(bufs, disk, disk0, q, asked, snaps, synced, b);
    StartedNext(bufs, q, b, links, head, command);
  }

  class IdeQueue {
    const buf: array<Buf>
    const qnext: array<Option<nat>>
    var idequeue: Option<nat>
    var disk: Disk
    var command: Option<Command>   // what the device is working on
    ghost var queue: seq<nat>
    ghost var disk0: Disk
    ghost var asked: seq<nat>      // every request ever made, in order
    ghost var snaps: seq<Buf>      // and what its buffer held
    ghost var synced: set<nat>     // buffers done and not touched since

    ghost predicate Valid()
      reads this, buf, qnext
    {
      && buf.Length == qnext.Length && Chain(qnext[..], idequeue, queue)
      && Served(buf[..], disk, disk0, queue, asked, snaps, synced, command)
    }

    constructor (buf: array<Buf>, disk: Disk)
      requires BufsOk(buf[..], disk)
      ensures Valid() && queue == [] && this.buf == buf && this.disk == disk == disk0 && fresh(qnext)
      ensures asked == [] && synced == {}
    {
      this.buf := buf;
      qnext := new Option<nat>[buf.Length](_ => None);
      idequeue, command := None, None;
      this.disk, disk0 := disk, disk;
      queue, asked, snaps, synced := [], [], [], {};
    }

    /** b->qnext = 0, and the walk along the queue to its end. */
    method Append(b: nat, ghost q': seq<nat>)
      requires buf.Length == qnext.Length && Chain(qnext[..], idequeue, queue) && Distinct(queue)
      requires b < qnext.Length && b !in queue && q' == queue + [b]
      modifies this`idequeue, qnext
      ensures Chain(qnext[..], idequeue, q')
    {
      ghost var q, head := queue, idequeue;
      qnext[b] := None;
      ChainKept(old(qnext[..]), qnext[..], head, q);
      ghost var links := qnext[..];
      ChainAppend(links, head, q, b);
      if idequeue.None? {
        idequeue := Some(b);
        assert q + [b] == [b];
      } else {
        var last := idequeue.value;
        ghost var k := 0;
        while qnext[last].Some?
          invariant 0 <= k < |q| && last == q[k] && last < qnext.Length && qnext[..] == links && idequeue == head
          decreases |q| - k
        {
          ChainIn(links, head, q, k);
          ChainIn(links, head, q, k + 1);
          last := qnext[last].value;
          k := k + 1;
        }
        ChainIn(links, head, q, k);
        qnext[last] := Some(b);
        assert qnext[..] == links[q[|q| - 1] := Some(b)];
      }
    }

    /** iderw up to its wait: b goes to the end of the queue; an idle disk is started on it. */
    method Submit(b: nat)
      requires Valid() && b < buf.Length && b !in queue && !(buf[b].valid && !buf[b].dirty)
      modifies this`idequeue, this`command, this`queue, this`asked, this`snaps, qnext
      ensures Valid() && queue == old(queue) + [b] && asked == old(asked) + [b] && snaps == old(snaps) + [buf[b]]
    {
      ghost var bufs, q, q', asked', snaps' := buf[..], queue, queue + [b], asked + [b], snaps + [buf[b]];
      Append(b, q');
      var command' := if idequeue == Some(b) then Some(CommandFor(buf[b])) else command;
      ServedNext(bufs, disk, disk0, q, asked, snaps, synced, command, b, qnext[..], idequeue, q', asked', snaps',
        command');
      queue, asked, snaps := q', asked', snaps';
      command := command';
    }

    /** The device's part, and the flags: what the device was told is what the buffer says. */
    method Transfer(b: nat)
      requires b < buf.Length && command == Some(CommandFor(buf[b])) && buf[b].at in disk
      modifies this`disk, buf
      ensures disk == SyncDisk(old(disk), old(buf[b]))
      ensures buf[..] == old(buf[..])[b := SyncBuf(old(disk), old(buf[b]))]
    {
      match command {
        case Some(WriteCmd(at, data)) =>
          disk := disk[at := data];
        case Some(ReadCmd(at)) =>
          buf[b] := buf[b].(data := disk[at]);
      }
      buf[b] := buf[b].(valid := true, dirty := false);
    }

    /** ideintr: the head request is done, as the synchronous disk would have done it, and the
        device is on to the next one.  An interrupt with nothing queued is ignored. */
    method Interrupt() returns (done: Option<nat>)
      requires Valid()
      modifies this`idequeue, this`command, this`queue, this`disk, this`synced, buf
      ensures Valid() && asked == old(asked) && snaps == old(snaps)
      ensures done.None? <==> old(queue) == []
      ensures done.None? ==> buf[..] == old(buf[..]) && disk == old(disk) && queue == []
      ensures done.Some? ==>
        && done.value == old(queue)[0] && queue == old(queue)[1..]
        && done.value < buf.Length && old(buf[done.value]).at in old(disk)
        && disk == SyncDisk(old(disk), old(buf[done.value]))
        && buf[..] == old(buf[..])[done.value := SyncBuf(old(disk), old(buf[done.value]))]
        && synced == old(synced) + {done.value}
      ensures done.Some? && old(buf[done.value].dirty) ==>
        && disk == old(disk)[old(buf[done.value].at) := old(buf[done.value].data)]
        && buf[done.value] == old(buf[done.value]).(dirty := false, valid := true)
      ensures done.Some? && !old(buf[done.value].dirty) ==>
        && disk == old(disk)
        && buf[done.value] == old(buf[done.value]).(data := old(disk)[old(buf[done.value].at)], valid := true)
    {
      if idequeue.None? {
        return None;
      }
      var b := idequeue.value;
      ghost var bufs, q, q', synced' := buf[..], queue, queue[1..], synced + {b};
      NextHead(qnext[..], idequeue, q, q');
      ServedHead(bufs, disk, disk0, q, asked, snaps, synced, command, q', synced');
      Transfer(b);
      idequeue := qnext[b];
      queue, synced := q', synced';
      command := None;
      if idequeue.Some? {
        command := Some(CommandFor(buf[idequeue.value]));
      }
      return Some(b);
    }

    /** The holder of a finished buffer changes it, or a buffer is recycled for a block that no
        other buffer is for. */
    method Refill(b: nat, x: Buf)
      requires Valid() && b < buf.Length && b !in queue && x.at in disk
      requires forall i :: 0 <= i < buf.Length && i != b ==> buf[i].at != x.at
      modifies this`synced, buf
      ensures Valid() && buf[..] == old(buf[..])[b := x] && synced == old(synced) - {b}
    {
      Refilled(buf[..], disk, disk0, queue, asked, snaps, synced, b, x);
      ghost var bufs := buf[..];
      buf[b] := x;
      assert buf[..] == bufs[b := x];
      synced := synced - {b};
    }

    /** The test that iderw waits for: true only once the buffer is valid, clean and equal to
        its block on disk. */
    method Finished(b: nat) returns (ok: bool)
      requires Valid() && b < buf.Length && (b in queue || b in synced)
      ensures ok <==> b in synced
      ensures ok ==> buf[b].valid && !buf[b].dirty && buf[b].data == disk[buf[b].at]
    {
      if b in queue {
        ghost var i :| 0 <= i < |queue| && queue[i] == b;
        assert QueuedOk(buf[..], queue, snaps, i);
      }
      assert b in synced ==> SyncedOk(buf[..], disk, queue, b);
      ok := buf[b].valid && !buf[b].dirty;
    }
  }
}
