/** The buffer cache of kern/bio.c over the synchronous disk of kern/memide.c.

    The cache is an array of buffers threaded on a doubly linked ring in most recently
    used order.  `view` is the flat map of blocks that it presents: what a buffer holds,
    else what the disk holds.  Reading, releasing and recycling never change it. */
module Bio {
  import opened Blocks

  /** binit stores dev = -1, an unsigned field, in every buffer. */
  const NODEV: nat := 0xffff_ffff

  datatype Buf = Buf(at: Addr, busy: bool, valid: bool, dirty: bool, data: Block)

  /** bget returns a buffer, goes to sleep on a busy one, or panics for want of buffers. */
  datatype GetResult = Got(i: nat) | Sleep | NoBuffers

  // ----- the linked ring -----

  function After(r: seq<nat>, i: nat): nat
    requires i < |r|
  {
    if i + 1 == |r| then r[0] else r[i + 1]
  }

  function Before(r: seq<nat>, i: nat): nat
    requires i < |r|
  {
    if i == 0 then r[|r| - 1] else r[i - 1]
  }

  ghost predicate Linked(next: seq<nat>, prev: seq<nat>, r: seq<nat>, i: int)
    requires 0 <= i < |r| && r[i] < |next| && r[i] < |prev|
  {
    next[r[i]] == After(r, i) && prev[r[i]] == Before(r, i)
  }

  /** The links spell out the ring r, once around, forwards and backwards. */
  ghost predicate Ring(next: seq<nat>, prev: seq<nat>, r: seq<nat>)
  {
    && |next| == |prev| && |r| > 0
    && (forall i :: 0 <= i < |r| ==> r[i] < |next|)
    && (forall i, j :: 0 <= i < j < |r| ==> r[i] != r[j])
    && (forall i :: 0 <= i < |r| ==> Linked(next, prev, r, i))
  }

  function Without(s: seq<nat>, x: nat): (r: seq<nat>)
    requires x in s
  {
    if s[0] == x then s[1..] else [s[0]] + Without(s[1..], x)
  }

  lemma {:induction false} WithoutAt(s: seq<nat>, k: nat)
    requires k < |s| && forall i :: 0 <= i < k ==> s[i] != s[k]
    ensures Without(s, s[k]) == s[..k] + s[k + 1..]
    ensures forall c :: c in s && c != s[k] ==> c in Without(s, s[k])
    ensures forall c :: c in Without(s, s[k]) ==> c in s
  {
    if k > 0 {
      WithoutAt(s[1..], k - 1);
    }
  }

  lemma RingPush(next: seq<nat>, prev: seq<nat>, r: seq<nat>, b: nat)
    requires Ring(next, prev, r) && b < |next| && b !in r
    ensures next[r[0]] < |next|
    ensures Ring(next[b := next[r[0]]][r[0] := b], prev[b := r[0]][next[r[0]] := b], [r[0], b] + r[1..])
  {
    var first := next[r[0]];
    assert Linked(next, prev, r, 0);
    var q := [r[0], b] + r[1..];
    var n', p' := next[b := first][r[0] := b], prev[b := r[0]][first := b];
    assert forall i :: 2 <= i < |q| ==> q[i] == r[i - 1];
    forall i | 0 <= i < |q|
      ensures Linked(n', p', q, i)
    {
      if i >= 2 {
        assert Linked(next, prev, r, i - 1);
      }
    }
  }

  lemma RingUnlink(next: seq<nat>, prev: seq<nat>, r: seq<nat>, k: nat)
    requires Ring(next, prev, r) && 0 < k < |r|
    ensures next[r[k]] < |next| && prev[r[k]] < |next|
    ensures Ring(next[prev[r[k]] := next[r[k]]], prev[next[r[k]] := prev[r[k]]], r[..k] + r[k + 1..])
  {
    var b := r[k];
    assert Linked(next, prev, r, k);
    var q := r[..k] + r[k + 1..];
    var n', p' := next[prev[b] := next[b]], prev[next[b] := prev[b]];
    forall i | 0 <= i < |q|
      ensures Linked(n', p', q, i)
    {
      var j := if i < k then i else i + 1;
      assert q[i] == r[j];
      assert Linked(next, prev, r, j);
    }
  }

  // ----- what the cache shows -----

  /** What one buffer says about the observable state. */
  ghost predicate BufOk(bufs: seq<Buf>, disk: Disk, view: Disk, pinned: set<Addr>, held: map<nat, Addr>, i: int)
    requires 0 <= i < |bufs|
  {
    var b := bufs[i];
    && (b.busy <==> i in held)
    && (b.busy ==> held[i] == b.at)
    && if b.at.dev == NODEV then !b.busy && !b.valid && !b.dirty
       else
         && b.valid && b.at in disk && b.at in view && b.data == view[b.at]
         && (b.dirty <==> b.at in pinned)
         && (!b.busy && !b.dirty ==> b.data == disk[b.at])
  }

  ghost predicate InCache(bufs: seq<Buf>, a: Addr)
  {
    exists i :: 0 <= i < |bufs| && bufs[i].at == a
  }

  /** A block that is not cached is seen as it is on disk. */
  ghost predicate AddrOk(bufs: seq<Buf>, disk: Disk, view: Disk, pinned: set<Addr>, a: Addr)
  {
    if a in disk then a.dev != NODEV && (InCache(bufs, a) || (a in view && view[a] == disk[a] && a !in pinned))
    else a !in pinned
  }

  ghost predicate HandleOk(bufs: seq<Buf>, held: map<nat, Addr>, i: nat)
  {
    i in held ==> i < |bufs|
  }

  /** No block is in two buffers. */
  ghost predicate SlotsDiffer(bufs: seq<Buf>, i: int, j: int)
    requires 0 <= i < |bufs| && 0 <= j < |bufs|
  {
    i != j && bufs[i].at == bufs[j].at ==> bufs[i].at.dev == NODEV
  }

  ghost predicate Coherent(bufs: seq<Buf>, disk: Disk, view: Disk, pinned: set<Addr>, held: map<nat, Addr>)
  {
    && view.Keys == disk.Keys
    && (forall i: nat :: HandleOk(bufs, held, i))
    && (forall i :: 0 <= i < |bufs| ==> BufOk(bufs, disk, view, pinned, held, i))
    && (forall i, j :: 0 <= i < |bufs| && 0 <= j < |bufs| ==> SlotsDiffer(bufs, i, j))
    && (forall a :: AddrOk(bufs, disk, view, pinned, a))
  }

  /** Changing a buffer in place, and what is seen, written or pinned at its own block. */
  lemma Restamped(bufs: seq<Buf>, disk: Disk, view: Disk, pinned: set<Addr>, held: map<nat, Addr>,
                  i: nat, b: Buf, disk': Disk, view': Disk, pinned': set<Addr>, held': map<nat, Addr>)
    requires Coherent(bufs, disk, view, pinned, held) && i < |bufs|
    requires b.at == bufs[i].at && b.at.dev != NODEV && b.at in disk
    requires disk'.Keys == view'.Keys == disk.Keys
    requires forall a :: a in disk && a != b.at ==>
      disk'[a] == disk[a] && view'[a] == view[a]
    requires forall a :: a != b.at ==> (a in pinned' <==> a in pinned)
    requires held' - {i} == held - {i}
    requires BufOk(bufs[i := b], disk', view', pinned', held', i)
    ensures Coherent(bufs[i := b], disk', view', pinned', held')
  {
    var u := bufs[i := b];
    forall j: nat ensures HandleOk(u, held', j) {
      assert HandleOk(bufs, held, j);
      assert j != i && j in held' ==> j in held' - {i};
    }
    forall j | 0 <= j < |u| ensures BufOk(u, disk', view', pinned', held', j) {
      assert BufOk(bufs, disk, view, pinned, held, j);
      assert SlotsDiffer(bufs, i, j);
      assert j != i ==> (j in held' <==> j in held' - {i}) && (j in held <==> j in held - {i});
    }
    forall j, k | 0 <= j < |u| && 0 <= k < |u| ensures SlotsDiffer(u, j, k) {
      assert SlotsDiffer(bufs, j, k);
    }
    forall a ensures AddrOk(u, disk', view', pinned', a) {
      assert AddrOk(bufs, disk, view, pinned, a);
      if InCache(bufs, a) {
        var j :| 0 <= j < |bufs| && bufs[j].at == a;
        assert u[j].at == a;
      } else {
        assert a != bufs[i].at;
      }
    }
  }

  /** Recycling an idle clean buffer for a block that is not cached. */
  lemma Recycled(bufs: seq<Buf>, disk: Disk, view: Disk, pinned: set<Addr>, held: map<nat, Addr>, i: nat, b: Buf)
    requires Coherent(bufs, disk, view, pinned, held) && i < |bufs|
    requires !bufs[i].busy && !bufs[i].dirty
    requires b.at in disk && !InCache(bufs, b.at)
    requires b == Buf(b.at, true, true, false, disk[b.at])
    ensures Coherent(bufs[i := b], disk, view, pinned, held[i := b.at])
  {
    var u, h := bufs[i := b], held[i := b.at];
    forall j: nat ensures HandleOk(u, h, j) { assert HandleOk(bufs, held, j); }
    assert AddrOk(bufs, disk, view, pinned, b.at);
    forall j | 0 <= j < |u| ensures BufOk(u, disk, view, pinned, h, j) {
      assert BufOk(bufs, disk, view, pinned, held, j);
    }
    forall j, k | 0 <= j < |u| && 0 <= k < |u| ensures SlotsDiffer(u, j, k) {
      assert SlotsDiffer(bufs, j, k);
      assert bufs[j].at != b.at && bufs[k].at != b.at;
    }
    assert BufOk(bufs, disk, view, pinned, held, i);
    forall a ensures AddrOk(u, disk, view, pinned, a) {
      assert AddrOk(bufs, disk, view, pinned, a);
      if a == b.at {
        assert u[i].at == a;
      } else if InCache(bufs, a) && a != bufs[i].at {
        var j :| 0 <= j < |bufs| && bufs[j].at == a;
        assert u[j].at == a;
      }
    }
  }

  /** The view differs from the disk only at blocks that are pinned or held. */
  lemma UnpinnedIsDisk(bufs: seq<Buf>, disk: Disk, view: Disk, pinned: set<Addr>, held: map<nat, Addr>, a: Addr)
    requires Coherent(bufs, disk, view, pinned, held) && a in disk && a !in pinned && a !in held.Values
    ensures view[a] == disk[a]
  {
    assert AddrOk(bufs, disk, view, pinned, a);
    if InCache(bufs, a) {
      var i :| 0 <= i < |bufs| && bufs[i].at == a;
      assert BufOk(bufs, disk, view, pinned, held, i);
    }
  }

  ghost predicate NoneFree(bufs: seq<Buf>)
  {
    forall j :: 0 <= j < |bufs| ==> bufs[j].busy || bufs[j].dirty
  }

  lemma SeenAt(bufs: seq<Buf>, disk: Disk, view: Disk, pinned: set<Addr>, held: map<nat, Addr>, a: Addr)
    requires Coherent(bufs, disk, view, pinned, held) && a in disk
    ensures a in held.Values <==> exists j :: 0 <= j < |bufs| && bufs[j].at == a && bufs[j].busy
    ensures a in pinned ==> InCache(bufs, a)
    ensures InCache(bufs, a) && NoneFree(bufs) ==> a in pinned + held.Values
  {
    assert AddrOk(bufs, disk, view, pinned, a);
    forall j | 0 <= j < |bufs| && bufs[j].at == a
      ensures bufs[j].busy ==> a in held.Values
      ensures bufs[j].dirty ==> a in pinned
    {
      assert BufOk(bufs, disk, view, pinned, held, j);
    }
    if a in held.Values {
      var j :| j in held && held[j] == a;
      assert HandleOk(bufs, held, j);
      assert BufOk(bufs, disk, view, pinned, held, j);
    }
  }

  // ----- running out of buffers -----

  ghost function Taken(bufs: seq<Buf>): set<Addr>
  {
    set i | 0 <= i < |bufs| && (bufs[i].busy || bufs[i].dirty) :: bufs[i].at
  }

  ghost predicate TakenOnce(bufs: seq<Buf>)
  {
    forall i, j :: 0 <= i < j < |bufs| && bufs[i].at == bufs[j].at ==> !bufs[i].busy && !bufs[i].dirty
  }

  lemma TakenLast(u: seq<Buf>, b: Buf)
    requires TakenOnce(u + [b])
    ensures TakenOnce(u)
    ensures Taken(u + [b]) == Taken(u) + (if b.busy || b.dirty then {b.at} else {})
    ensures b.at !in Taken(u)
    ensures NoneFree(u + [b]) <==> NoneFree(u) && (b.busy || b.dirty)
  {
    var v := u + [b];
    assert v[|u|] == b;
    assert forall i :: 0 <= i < |u| ==> v[i] == u[i];
  }

  lemma {:induction false} CountTaken(bufs: seq<Buf>)
    requires TakenOnce(bufs)
    ensures |Taken(bufs)| <= |bufs|
    ensures |Taken(bufs)| == |bufs| <==> NoneFree(bufs)
  {
    if bufs == [] {
      assert Taken(bufs) == {};
    } else {
      var m := |bufs| - 1;
      assert bufs == bufs[..m] + [bufs[m]];
      TakenLast(bufs[..m], bufs[m]);
      CountTaken(bufs[..m]);
    }
  }

  /** Every buffer is busy or pinned exactly when as many blocks are held or pinned as there
      are buffers. */
  lemma AllTaken(bufs: seq<Buf>, disk: Disk, view: Disk, pinned: set<Addr>, held: map<nat, Addr>)
    requires Coherent(bufs, disk, view, pinned, held)
    ensures |pinned + held.Values| <= |bufs|
    ensures |pinned + held.Values| == |bufs| <==> NoneFree(bufs)
  {
    forall i, j | 0 <= i < j < |bufs| && bufs[i].at == bufs[j].at
      ensures !bufs[i].busy && !bufs[i].dirty
    {
      assert SlotsDiffer(bufs, i, j);
      assert BufOk(bufs, disk, view, pinned, held, i);
    }
    CountTaken(bufs);
    forall a | a in pinned + held.Values ensures a in Taken(bufs) {
      if a in pinned {
        assert AddrOk(bufs, disk, view, pinned, a);
        var i :| 0 <= i < |bufs| && bufs[i].at == a;
        assert BufOk(bufs, disk, view, pinned, held, i);
      } else {
        var i :| i in held && held[i] == a;
        assert HandleOk(bufs, held, i);
        assert BufOk(bufs, disk, view, pinned, held, i);
      }
    }
    forall a | a in Taken(bufs) ensures a in pinned + held.Values {
      var i :| 0 <= i < |bufs| && (bufs[i].busy || bufs[i].dirty) && bufs[i].at == a;
      assert BufOk(bufs, disk, view, pinned, held, i);
    }
    assert Taken(bufs) == pinned + held.Values;
  }

  class Bcache {
    const nbuf: nat
    const buf: array<Buf>
    const next: array<nat>    // index nbuf is bcache.head
    const prev: array<nat>
    var disk: Disk
    ghost var order: seq<nat>     // buffers from most to least recently used
    ghost var issued: seq<Write>  // every block write sent to the disk so far
    ghost var view: Disk          // the blocks as users of the cache see them
    ghost var pinned: set<Addr>   // blocks whose buffer is dirty
    ghost var held: map<nat, Addr> // busy buffers and their blocks

    ghost predicate Links()
      reads this, next, prev
    {
      && next.Length == nbuf + 1 && prev.Length == nbuf + 1 && next != prev
      && Ring(next[..], prev[..], [nbuf] + order)
      && (forall i :: 0 <= i < |order| ==> order[i] < nbuf)
      && (forall b :: 0 <= b < nbuf ==> b in order)
    }

    ghost predicate Valid()
      reads this, buf, next, prev
    {
      && buf.Length == nbuf && Links() && Coherent(buf[..], disk, view, pinned, held)
    }

    /** The four assignments that insert b after bcache.head. */
    method PushFront(b: nat)
      requires next.Length == nbuf + 1 && prev.Length == nbuf + 1 && next != prev
      requires Ring(next[..], prev[..], [nbuf] + order)
      requires b < nbuf && b !in order
      modifies next, prev, this`order
      ensures order == [b] + old(order)
      ensures Ring(next[..], prev[..], [nbuf] + order)
    {
      RingPush(next[..], prev[..], [nbuf] + order, b);
      assert ([nbuf] + order)[0] == nbuf;
      var first := next[nbuf];
      next[b] := first;
      prev[b] := nbuf;
      prev[first] := b;
      next[nbuf] := b;
      assert [nbuf, b] + ([nbuf] + order)[1..] == [nbuf] + ([b] + order);
      order := [b] + order;
    }

    /** binit: every buffer unused, threaded in front of the ones before it. */
    constructor (n: nat, disk: Disk)
      requires forall a :: a in disk ==> a.dev != NODEV
      ensures Valid() && fresh(buf) && fresh(next) && fresh(prev)
      ensures nbuf == n && this.disk == disk && issued == []
      ensures order == seq(n, i => n - 1 - i)
      ensures view == disk && pinned == {} && held == map[]
    {
      nbuf := n;
      this.disk := disk;
      buf := new Buf[n](_ => Buf(Addr(NODEV, 0), false, false, false, seq(BSIZE, _ => 0)));
      next := new nat[n + 1](_ => n);
      prev := new nat[n + 1](_ => n);
      order := [];
      issued := [];
      view := disk;
      pinned := {};
      held := map[];
      new;
      var b := 0;
      while b < n
        invariant 0 <= b <= n
        invariant Ring(next[..], prev[..], [n] + order)
        invariant order == seq(b, i requires 0 <= i < b => b - 1 - i)
        invariant issued == [] && this.disk == disk && view == disk && pinned == {} && held == map[]
        invariant forall i :: 0 <= i < n ==>
          buf[i] == Buf(Addr(NODEV, 0), false, false, false, seq(BSIZE, _ => 0))
      {
        PushFront(b);
        b := b + 1;
      }
      forall i | 0 <= i < n ensures i in order { assert order[n - 1 - i] == i; }
    }

    /** The two assignments that take b out of the ring. */
    method Unlink(b: nat)
      requires next.Length == nbuf + 1 && prev.Length == nbuf + 1 && next != prev
      requires Ring(next[..], prev[..], [nbuf] + order)
      requires b < nbuf && b in order
      modifies next, prev, this`order
      ensures order == Without(old(order), b)
      ensures forall c :: c in order <==> c in old(order) && c != b
      ensures Ring(next[..], prev[..], [nbuf] + order)
    {
      ghost var r := [nbuf] + order;
      ghost var k :| 0 <= k < |order| && order[k] == b;
      ghost var m := k + 1;
      assert r[m] == b;
      forall i | 0 <= i < |order| && i != k ensures order[i] != b { assert r[i + 1] == order[i]; }
      WithoutAt(order, k);
      RingUnlink(next[..], prev[..], r, m);
      assert r[..m] + r[m + 1..] == [nbuf] + (order[..k] + order[m..]);
      prev[next[b]] := prev[b];
      next[prev[b]] := next[b];
      order := Without(order, b);
    }

    /** i is idle and clean and everything used less recently is busy or pinned. */
    static ghost predicate OldestFree(bufs: seq<Buf>, order: seq<nat>, i: nat)
      requires forall p :: 0 <= p < |order| ==> order[p] < |bufs|
    {
      exists p :: 0 <= p < |order| && order[p] == i && !bufs[i].busy && !bufs[i].dirty
        && forall q :: p < q < |order| ==> bufs[order[q]].busy || bufs[order[q]].dirty
    }

    /** bget: a buffer for block a, marked busy.  An idle cached buffer is taken as it is; a
        busy one means sleep; else the least recently used idle clean buffer is recycled. */
    method Bget(a: Addr) returns (r: GetResult)
      requires Valid() && a in disk
      modifies buf
      ensures r.Sleep? <==> exists j :: 0 <= j < nbuf && old(buf[j].at) == a && old(buf[j].busy)
      ensures r.NoBuffers? <==> !InCache(old(buf[..]), a) && NoneFree(old(buf[..]))
      ensures !r.Got? ==> buf[..] == old(buf[..])
      ensures r.Got? ==> r.i < nbuf && !old(buf[r.i].busy)
      ensures r.Got? && old(buf[r.i].at) == a ==>
        buf[..] == old(buf[..])[r.i := old(buf[r.i]).(busy := true)]
      ensures r.Got? && old(buf[r.i].at) != a ==>
        && !InCache(old(buf[..]), a)
        && buf[..] == old(buf[..])[r.i := Buf(a, true, false, false, old(buf[r.i].data))]
        && OldestFree(old(buf[..]), order, r.i)
    {
      ghost var was := buf[..];
      var b := next[nbuf];
      ghost var ring := [nbuf] + order;
      ghost var k := 0;
      assert Linked(next[..], prev[..], ring, 0);
      while b != nbuf
        invariant 0 <= k <= |order|
        invariant b == After(ring, k)
        invariant forall j :: 0 <= j < k ==> buf[order[j]].at != a
        decreases |order| - k
      {
        assert b == ring[k + 1] == order[k];
        if buf[b].at == a {
          if !buf[b].busy {
            buf[b] := buf[b].(busy := true);
            forall j | 0 <= j < nbuf ensures was[j].at == a ==> j == b {
              assert SlotsDiffer(was, b, j);
              assert AddrOk(was, disk, view, pinned, a);
            }
            return Got(b);
          }
          return Sleep;
        }
        assert Linked(next[..], prev[..], ring, k + 1);
        b := next[b];
        k := k + 1;
      }
      assert k == |order|;
      forall j | 0 <= j < nbuf ensures buf[j].at != a { assert j in order; }
      assert Linked(next[..], prev[..], ring, 0);
      b := prev[nbuf];
      k := |order|;
      while b != nbuf
        invariant 0 <= k <= |order|
        invariant b == ring[k]
        invariant forall q :: k <= q < |order| ==> buf[order[q]].busy || buf[order[q]].dirty
        decreases k
      {
        assert b == ring[k] == order[k - 1];
        if !buf[b].busy && !buf[b].dirty {
          buf[b] := Buf(a, true, false, false, buf[b].data);
          return Got(b);
        }
        assert Linked(next[..], prev[..], ring, k);
        b := prev[b];
        k := k - 1;
      }
      assert k == 0;
      forall j | 0 <= j < nbuf ensures buf[j].busy || buf[j].dirty { assert j in order; }
      return NoBuffers;
    }

    /** iderw of kern/memide.c: a dirty buffer goes to disk, else the block is read in. */
    method Iderw(i: nat)
      requires i < buf.Length && buf[i].busy && !(buf[i].valid && !buf[i].dirty) && buf[i].at in disk
      modifies this`disk, this`issued, buf
      ensures old(buf[i].dirty) ==>
        && disk == old(disk[buf[i].at := buf[i].data])
        && issued == old(issued + [Write(buf[i].at, buf[i].data)])
        && buf[..] == old(buf[..])[i := old(buf[i]).(dirty := false, valid := true)]
      ensures !old(buf[i].dirty) ==>
        && disk == old(disk) && issued == old(issued)
        && buf[..] == old(buf[..])[i := old(buf[i]).(data := disk[old(buf[i].at)], valid := true)]
    {
      if buf[i].dirty {
        disk := disk[buf[i].at := buf[i].data];
        issued := issued + [Write(buf[i].at, buf[i].data)];
        buf[i] := buf[i].(dirty := false);
      } else {
        buf[i] := buf[i].(data := disk[buf[i].at]);
      }
      buf[i] := buf[i].(valid := true);
    }

    /** bread: take a buffer for block a, filled with what the view shows. */
    method Bread(a: Addr) returns (r: GetResult)
      requires Valid() && a in disk
      modifies this`disk, this`issued, this`held, buf
      ensures Valid() && disk == old(disk) && issued == old(issued)
      ensures r.Sleep? <==> a in old(held).Values
      ensures r.NoBuffers? <==> a !in old(pinned + held.Values) && |old(pinned + held.Values)| == nbuf
      ensures !r.Got? ==> held == old(held)
      ensures r.Got? ==> r.i !in old(held) && held == old(held)[r.i := a]
    {
      ghost var was := buf[..];
      AllTaken(was, disk, view, pinned, held);
      SeenAt(was, disk, view, pinned, held, a);
      r := Bget(a);
      if r.Got? {
        assert BufOk(was, disk, view, pinned, held, r.i);
        assert AddrOk(was, disk, view, pinned, a);
        if !buf[r.i].valid {
          Iderw(r.i);
        }
        ghost var b := buf[r.i];
        assert buf[..] == was[r.i := b];
        if was[r.i].at == a {
          Restamped(was, disk, view, pinned, held, r.i, b, disk, view, pinned, held[r.i := a]);
        } else {
          Recycled(was, disk, view, pinned, held, r.i, b);
        }
        held := held[r.i := a];
      }
    }

    /** The data of a busy buffer is the view of its block. */
    method Load(i: nat) returns (data: Block)
      requires Valid() && i in held
      ensures held[i] in view && data == view[held[i]]
    {
      assert HandleOk(buf[..], held, i) && BufOk(buf[..], disk, view, pinned, held, i);
      data := buf[i].data;
    }

    /** The holder of a busy buffer changes its data. */
    method Store(i: nat, data: Block)
      requires Valid() && i in held
      modifies this`view, buf
      ensures Valid() && view == old(view)[held[i] := data]
    {
      ghost var was, v := buf[..], view;
      assert HandleOk(was, held, i) && BufOk(was, disk, view, pinned, held, i);
      assert AddrOk(was, disk, view, pinned, was[i].at);
      buf[i] := buf[i].(data := data);
      view := view[held[i] := data];
      Restamped(was, disk, v, pinned, held, i, buf[i], disk, view, pinned, held);
      assert buf[..] == was[i := buf[i]];
    }

    /** log_write's last act on the buffer: B_DIRTY keeps it from being recycled. */
    method Pin(i: nat)
      requires Valid() && i in held
      modifies this`pinned, buf
      ensures Valid() && pinned == old(pinned) + {held[i]}
    {
      ghost var was, p := buf[..], pinned;
      assert HandleOk(was, held, i) && BufOk(was, disk, view, pinned, held, i);
      assert AddrOk(was, disk, view, pinned, was[i].at);
      buf[i] := buf[i].(dirty := true);
      pinned := pinned + {held[i]};
      Restamped(was, disk, view, p, held, i, buf[i], disk, view, pinned, held);
      assert buf[..] == was[i := buf[i]];
    }

    /** bwrite: one block write; the view keeps, the disk catches up with it. */
    method Bwrite(i: nat)
      requires Valid() && i in held
      modifies this`disk, this`issued, this`pinned, buf
      ensures Valid() && held[i] in view
      ensures disk == old(disk)[held[i] := view[held[i]]]
      ensures issued == old(issued) + [Write(held[i], view[held[i]])]
      ensures pinned == old(pinned) - {held[i]}
    {
      ghost var was, d, p := buf[..], disk, pinned;
      assert HandleOk(was, held, i) && BufOk(was, disk, view, pinned, held, i);
      assert AddrOk(was, disk, view, pinned, was[i].at);
      buf[i] := buf[i].(dirty := true);
      Iderw(i);
      pinned := pinned - {held[i]};
      assert buf[..] == was[i := was[i].(dirty := false)];
      Restamped(was, d, view, p, held, i, buf[i], disk, view, pinned, held);
    }

    /** brelse: idle again and most recently used.  The interface asks that a changed
        buffer has been logged or written first. */
    method Brelse(i: nat)
      requires Valid() && i in held && held[i] in view
      requires held[i] in pinned || view[held[i]] == disk[held[i]]
      modifies buf, next, prev, this`order, this`held
      ensures Valid() && held == old(held) - {i}
      ensures i in old(order) && order == [i] + Without(old(order), i)
    {
      ghost var was, h := buf[..], held;
      assert HandleOk(was, held, i) && BufOk(was, disk, view, pinned, held, i);
      assert AddrOk(was, disk, view, pinned, was[i].at);
      Unlink(i);
      forall p | 0 <= p < |order| ensures order[p] < nbuf { assert order[p] in order; }
      PushFront(i);
      buf[i] := buf[i].(busy := false);
      held := held - {i};
      Restamped(was, disk, view, pinned, h, i, buf[i], disk, view, pinned, held);
      assert buf[..] == was[i := buf[i]];
    }
  }
}
