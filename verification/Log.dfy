/** kern/log.c: the in-memory log header, log_write with absorption, and commit and recovery
    run against the buffer cache.  Each method issues exactly the block writes that module
    `RedoLog` proves crash atomic. */
module Log {
  import opened Blocks
  import opened RedoLog
  import opened Bio
  import opened AtomicDisk
  import opened Options
  import LogAdmission

  datatype LogOutcome = Logged | TooBig | OutsideTransaction

  ghost function Homes(L: Layout, lh: seq<nat>): (r: set<Addr>)
  {
    set i | 0 <= i < |lh| :: L.Home(lh[i])
  }

  lemma {:induction false} HomesCount(L: Layout, lh: seq<nat>)
    requires Distinct(lh)
    ensures |Homes(L, lh)| == |lh|
  {
    if lh == [] {
      assert Homes(L, lh) == {};
    } else {
      var m := |lh| - 1;
      var front := lh[..m];
      HomesCount(L, front);
      assert forall i :: 0 <= i < m ==> front[i] == lh[i];
      assert L.Home(lh[m]) !in Homes(L, front);
      assert Homes(L, lh) == Homes(L, front) + {L.Home(lh[m])};
    }
  }

  lemma HomesAbsorb(L: Layout, lh: seq<nat>, bno: nat)
    ensures Homes(L, Absorb(lh, bno)) == Homes(L, lh) + {L.Home(bno)}
  {
    if bno !in lh {
      var u := lh + [bno];
      assert u[|lh|] == bno;
      assert forall j :: 0 <= j < |lh| ==> u[j] == lh[j];
    }
  }

  /** One more log write, seen on the disk, in the view and in what has been issued. */
  lemma LogTurn(L: Layout, d0: Disk, v0: Disk, lh: seq<nat>, tail: nat, i0: seq<Write>)
    requires WellFormed(L, d0) && Loggable(L, d0, lh) && v0.Keys == d0.Keys && tail < |lh|
    ensures L.Slot(tail) in d0 && L.Slot(tail) !in Homes(L, lh) && L.Home(lh[tail]) in d0
    ensures var ws := LogWrites(L, v0, lh);
            var w := Write(L.Slot(tail), v0[L.Home(lh[tail])]);
            && L.Home(lh[tail]) in Apply(v0, ws[..tail])
            && Apply(v0, ws[..tail])[L.Home(lh[tail])] == v0[L.Home(lh[tail])]
            && Apply(v0, ws[..tail + 1]) == Apply(v0, ws[..tail])[w.at := w.data]
            && Apply(d0, ws[..tail + 1]) == Apply(d0, ws[..tail])[w.at := w.data]
            && i0 + ws[..tail + 1] == i0 + ws[..tail] + [w]
  {
    var ws := LogWrites(L, v0, lh);
    ApplyOther(v0, ws[..tail], L.Home(lh[tail]));
    StepPrefix(v0, ws, tail);
    StepPrefix(d0, ws, tail);
  }

  /** One more install, seen on the disk, in the view and in what has been issued. */
  lemma InstallTurn(L: Layout, d0: Disk, v0: Disk, lh: seq<nat>, tail: nat, i0: seq<Write>)
    requires Loggable(L, d0, lh) && v0.Keys == d0.Keys && tail < |lh|
    requires forall i: nat :: i + 1 < L.size ==> L.Slot(i) in d0
    ensures L.Slot(tail) in d0 && L.Home(lh[tail]) in d0 && !L.InLog(L.Home(lh[tail])) && L.InLog(L.Slot(tail))
    ensures var ws := InstallWrites(L, v0, lh);
            var w := Write(L.Home(lh[tail]), v0[L.Slot(tail)]);
            && L.Slot(tail) in Apply(v0, ws[..tail])
            && Apply(v0, ws[..tail])[L.Slot(tail)] == v0[L.Slot(tail)]
            && Apply(v0, ws[..tail + 1]) == Apply(v0, ws[..tail])[w.at := w.data]
            && Apply(d0, ws[..tail + 1]) == Apply(d0, ws[..tail])[w.at := w.data]
            && i0 + ws[..tail + 1] == i0 + ws[..tail] + [w]
  {
    var ws := InstallWrites(L, v0, lh);
    ApplyOther(v0, ws[..tail], L.Slot(tail));
    StepPrefix(v0, ws, tail);
    StepPrefix(d0, ws, tail);
  }

  /** Enough buffers for install_trans: either only the log's own blocks are pinned and they
      leave one buffer spare, or nothing is pinned and there are two. */
  ghost predicate Roomy(L: Layout, lh: seq<nat>, pins: set<Addr>, nbuf: int)
  {
    (pins == {} && nbuf >= 2) || (pins == Homes(L, lh) && |pins| < nbuf)
  }

  lemma Subset(a: set<Addr>, b: set<Addr>)
    requires a <= b
    ensures |a| <= |b|
  {
    assert b == a + (b - a);
  }

  lemma HomesNext(L: Layout, lh: seq<nat>, tail: nat)
    requires tail < |lh|
    ensures Homes(L, lh[..tail + 1]) == Homes(L, lh[..tail]) + {L.Home(lh[tail])}
    ensures L.Home(lh[tail]) in Homes(L, lh)
  {
    var u, v := lh[..tail + 1], lh[..tail];
    assert u[tail] == lh[tail] && forall i :: 0 <= i < tail ==> u[i] == v[i];
  }

  lemma RoomyTurn(L: Layout, lh: seq<nat>, pins: set<Addr>, nbuf: int, tail: nat)
    requires Roomy(L, lh, pins, nbuf) && tail < |lh|
    requires forall i :: 0 <= i < |lh| ==> L.Home(lh[i]) != L.Slot(tail)
    ensures var left := pins - Homes(L, lh[..tail]);
            && |left| < nbuf
            && (L.Home(lh[tail]) in left || |left| + 1 < nbuf)
            && pins - Homes(L, lh[..tail + 1]) == left - {L.Home(lh[tail])}
            && L.Slot(tail) !in left
  {
    var left := pins - Homes(L, lh[..tail]);
    HomesNext(L, lh, tail);
    var home := L.Home(lh[tail]);
    Subset(left, pins);
    if pins != {} && home !in left {
      assert home in pins;
      Subset(left, pins - {home});
    }
  }

  // ----- buffers that others hold meanwhile -----

  /** Held buffers are of blocks that neither the log nor the transaction touches. */
  ghost predicate Apart(L: Layout, lh: seq<nat>, held: map<nat, Addr>)
  {
    forall i :: i in held ==> !L.InLog(held[i]) && held[i] !in Homes(L, lh)
  }

  lemma NotHeld(L: Layout, lh: seq<nat>, held: map<nat, Addr>, a: Addr)
    requires Apart(L, lh, held) && (L.InLog(a) || a in Homes(L, lh))
    ensures a !in held.Values
  {
  }

  lemma ApartSize(L: Layout, lh: seq<nat>, held: map<nat, Addr>)
    requires Apart(L, lh, held)
    ensures |Homes(L, lh) + held.Values| == |Homes(L, lh)| + |held.Values|
  {
    assert Homes(L, lh) * held.Values == {};
  }

  lemma OneMore(held: map<nat, Addr>, i: nat, a: Addr)
    requires i !in held
    ensures held[i := a].Values == held.Values + {a} && held[i := a] - {i} == held
    ensures |held[i := a].Values| <= |held.Values| + 1
  {
    var more := held[i := a];
    forall x | x in held.Values + {a} ensures x in more.Values {
      if x == a {
        assert more[i] == a;
      } else {
        var j :| j in held && held[j] == x;
        assert more[j] == x;
      }
    }
  }

  lemma Swapped(held: map<nat, Addr>, i: nat, a: Addr, j: nat, b: Addr)
    requires i != j
    ensures held[i := a][j := b] == held[j := b][i := a]
  {
  }

  /** Two buffers taken and given back. */
  lemma TwoMore(held: map<nat, Addr>, i: nat, a: Addr, j: nat, b: Addr)
    requires i !in held && j !in held && i != j
    ensures held[i := a][j := b] - {i} - {j} == held
  {
  }

  lemma UnionSize(a: set<Addr>, b: set<Addr>)
    ensures |a + b| <= |a| + |b|
  {
    assert a + b == a + (b - a);
    Subset(b - a, b);
  }

  /** Log writes, header, installs, empty header: what the four parts of commit() write. */
  lemma CommitParts(L: Layout, d: Disk, v: Disk, lh: seq<nat>)
    requires CommitStart(L, d, v, lh) && lh != []
    ensures var lw := LogWrites(L, v, lh);
            var head := HeadBlock(v[L.Head()], lh);
            var v2 := Apply(v, lw)[L.Head() := head];
            && L.Head() in Apply(v, lw) && Apply(v, lw)[L.Head()] == v[L.Head()]
            && Apply(d, lw).Keys == d.Keys && Apply(v, lw).Keys == d.Keys
            && InstallWrites(L, v2, lh) == HomeWrites(L, v, lh)
            && Apply(v2, HomeWrites(L, v, lh)).Keys == d.Keys
            && Apply(v2, HomeWrites(L, v, lh))[L.Head()] == head
            && Apply(Apply(d, lw)[L.Head() := head], HomeWrites(L, v, lh)).Keys == d.Keys
  {
    var lw := LogWrites(L, v, lh);
    var iw := HomeWrites(L, v, lh);
    var head := HeadBlock(v[L.Head()], lh);
    assert forall i :: 0 <= i < |lw| ==> lw[i].at == L.Slot(i);
    ApplyKeys(v, lw);
    ApplyKeys(d, lw);
    ApplyOther(v, lw, L.Head());
    var v2 := Apply(v, lw)[L.Head() := head];
    forall i: nat | i < |lh| ensures v2[L.Slot(i)] == v[L.Home(lh[i])] { LogSlotsHold(L, v, v, lh, i); }
    assert InstallWrites(L, v2, lh) == iw;
    ApplyKeys(v2, iw);
    ApplyKeys(Apply(d, lw)[L.Head() := head], iw);
    InstallKeepsLog(L, v2, iw, L.Head());
  }

  lemma CommittedDisk(L: Layout, d: Disk, v: Disk, lh: seq<nat>)
    requires CommitStart(L, d, v, lh)
    ensures var e := Apply(d, CommitWrites(L, d, v, lh));
            && WellFormed(L, e) && DiskLog(L, e) == [] && HomeOf(L, e) == HomeOf(L, v)
  {
    var ws := CommitWrites(L, d, v, lh);
    CommitCrash(L, d, v, lh, |ws|);
    assert ws[..|ws|] == ws;
  }

  lemma FourParts(d: Disk, lw: seq<Write>, hw: seq<Write>, iw: seq<Write>, ew: seq<Write>)
    requires |hw| == 1 && |ew| == 1
    ensures Apply(d, lw + hw + iw + ew) == Apply(Apply(d, lw)[hw[0].at := hw[0].data], iw)[ew[0].at := ew[0].data]
  {
    ApplyConcat(d, lw + hw + iw, ew);
    ApplyConcat(d, lw + hw, iw);
    ApplyConcat(d, lw, hw);
    assert hw[..0] == [] && ew[..0] == [];
  }

  lemma CommitJoined(L: Layout, d: Disk, v: Disk, lh: seq<nat>)
    requires CommitStart(L, d, v, lh) && lh != []
    ensures var lw := LogWrites(L, v, lh);
            var head := HeadBlock(v[L.Head()], lh);
            var iw := HomeWrites(L, v, lh);
            && Apply(d, CommitWrites(L, d, v, lh)) ==
               Apply(Apply(d, lw)[L.Head() := head], iw)[L.Head() := HeadBlock(head, [])]
            && Apply(v, CommitWrites(L, d, v, lh)) ==
               Apply(Apply(v, lw)[L.Head() := head], iw)[L.Head() := HeadBlock(head, [])]
  {
    var lw := LogWrites(L, v, lh);
    var head := HeadBlock(v[L.Head()], lh);
    var hw := [Write(L.Head(), head)];
    var iw := HomeWrites(L, v, lh);
    var ew := [Write(L.Head(), HeadBlock(head, []))];
    FourParts(d, lw, hw, iw, ew);
    FourParts(v, lw, hw, iw, ew);
  }

  lemma Regroup(p: seq<Write>, a: seq<Write>, b: seq<Write>, c: seq<Write>, e: seq<Write>)
    ensures p + a + b + c + e == p + (a + b + c + e)
  {
  }

  /** The two halves of commit() put together, from the state between them. */
  lemma CommitComposed(L: Layout, d: Disk, v: Disk, lh: seq<nat>, d2: Disk, v2: Disk, i0: seq<Write>)
    requires CommitStart(L, d, v, lh) && lh != []
    requires d2 == Apply(d, LogWrites(L, v, lh))[L.Head() := HeadBlock(v[L.Head()], lh)]
    requires v2 == Apply(v, LogWrites(L, v, lh))[L.Head() := HeadBlock(v[L.Head()], lh)]
    ensures d2.Keys == d.Keys && v2.Keys == d.Keys && Loggable(L, d2, lh)
    ensures forall i: nat :: i + 1 < L.size ==> L.Slot(i) in d2
    ensures forall i: nat :: i < |lh| ==> L.Slot(i) in v2
    ensures var iw := InstallWrites(L, v2, lh);
            var none := HeadBlock(v2[L.Head()], []);
            && i0 + LogWrites(L, v, lh) + [Write(L.Head(), HeadBlock(v[L.Head()], lh))] + iw + [Write(L.Head(), none)]
               == i0 + CommitWrites(L, d, v, lh)
            && Apply(d2, iw)[L.Head() := none] == Apply(d, CommitWrites(L, d, v, lh))
            && Apply(v2, iw)[L.Head() := none] == Apply(v, CommitWrites(L, d, v, lh))
  {
    CommitParts(L, d, v, lh);
    CommitJoined(L, d, v, lh);
    var head := HeadBlock(v[L.Head()], lh);
    Regroup(i0, LogWrites(L, v, lh), [Write(L.Head(), head)], HomeWrites(L, v, lh),
      [Write(L.Head(), HeadBlock(head, []))]);
  }

  /** A block that is neither in the log nor logged is not written. */
  lemma AsideKept(L: Layout, d: Disk, v: Disk, lh: seq<nat>, held: map<nat, Addr>, a: Addr)
    requires CommitStart(L, d, v, lh) && Apart(L, lh, held) && a in held.Values && a in d
    ensures var ws := CommitWrites(L, d, v, lh);
            && a in Apply(d, ws) && Apply(d, ws)[a] == d[a]
            && a in Apply(v, ws) && Apply(v, ws)[a] == v[a]
  {
    var ws := CommitWrites(L, d, v, lh);
    ApplyOther(d, ws, a);
    ApplyOther(v, ws, a);
  }

  lemma LoggableKeys(L: Layout, d: Disk, v: Disk, lh: seq<nat>)
    requires Loggable(L, d, lh) && v.Keys == d.Keys
    ensures Loggable(L, v, lh)
  {
  }

  lemma RecoveryJoined(L: Layout, d: Disk, i0: seq<Write>)
    requires WellFormed(L, d)
    ensures var iw := InstallWrites(L, d, DiskLog(L, d));
            var none := HeadBlock(d[L.Head()], []);
            && i0 + iw + [Write(L.Head(), none)] == i0 + RecoveryWrites(L, d)
            && Apply(d, iw)[L.Head() := none] == Recovered(L, d)
  {
    var iw := InstallWrites(L, d, DiskLog(L, d));
    var ew := [Write(L.Head(), HeadBlock(d[L.Head()], []))];
    ApplyConcat(d, iw, ew);
    assert ew[..0] == [];
  }

  class LogFile {
    const bc: Bcache
    const L: Layout
    const block: array<nat>   // log.lh.block
    var n: nat                // log.lh.n
    var outstanding: int
    var committing: bool

    ghost function Entries(): (lh: seq<nat>)
      reads this`n, block
      requires n <= block.Length
    {
      block[..n]
    }

    ghost predicate Shape()
      reads this`n, block, bc, bc.buf, bc.next, bc.prev
    {
      && bc.Valid()
      && block.Length == LOGSIZE && n <= LOGSIZE
      && block != bc.next && block != bc.prev
    }

    /** Between transactions and while one is being gathered: the log on disk is empty and
        exactly the logged blocks are pinned in the cache. */
    ghost predicate Valid()
      reads this`n, block, bc, bc.buf, bc.next, bc.prev
    {
      && Shape()
      && WellFormed(L, bc.disk) && DiskLog(L, bc.disk) == []
      && Loggable(L, bc.disk, Entries()) && Distinct(Entries())
      && bc.pinned == Homes(L, Entries())
    }

    /** So log.lh.n is the number of pinned blocks. */
    lemma PinnedCount()
      requires Valid()
      ensures |bc.pinned| == n
    {
      HomesCount(L, Entries());
    }

    /** A bread that does not sleep; None is the panic for want of buffers. */
    method TryRead(a: Addr, ghost h: map<nat, Addr>) returns (r: Option<nat>)
      requires bc.Valid() && bc.held == h && a in bc.disk && a !in h.Values
      modifies bc`disk, bc`issued, bc`held, bc.buf
      ensures bc.Valid() && bc.disk == old(bc.disk) && bc.issued == old(bc.issued)
      ensures r.None? <==> a !in bc.pinned && |bc.pinned + h.Values| >= bc.nbuf
      ensures r.None? ==> bc.held == h
      ensures r.Some? ==> r.value !in h && bc.held == h[r.value := a]
    {
      AllTaken(bc.buf[..], bc.disk, bc.view, bc.pinned, bc.held);
      var b := bc.Bread(a);
      return if b.Got? then Some(b.i) else None;
    }

    method ReadOne(a: Addr, ghost h: map<nat, Addr>) returns (i: nat)
      requires bc.Valid() && bc.held == h && a in bc.disk && a !in h.Values
      requires a in bc.pinned || |bc.pinned| + |h.Values| < bc.nbuf
      modifies bc`disk, bc`issued, bc`held, bc.buf
      ensures bc.Valid() && bc.disk == old(bc.disk) && bc.issued == old(bc.issued)
      ensures i !in h && bc.held == h[i := a]
    {
      UnionSize(bc.pinned, h.Values);
      var r := TryRead(a, h);
      return r.value;
    }

    /** A held block changed and written out. */
    method Overwrite(i: nat, data: Block, ghost at: Addr)
      requires bc.Valid() && i in bc.held && bc.held[i] == at && at in bc.disk
      modifies bc`disk, bc`issued, bc`view, bc`pinned, bc.buf
      ensures bc.Valid() && bc.pinned == old(bc.pinned) - {at}
      ensures bc.issued == old(bc.issued) + [Write(at, data)]
      ensures bc.disk == old(bc.disk)[at := data] && bc.view == old(bc.view)[at := data]
    {
      bc.Store(i, data);
      bc.Bwrite(i);
    }

    /** The header block with n and the block numbers filled in. */
    method FillHead(prior: Block) returns (hb: Block)
      requires block.Length == LOGSIZE && n <= LOGSIZE && HeaderFits(Entries())
      ensures hb == HeadBlock(prior, Entries())
    {
      hb := PutWord(prior, 0, n);
      var i := 0;
      assert block[..0] == [];
      while i < n
        invariant 0 <= i <= n
        invariant hb == PutWords(PutWord(prior, 0, n), block[..i])
      {
        assert block[..i + 1][..i] == block[..i];
        assert block[i] == Entries()[i];
        hb := PutWord(hb, 1 + i, block[i]);
        i := i + 1;
      }
    }

    /** write_head: one block write that announces the entries in memory. */
    method WriteHead()
      requires Shape() && HeaderFits(Entries()) && L.Head() in bc.disk
      requires L.Head() !in bc.pinned && L.Head() !in bc.held.Values && |bc.pinned| + |bc.held.Values| < bc.nbuf
      modifies bc, bc.buf, bc.next, bc.prev
      ensures Shape() && bc.held == old(bc.held) && bc.pinned == old(bc.pinned)
      ensures L.Head() in old(bc.view)
      ensures var w := Write(L.Head(), HeadBlock(old(bc.view)[L.Head()], Entries()));
              && bc.issued == old(bc.issued) + [w]
              && bc.disk == old(bc.disk)[w.at := w.data]
              && bc.view == old(bc.view)[w.at := w.data]
    {
      ghost var h := bc.held;
      var b := ReadOne(L.Head(), h);
      OneMore(h, b, L.Head());
      var hb := bc.Load(b);
      hb := FillHead(hb);
      Overwrite(b, hb, L.Head());
      bc.Brelse(b);
    }

    /** How far install_trans has come after `tail` blocks. */
    ghost predicate Installing(tail: nat, d0: Disk, v0: Disk, p0: set<Addr>, i0: seq<Write>, h0: map<nat, Addr>)
      reads this`n, block, bc, bc.buf, bc.next, bc.prev
    {
      && Shape() && bc.held == h0 && tail <= n
      && v0.Keys == d0.Keys && bc.disk.Keys == d0.Keys
      && Loggable(L, d0, Entries())
      && (forall i: nat :: i + 1 < L.size ==> L.Slot(i) in d0)
      && bc.pinned == p0 - Homes(L, Entries()[..tail])
      && var ws := InstallWrites(L, v0, Entries())[..tail];
         bc.issued == i0 + ws && bc.disk == Apply(d0, ws) && bc.view == Apply(v0, ws)
    }

    method ReadTwo(a: Addr, b: Addr, ghost h: map<nat, Addr>) returns (i: nat, j: nat)
      requires bc.Valid() && bc.held == h && a in bc.disk && b in bc.disk && a != b
      requires a !in h.Values && b !in h.Values && |bc.pinned| + |h.Values| < bc.nbuf
      requires b in bc.pinned || |bc.pinned| + |h.Values| + 1 < bc.nbuf
      modifies bc`disk, bc`issued, bc`held, bc.buf
      ensures bc.Valid() && bc.disk == old(bc.disk) && bc.issued == old(bc.issued)
      ensures i !in h && j !in h && i != j && bc.held == h[i := a][j := b]
    {
      i := ReadOne(a, h);
      OneMore(h, i, a);
      j := ReadOne(b, h[i := a]);
    }

    /** The body shared by both copy loops: memmove, bwrite the copy, release both. */
    method Transfer(src: nat, dst: nat, ghost from: Addr, ghost to: Addr, ghost h: map<nat, Addr>)
      requires bc.Valid() && src !in h && dst !in h && src != dst && from != to && bc.held == h[src := from][dst := to]
      requires from in bc.disk && to in bc.disk && from in bc.view
      requires from in bc.pinned || bc.view[from] == bc.disk[from]
      modifies bc, bc.buf, bc.next, bc.prev
      ensures bc.Valid() && bc.held == h && bc.pinned == old(bc.pinned) - {to}
      ensures bc.issued == old(bc.issued) + [Write(to, old(bc.view)[from])]
      ensures bc.disk == old(bc.disk)[to := old(bc.view)[from]] && bc.view == old(bc.view)[to := old(bc.view)[from]]
    {
      TwoMore(h, src, from, dst, to);
      var data := bc.Load(src);
      Overwrite(dst, data, to);
      bc.Brelse(src);
      bc.Brelse(dst);
    }

    /** One turn of install_trans's loop. */
    method CopyHome(slot: Addr, home: Addr)
      requires bc.Valid() && |bc.pinned| + |bc.held.Values| < bc.nbuf
      requires slot in bc.disk && slot !in bc.pinned && home in bc.disk && slot != home
      requires slot !in bc.held.Values && home !in bc.held.Values
      requires home in bc.pinned || |bc.pinned| + |bc.held.Values| + 1 < bc.nbuf
      modifies bc, bc.buf, bc.next, bc.prev
      ensures bc.Valid() && bc.held == old(bc.held) && bc.pinned == old(bc.pinned) - {home}
      ensures slot in old(bc.view)
      ensures bc.issued == old(bc.issued + [Write(home, bc.view[slot])])
      ensures bc.disk == old(bc.disk[home := bc.view[slot]]) && bc.view == old(bc.view[home := bc.view[slot]])
    {
      ghost var h := bc.held;
      UnpinnedIsDisk(bc.buf[..], bc.disk, bc.view, bc.pinned, h, slot);
      var lbuf, dbuf := ReadTwo(slot, home, h);
      Transfer(lbuf, dbuf, slot, home, h);
    }

    method InstallOne(tail: nat, ghost next: nat, ghost d0: Disk, ghost v0: Disk, ghost p0: set<Addr>,
                      ghost i0: seq<Write>, ghost h0: map<nat, Addr>)
      requires tail < n && next == tail + 1 && Installing(tail, d0, v0, p0, i0, h0)
      requires Apart(L, Entries(), h0) && Roomy(L, Entries(), p0, bc.nbuf - |h0.Values|)
      modifies bc, bc.buf, bc.next, bc.prev
      ensures n == old(n) && Entries() == old(Entries()) && Installing(next, d0, v0, p0, i0, h0)
    {
      ghost var lh := Entries();
      InstallTurn(L, d0, v0, lh, tail, i0);
      RoomyTurn(L, lh, p0, bc.nbuf - |h0.Values|, tail);
      assert block[tail] == lh[tail];
      assert L.Home(lh[tail]) in Homes(L, lh);
      NotHeld(L, lh, h0, L.Slot(tail));
      NotHeld(L, lh, h0, L.Home(lh[tail]));
      CopyHome(L.Slot(tail), L.Home(block[tail]));
      assert Entries() == lh;
    }

    /** install_trans: each log slot onto its home block, which is unpinned by the write. */
    method InstallTrans()
      requires Shape() && Apart(L, Entries(), bc.held) && Loggable(L, bc.disk, Entries())
      requires forall i: nat :: i + 1 < L.size ==> L.Slot(i) in bc.disk
      requires Roomy(L, Entries(), bc.pinned, bc.nbuf - |bc.held.Values|)
      modifies bc, bc.buf, bc.next, bc.prev
      ensures Shape() && bc.held == old(bc.held) && bc.pinned == {}
      ensures forall i: nat :: i < n ==> L.Slot(i) in old(bc.view)
      ensures var ws := InstallWrites(L, old(bc.view), Entries());
              && bc.issued == old(bc.issued) + ws
              && bc.disk == Apply(old(bc.disk), ws)
              && bc.view == Apply(old(bc.view), ws)
    {
      ghost var v0, d0, i0, p0, h0 := bc.view, bc.disk, bc.issued, bc.pinned, bc.held;
      ghost var lh := Entries();
      ghost var ws := InstallWrites(L, v0, lh);
      var tail := 0;
      assert ws[..0] == [] && lh[..0] == [];
      while tail < n
        invariant 0 <= tail <= n && lh == Entries()
        invariant Installing(tail, d0, v0, p0, i0, h0)
      {
        var next := tail + 1;
        InstallOne(tail, next, d0, v0, p0, i0, h0);
        tail := next;
      }
      assert ws[..tail] == ws && lh[..tail] == lh;
    }

    /** The second half: install, then erase the transaction from the log. */
    method Finish()
      requires Shape() && Apart(L, Entries(), bc.held) && Loggable(L, bc.disk, Entries()) && L.Head() in bc.disk
      requires L.size > 0 && forall i: nat :: i + 1 < L.size ==> L.Slot(i) in bc.disk
      requires Roomy(L, Entries(), bc.pinned, bc.nbuf - |bc.held.Values|)
      modifies this`n, bc, bc.buf, bc.next, bc.prev
      ensures Shape() && bc.held == old(bc.held) && bc.pinned == {} && n == 0
      ensures forall i: nat :: i < |old(Entries())| ==> L.Slot(i) in old(bc.view)
      ensures L.Head() in old(bc.view)
      ensures var iw := InstallWrites(L, old(bc.view), old(Entries()));
              var none := HeadBlock(old(bc.view)[L.Head()], []);
              && bc.issued == old(bc.issued) + iw + [Write(L.Head(), none)]
              && bc.disk == Apply(old(bc.disk), iw)[L.Head() := none]
              && bc.view == Apply(old(bc.view), iw)[L.Head() := none]
    {
      ghost var d, v, lh := bc.disk, bc.view, Entries();
      ghost var iw := InstallWrites(L, v, lh);
      InstallKeepsLog(L, v, iw, L.Head());
      InstallKeepsLog(L, d, iw, L.Head());
      NotHeld(L, lh, bc.held, L.Head());
      InstallTrans();
      n := 0;
      assert Entries() == [];
      WriteHead();
    }

    method TakeEntries(hb: Block)
      requires block.Length == LOGSIZE && GetWord(hb, 0) <= LOGSIZE
      modifies this`n, block
      ensures n <= LOGSIZE && Entries() == ReadHead(hb)
    {
      n := GetWord(hb, 0);
      var i := 0;
      while i < n
        invariant 0 <= i <= n == GetWord(hb, 0)
        invariant forall j :: 0 <= j < i ==> block[j] == GetWord(hb, 1 + j)
      {
        block[i] := GetWord(hb, 1 + i);
        i := i + 1;
      }
    }

    /** read_head: the header block into memory. */
    method ReadHeader()
      requires Shape() && WellFormed(L, bc.disk) && bc.view == bc.disk
      requires bc.pinned == {} && bc.held == map[] && bc.nbuf >= 1
      modifies this`n, block, bc, bc.buf, bc.next, bc.prev
      ensures bc.disk == old(bc.disk) && bc.view == old(bc.view) && bc.issued == old(bc.issued)
      ensures Shape() && Entries() == DiskLog(L, bc.disk)
      ensures bc.pinned == {} && bc.held == map[]
    {
      assert bc.pinned + bc.held.Values == {};
      var b := bc.Bread(L.Head());
      var hb := bc.Load(b.i);
      TakeEntries(hb);
      bc.Brelse(b.i);
    }

    /** recover_from_log: exactly the writes of RecoveryWrites, after which the log is empty. */
    method RecoverFromLog()
      requires Shape() && WellFormed(L, bc.disk) && bc.pinned == {} && bc.held == map[] && bc.nbuf >= 2
      modifies this`n, block, bc, bc.buf, bc.next, bc.prev
      ensures Valid() && n == 0 && bc.held == map[]
      ensures bc.issued == old(bc.issued) + RecoveryWrites(L, old(bc.disk))
      ensures bc.disk == Recovered(L, old(bc.disk))
    {
      ghost var d, i0 := bc.disk, bc.issued;
      forall a | a in d ensures bc.view[a] == d[a] {
        UnpinnedIsDisk(bc.buf[..], bc.disk, bc.view, bc.pinned, bc.held, a);
      }
      assert bc.view == d;
      ReadHeader();
      RecoveredShape(L, d);
      RecoveryJoined(L, d, i0);
      Finish();
      assert Entries() == [] && Homes(L, []) == {};
    }

    /** initlog: note where the log is, then recover. */
    constructor (bc: Bcache, L: Layout)
      requires bc.Valid() && WellFormed(L, bc.disk) && bc.pinned == {} && bc.held == map[] && bc.nbuf >= 2
      modifies bc, bc.buf, bc.next, bc.prev
      ensures Valid() && this.bc == bc && this.L == L && fresh(block)
      ensures n == 0 && outstanding == 0 && !committing
      ensures bc.held == map[] && bc.issued == old(bc.issued) + RecoveryWrites(L, old(bc.disk))
      ensures bc.disk == Recovered(L, old(bc.disk))
    {
      this.bc := bc;
      this.L := L;
      block := new nat[LOGSIZE](_ => 0);
      n := 0;
      outstanding := 0;
      committing := false;
      new;
      RecoverFromLog();
    }

    /** The part of log_write that lists the block. */
    method Enter(bno: nat)
      requires block.Length == LOGSIZE && n < LOGSIZE && Distinct(Entries())
      modifies this`n, block
      ensures n <= LOGSIZE && Entries() == Absorb(old(Entries()), bno) && Distinct(Entries())
      ensures forall j :: 0 <= j < old(n) ==> block[j] == old(block[j])
      ensures n == if bno in old(block[..n]) then old(n) else old(n) + 1
      ensures n > old(n) ==> block[old(n)] == bno
    {
      ghost var lh := Entries();
      var k := 0;
      while k < n
        invariant 0 <= k <= n
        invariant forall j :: 0 <= j < k ==> block[j] != bno
      {
        if block[k] == bno {
          break;
        }
        k := k + 1;
      }
      assert k < n ==> lh[k] == bno;
      block[k] := bno;
      if k == n {
        n := n + 1;
      }
      assert Entries() == Absorb(lh, bno);
      Absorbed(lh, bno);
    }

    /** log_write: the block is listed once, its buffer is pinned, the view is unchanged.
        The capacity test comes before absorption, so a full log refuses even a listed block. */
    method LogWrite(i: nat) returns (r: LogOutcome)
      requires Valid() && i in bc.held
      requires bc.held[i].dev == L.dev && bc.held[i].bno < WORDMAX && !L.InLog(bc.held[i])
      modifies this`n, block, bc`pinned, bc.buf
      ensures Valid()
      ensures r == if old(n) >= LOGSIZE || old(n) >= L.size - 1 then TooBig
                   else if outstanding < 1 then OutsideTransaction else Logged
      ensures Entries() == if r.Logged? then Absorb(old(Entries()), bc.held[i].bno) else old(Entries())
      ensures forall j :: 0 <= j < old(n) ==> block[j] == old(block[j])
      ensures n == if r.Logged? && bc.held[i].bno !in old(block[..n]) then old(n) + 1 else old(n)
      ensures n > old(n) ==> block[old(n)] == bc.held[i].bno
      ensures bc.pinned == if r.Logged? then old(bc.pinned) + {bc.held[i]} else old(bc.pinned)
    {
      if n >= LOGSIZE || n >= L.size - 1 {
        return TooBig;
      }
      if outstanding < 1 {
        return OutsideTransaction;
      }
      ghost var lh := Entries();
      assert HandleOk(bc.buf[..], bc.held, i) && BufOk(bc.buf[..], bc.disk, bc.view, bc.pinned, bc.held, i);
      var bno := bc.buf[i].at.bno;
      Enter(bno);
      HomesAbsorb(L, lh, bno);
      assert L.Home(bno) in bc.disk;
      bc.Pin(i);
      return Logged;
    }

    /** One turn of write_log's loop: the home block is pinned, so it is in the cache; false is the
        panic for want of a buffer for the log's block. */
    method CopyToLog(slot: Addr, home: Addr) returns (ok: bool)
      requires bc.Valid() && slot in bc.disk && slot !in bc.pinned && home in bc.disk && home in bc.pinned
      requires slot !in bc.held.Values && home !in bc.held.Values
      modifies bc, bc.buf, bc.next, bc.prev
      ensures bc.Valid() && bc.held == old(bc.held) && bc.pinned == old(bc.pinned)
      ensures ok <==> |old(bc.pinned + bc.held.Values)| < bc.nbuf
      ensures !ok ==> bc.disk == old(bc.disk) && bc.view == old(bc.view) && bc.issued == old(bc.issued)
      ensures home in old(bc.view)
      ensures ok ==>
        && bc.issued == old(bc.issued + [Write(slot, bc.view[home])])
        && bc.disk == old(bc.disk[slot := bc.view[home]]) && bc.view == old(bc.view[slot := bc.view[home]])
    {
      ghost var h := bc.held;
      var to := TryRead(slot, h);
      if to.None? {
        return false;
      }
      OneMore(h, to.value, slot);
      var from := ReadOne(home, h[to.value := slot]);
      Swapped(h, to.value, slot, from, home);
      Transfer(from, to.value, home, slot, h);
      return true;
    }

    /** How far write_log has come after `tail` blocks. */
    ghost predicate Logging(lh: seq<nat>, tail: nat, d0: Disk, v0: Disk, i0: seq<Write>, h0: map<nat, Addr>)
      reads this`n, block, bc, bc.buf, bc.next, bc.prev
    {
      && Shape() && bc.held == h0 && tail <= n
      && block[..n] == lh && WellFormed(L, d0) && Loggable(L, d0, lh) && v0.Keys == d0.Keys && bc.disk.Keys == d0.Keys
      && bc.pinned == Homes(L, lh)
      && var ws := LogWrites(L, v0, lh)[..tail];
         bc.issued == i0 + ws && bc.disk == Apply(d0, ws) && bc.view == Apply(v0, ws)
    }

    method LogOne(ghost lh: seq<nat>, tail: nat, ghost next: nat, ghost d0: Disk, ghost v0: Disk, ghost i0: seq<Write>,
                  ghost h0: map<nat, Addr>) returns (ok: bool)
      requires Logging(lh, tail, d0, v0, i0, h0) && tail < n && next == tail + 1 && Apart(L, lh, h0)
      modifies bc, bc.buf, bc.next, bc.prev
      ensures n == old(n) && (ok <==> |Homes(L, lh)| + |h0.Values| < bc.nbuf)
      ensures Logging(lh, if ok then next else tail, d0, v0, i0, h0)
    {
      LogTurn(L, d0, v0, lh, tail, i0);
      ApartSize(L, lh, h0);
      assert block[tail] == lh[tail];
      assert L.Home(lh[tail]) in bc.pinned;
      NotHeld(L, lh, h0, L.Slot(tail));
      NotHeld(L, lh, h0, L.Home(lh[tail]));
      ok := CopyToLog(L.Slot(tail), L.Home(block[tail]));
    }

    /** write_log: each logged block, as the cache shows it, into the next log slot.  It panics,
        before it has written anything, exactly if the logged blocks and those held by others
        leave no buffer. */
    method WriteLog() returns (ok: bool)
      requires Valid() && Apart(L, Entries(), bc.held)
      modifies bc, bc.buf, bc.next, bc.prev
      ensures Shape() && bc.held == old(bc.held) && bc.pinned == old(bc.pinned)
      ensures Loggable(L, old(bc.view), Entries())
      ensures ok <==> n == 0 || |old(bc.pinned)| + |old(bc.held).Values| < bc.nbuf
      ensures !ok ==> bc.issued == old(bc.issued) && bc.disk == old(bc.disk) && bc.view == old(bc.view)
      ensures ok ==>
        var ws := LogWrites(L, old(bc.view), Entries());
        bc.issued == old(bc.issued) + ws && bc.disk == Apply(old(bc.disk), ws) && bc.view == Apply(old(bc.view), ws)
    {
      ghost var v0, d0, i0, h0 := bc.view, bc.disk, bc.issued, bc.held;
      ghost var lh := Entries();
      LoggableKeys(L, d0, v0, lh);
      ApartSize(L, lh, h0);
      ghost var ws := LogWrites(L, v0, lh);
      var tail := 0;
      assert ws[..0] == [];
      while tail < n
        invariant 0 <= tail <= n && Logging(lh, tail, d0, v0, i0, h0)
        invariant tail > 0 ==> |Homes(L, lh)| + |h0.Values| < bc.nbuf
      {
        var next := tail + 1;
        ok := LogOne(lh, tail, next, d0, v0, i0, h0);
        if !ok {
          return;
        }
        tail := next;
      }
      assert ws[..tail] == ws;
      return true;
    }

    /** Other processes hold buffers only to read, of blocks that commit() leaves alone. */
    ghost predicate OnlyReaders()
      reads this`n, block, bc
      requires n <= block.Length
    {
      && Apart(L, Entries(), bc.held)
      && forall a :: a in bc.held.Values ==> a in bc.disk && a in bc.view && bc.view[a] == bc.disk[a]
    }

    /** Then the cache differs from the disk only where it is logged. */
    lemma ReadyToCommit()
      requires Valid() && OnlyReaders()
      ensures CommitStart(L, bc.disk, bc.view, Entries())
    {
      forall a | a in bc.disk && bc.view[a] != bc.disk[a]
        ensures a.dev == L.dev && a.bno in Entries()
      {
        if a !in bc.pinned {
          UnpinnedIsDisk(bc.buf[..], bc.disk, bc.view, bc.pinned, bc.held, a);
        }
      }
    }

    /** The first half of commit(), up to and including the write that commits. */
    method Announce() returns (ok: bool)
      requires Valid() && Apart(L, Entries(), bc.held)
      requires CommitStart(L, bc.disk, bc.view, Entries()) && Entries() != []
      modifies bc, bc.buf, bc.next, bc.prev
      ensures Shape() && bc.held == old(bc.held) && bc.pinned == old(bc.pinned)
      ensures ok <==> |old(bc.pinned)| + |old(bc.held).Values| < bc.nbuf
      ensures !ok ==> bc.issued == old(bc.issued) && bc.disk == old(bc.disk) && bc.view == old(bc.view)
      ensures ok ==>
        var lw := LogWrites(L, old(bc.view), Entries());
        var head := HeadBlock(old(bc.view)[L.Head()], Entries());
        && bc.issued == old(bc.issued) + lw + [Write(L.Head(), head)]
        && bc.disk == Apply(old(bc.disk), lw)[L.Head() := head]
        && bc.view == Apply(old(bc.view), lw)[L.Head() := head]
    {
      ghost var d, v, lh := bc.disk, bc.view, Entries();
      CommitParts(L, d, v, lh);
      ok := WriteLog();
      if ok {
        assert Entries() == lh;
        assert L.Head() !in bc.pinned;
        NotHeld(L, lh, bc.held, L.Head());
        WriteHead();
      }
    }

    /** commit() with something to commit. */
    method CommitSome() returns (ok: bool)
      requires Valid() && Apart(L, Entries(), bc.held)
      requires CommitStart(L, bc.disk, bc.view, Entries()) && Entries() != []
      modifies this`n, bc, bc.buf, bc.next, bc.prev
      ensures Shape() && bc.held == old(bc.held) && (ok <==> |old(bc.pinned)| + |old(bc.held).Values| < bc.nbuf)
      ensures !ok ==> n == old(n) && bc.pinned == old(bc.pinned)
      ensures !ok ==> bc.issued == old(bc.issued) && bc.disk == old(bc.disk) && bc.view == old(bc.view)
      ensures ok ==>
        var ws := CommitWrites(L, old(bc.disk), old(bc.view), old(Entries()));
        && n == 0 && bc.pinned == {} && bc.issued == old(bc.issued) + ws
        && bc.disk == Apply(old(bc.disk), ws) && bc.view == Apply(old(bc.view), ws)
    {
      ghost var d, v, lh, i0 := bc.disk, bc.view, Entries(), bc.issued;
      ok := Announce();
      assert Entries() == lh;
      if ok {
        CommitComposed(L, d, v, lh, bc.disk, bc.view, i0);
        assert Roomy(L, lh, bc.pinned, bc.nbuf - |bc.held.Values|);
        Finish();
      }
    }

    /** commit(): exactly the writes of CommitWrites, in that order; afterwards nothing is
        pinned, the log is empty and the file system's blocks are as the cache showed them.  It
        panics exactly if the logged blocks and the blocks that readers hold use up all buffers;
        then nothing has been written. */
    method Commit() returns (ok: bool)
      requires Valid() && OnlyReaders()
      modifies this`n, bc, bc.buf, bc.next, bc.prev
      ensures Valid() && OnlyReaders() && bc.held == old(bc.held)
      ensures ok <==> old(n) == 0 || old(n) + |old(bc.held).Values| < bc.nbuf
      ensures !ok ==> n == old(n) && bc.issued == old(bc.issued) && bc.disk == old(bc.disk) && bc.view == old(bc.view)
      ensures CommitStart(L, old(bc.disk), old(bc.view), old(Entries()))
      ensures ok ==>
        var ws := CommitWrites(L, old(bc.disk), old(bc.view), old(Entries()));
        && n == 0 && bc.pinned == {} && bc.issued == old(bc.issued) + ws && bc.disk == Apply(old(bc.disk), ws)
      ensures ok ==> HomeOf(L, bc.disk) == HomeOf(L, old(bc.view))
    {
      ReadyToCommit();
      CommittedDisk(L, bc.disk, bc.view, Entries());
      ghost var d, v, lh := bc.disk, bc.view, Entries();
      PinnedCount();
      ok := true;
      if n > 0 {
        ok := CommitSome();
        if !ok {
          assert Entries() == lh;
          return;
        }
        forall a | a in bc.held.Values
          ensures a in bc.disk && a in bc.view && bc.view[a] == bc.disk[a]
        {
          AsideKept(L, d, v, lh, bc.held, a);
        }
      }
      assert Entries() == [] && Homes(L, []) == {};
    }

    /** One turn of begin_op's loop: admitted, or to sleep until the log has changed. */
    method BeginOp() returns (admitted: bool)
      modifies this`outstanding
      ensures admitted <==>
        !committing && n + (old(outstanding) + 1) * LogAdmission.MAXOPBLOCKS <= LOGSIZE
      ensures outstanding == if admitted then old(outstanding) + 1 else old(outstanding)
    {
      if committing {
        admitted := false;
      } else if n + (outstanding + 1) * LogAdmission.MAXOPBLOCKS > LOGSIZE {
        admitted := false;
      } else {
        outstanding := outstanding + 1;
        admitted := true;
      }
    }

    /** end_op: group commit.  Only the last operation out writes to the disk, and then all
        that the operations since the last commit have done becomes durable.  False is the panic
        of commit(). */
    method EndOp() returns (ok: bool)
      requires Valid() && outstanding >= 1 && !committing
      requires outstanding == 1 ==> OnlyReaders()
      modifies this`n, this`outstanding, this`committing, bc, bc.buf, bc.next, bc.prev
      ensures Valid() && outstanding == old(outstanding) - 1 && bc.held == old(bc.held) && (committing <==> !ok)
      ensures ok <==>
        outstanding > 0 || old(n) == 0 || old(n) + |old(bc.held).Values| < bc.nbuf
      ensures outstanding > 0 || !ok ==>
        bc.disk == old(bc.disk) && bc.view == old(bc.view) && bc.issued == old(bc.issued) && n == old(n)
      ensures outstanding == 0 && ok ==>
        && n == 0 && OnlyReaders() && CommitStart(L, old(bc.disk), old(bc.view), old(Entries()))
        && bc.issued == old(bc.issued) + CommitWrites(L, old(bc.disk), old(bc.view), old(Entries()))
        && HomeOf(L, bc.disk) == HomeOf(L, old(bc.view))
    {
      outstanding := outstanding - 1;
      if outstanding > 0 {
        return true;
      }
      committing := true;
      ok := Commit();
      if ok {
        committing := false;
      }
    }
  }
}
