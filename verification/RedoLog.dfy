/** The on-disk redo log of kern/log.c as sequences of block writes, and what a crash
    between any two of those writes leaves behind.

    `CommitWrites` and `RecoveryWrites` are the block writes that commit() and
    recover_from_log() issue; module `Log` proves that the methods issue exactly these. */
module RedoLog {
  import opened Blocks

  const LOGSIZE: nat := 30

  /** Where the log lives: log.dev, log.start and log.size. */
  datatype Layout = Layout(dev: nat, start: nat, size: nat) {
    function Head(): Addr { Addr(dev, start) }
    function Slot(i: nat): Addr { Addr(dev, start + i + 1) }
    function Home(bno: nat): Addr { Addr(dev, bno) }
    predicate InLog(a: Addr) { a.dev == dev && start <= a.bno < start + size }
  }

  // ----- the header block -----

  function PutWords(b: Block, ws: seq<nat>): (r: Block)
    requires |ws| < WORDS && forall i :: 0 <= i < |ws| ==> ws[i] < WORDMAX
  {
    if ws == [] then b
    else PutWord(PutWords(b, ws[..|ws| - 1]), |ws|, ws[|ws| - 1])
  }

  predicate HeaderFits(lh: seq<nat>)
  {
    |lh| <= LOGSIZE && forall i :: 0 <= i < |lh| ==> lh[i] < WORDMAX
  }

  /** write_head: n in word 0, the block numbers after it, the rest of the block kept. */
  function HeadBlock(prior: Block, lh: seq<nat>): (r: Block)
    requires HeaderFits(lh)
  {
    PutWords(PutWord(prior, 0, |lh|), lh)
  }

  /** read_head: the block numbers a header block announces. */
  function ReadHead(b: Block): (lh: seq<nat>)
    requires GetWord(b, 0) <= LOGSIZE
  {
    seq(GetWord(b, 0), i requires 0 <= i < GetWord(b, 0) => GetWord(b, 1 + i))
  }

  lemma {:induction false} PutWordsGet(b: Block, ws: seq<nat>, j: nat)
    requires |ws| < WORDS && forall i :: 0 <= i < |ws| ==> ws[i] < WORDMAX
    requires j < WORDS
    ensures GetWord(PutWords(b, ws), j) == if 1 <= j <= |ws| then ws[j - 1] else GetWord(b, j)
  {
    if ws != [] {
      var m := |ws| - 1;
      PutWordsGet(b, ws[..m], j);
      GetPutWord(PutWords(b, ws[..m]), |ws|, ws[m], j);
    }
  }

  /** Writing a header and reading it back, whatever the block held before. */
  lemma HeaderRoundTrip(prior: Block, lh: seq<nat>)
    requires HeaderFits(lh)
    ensures GetWord(HeadBlock(prior, lh), 0) == |lh|
    ensures ReadHead(HeadBlock(prior, lh)) == lh
  {
    var b := PutWord(prior, 0, |lh|);
    GetPutWord(prior, 0, |lh|, 0);
    PutWordsGet(b, lh, 0);
    forall j | 0 <= j < |lh|
      ensures ReadHead(HeadBlock(prior, lh))[j] == lh[j]
    {
      PutWordsGet(b, lh, 1 + j);
    }
  }

  // ----- well-formed disks -----

  /** A log of block numbers that fits the log area and names blocks outside it. */
  predicate Loggable(L: Layout, d: Disk, lh: seq<nat>)
  {
    && HeaderFits(lh)
    && |lh| < L.size
    && forall i :: 0 <= i < |lh| ==> L.Home(lh[i]) in d && !L.InLog(L.Home(lh[i]))
  }

  predicate WellFormed(L: Layout, d: Disk)
  {
    && L.size > 0
    && (forall i: nat :: i + 1 < L.size ==> L.Slot(i) in d)
    && L.Head() in d
    && GetWord(d[L.Head()], 0) <= LOGSIZE
    && Loggable(L, d, ReadHead(d[L.Head()]))
  }

  function DiskLog(L: Layout, d: Disk): (lh: seq<nat>)
    requires WellFormed(L, d)
  {
    ReadHead(d[L.Head()])
  }

  /** Everything outside the log area: what the file system sees. */
  function HomeOf(L: Layout, d: Disk): (r: Disk)
  {
    map a | a in d && !L.InLog(a) :: d[a]
  }

  // ----- the writes of commit and of recovery -----

  function LogWrites(L: Layout, view: Disk, lh: seq<nat>): (ws: seq<Write>)
    requires forall i :: 0 <= i < |lh| ==> L.Home(lh[i]) in view
  {
    seq(|lh|, i requires 0 <= i < |lh| => Write(L.Slot(i), view[L.Home(lh[i])]))
  }

  /** install_trans reads each logged block from its log slot. */
  function InstallWrites(L: Layout, d: Disk, lh: seq<nat>): (ws: seq<Write>)
    requires forall i: nat :: i < |lh| ==> L.Slot(i) in d
  {
    seq(|lh|, i requires 0 <= i < |lh| => Write(L.Home(lh[i]), d[L.Slot(i)]))
  }

  /** The same installs, named by what the cache held when the log was written. */
  function HomeWrites(L: Layout, view: Disk, lh: seq<nat>): (ws: seq<Write>)
    requires forall i :: 0 <= i < |lh| ==> L.Home(lh[i]) in view
  {
    seq(|lh|, i requires 0 <= i < |lh| => Write(L.Home(lh[i]), view[L.Home(lh[i])]))
  }

  function CommitWrites(L: Layout, d: Disk, view: Disk, lh: seq<nat>): (ws: seq<Write>)
    requires WellFormed(L, d) && Loggable(L, d, lh) && view.Keys == d.Keys
  {
    if lh == [] then []
    else
      var head := HeadBlock(view[L.Head()], lh);
      LogWrites(L, view, lh) + [Write(L.Head(), head)]
      + HomeWrites(L, view, lh)
      + [Write(L.Head(), HeadBlock(head, []))]
  }

  function RecoveryWrites(L: Layout, d: Disk): (ws: seq<Write>)
    requires WellFormed(L, d)
  {
    InstallWrites(L, d, DiskLog(L, d)) + [Write(L.Head(), HeadBlock(d[L.Head()], []))]
  }

  /** The disk once a recovery that is not interrupted has finished. */
  function Recovered(L: Layout, d: Disk): (r: Disk)
    requires WellFormed(L, d)
  {
    Apply(d, RecoveryWrites(L, d))
  }

  /** The words of a header: the count, the block numbers, and the rest as it was. */
  lemma HeaderWords(prior: Block, lh: seq<nat>, j: nat)
    requires HeaderFits(lh) && j < WORDS
    ensures GetWord(HeadBlock(prior, lh), j) ==
            if j == 0 then |lh| else if j <= |lh| then lh[j - 1] else GetWord(prior, j)
  {
    GetPutWord(prior, 0, |lh|, j);
    PutWordsGet(PutWord(prior, 0, |lh|), lh, j);
  }

  lemma InFour(a: seq<Write>, h: Write, b: seq<Write>, e: Write, i: nat)
    requires i < |a| == |b|
    ensures var ws := a + [h] + b + [e];
            ws[i] == a[i] && ws[|a|] == h && ws[|a| + 1 + i] == b[i] && ws[|a| + 1 + |b|] == e
  {
  }

  /** The 2n + 2 block writes of commit(), address by address: the n blocks into the log, the header
      with n, the n blocks to where they belong, the header with 0. */
  lemma CommitSpelled(L: Layout, d: Disk, view: Disk, lh: seq<nat>, i: nat)
    requires WellFormed(L, d) && Loggable(L, d, lh) && view.Keys == d.Keys && i < |lh|
    ensures var ws, n := CommitWrites(L, d, view, lh), |lh|;
            && |ws| == 2 * n + 2 && Addr(L.dev, lh[i]) in view
            && ws[i] == Write(Addr(L.dev, L.start + 1 + i), view[Addr(L.dev, lh[i])])
            && ws[n].at == Addr(L.dev, L.start)
            && GetWord(ws[n].data, 0) == n && GetWord(ws[n].data, 1 + i) == lh[i]
            && ws[n + 1 + i] == Write(Addr(L.dev, lh[i]), view[Addr(L.dev, lh[i])])
            && ws[2 * n + 1].at == Addr(L.dev, L.start) && GetWord(ws[2 * n + 1].data, 0) == 0
  {
    var prior := view[L.Head()];
    var head := HeadBlock(prior, lh);
    assert GetWord(head, 0) == |lh| && GetWord(head, 1 + i) == lh[i] by {
      HeaderWords(prior, lh, 0);
      HeaderWords(prior, lh, 1 + i);
    }
    assert GetWord(HeadBlock(head, []), 0) == 0 by {
      HeaderWords(head, [], 0);
    }
    var a, b := LogWrites(L, view, lh), HomeWrites(L, view, lh);
    var h, e := Write(L.Head(), head), Write(L.Head(), HeadBlock(head, []));
    assert CommitWrites(L, d, view, lh) == a + [h] + b + [e] && L.Home(lh[i]) in view;
    InFour(a, h, b, e, i);
  }

  /** The n + 1 block writes of recovery, told by the words of the header that is on the disk. */
  lemma RecoverySpelled(L: Layout, d: Disk, i: nat)
    requires WellFormed(L, d)
    ensures var ws, head := RecoveryWrites(L, d), d[Addr(L.dev, L.start)];
            var n := GetWord(head, 0);
            && |ws| == n + 1 && n < L.size && n <= LOGSIZE
            && (i < n ==>
                  && Addr(L.dev, L.start + 1 + i) in d
                  && ws[i] == Write(Addr(L.dev, GetWord(head, 1 + i)), d[Addr(L.dev, L.start + 1 + i)]))
            && ws[n].at == Addr(L.dev, L.start) && GetWord(ws[n].data, 0) == 0
  {
    HeaderWords(d[L.Head()], [], 0);
    var lh := DiskLog(L, d);
    assert |lh| == GetWord(d[L.Head()], 0) < L.size;
    if i < |lh| {
      assert L.Slot(i) in d;
    }
  }

  // ----- recovery -----

  lemma InstallKeepsLog(L: Layout, d: Disk, ws: seq<Write>, a: Addr)
    requires forall i :: 0 <= i < |ws| ==> !L.InLog(ws[i].at)
    requires L.InLog(a) && a in d
    ensures a in Apply(d, ws) && Apply(d, ws)[a] == d[a]
  {
    ApplyOther(d, ws, a);
  }

  lemma WellFormedAfter(L: Layout, d: Disk, e: Disk)
    requires WellFormed(L, d) && e.Keys == d.Keys && e[L.Head()] == d[L.Head()]
    ensures WellFormed(L, e) && DiskLog(L, e) == DiskLog(L, d)
  {
  }

  lemma SameInstall(L: Layout, d: Disk, e: Disk, lh: seq<nat>)
    requires forall i: nat :: i < |lh| ==> L.Slot(i) in d && L.Slot(i) in e && d[L.Slot(i)] == e[L.Slot(i)]
    ensures InstallWrites(L, d, lh) == InstallWrites(L, e, lh)
  {
  }

  lemma HeadNotHome(L: Layout, d: Disk, b: Block)
    requires L.size > 0 && L.Head() in d
    ensures HomeOf(L, d[L.Head() := b]) == HomeOf(L, d)
  {
  }

  /** A full recovery leaves an empty log and, at home, the logged blocks over the old ones. */
  lemma RecoveredShape(L: Layout, d: Disk)
    requires WellFormed(L, d)
    ensures WellFormed(L, Recovered(L, d)) && DiskLog(L, Recovered(L, d)) == []
    ensures Recovered(L, d).Keys == d.Keys
    ensures HomeOf(L, Recovered(L, d)) == HomeOf(L, Apply(d, InstallWrites(L, d, DiskLog(L, d))))
  {
    var ins := InstallWrites(L, d, DiskLog(L, d));
    var e := Apply(d, ins);
    ApplyKeys(d, ins);
    ApplyConcat(d, ins, [Write(L.Head(), HeadBlock(d[L.Head()], []))]);
    assert Recovered(L, d) == e[L.Head() := HeadBlock(d[L.Head()], [])];
    HeadNotHome(L, e, HeadBlock(d[L.Head()], []));
    HeaderRoundTrip(d[L.Head()], []);
  }

  /** A disk with an empty log is already recovered. */
  lemma EmptyLogRecovered(L: Layout, d: Disk)
    requires WellFormed(L, d) && DiskLog(L, d) == []
    ensures HomeOf(L, Recovered(L, d)) == HomeOf(L, d)
  {
    RecoveredShape(L, d);
  }

  /** A crash after any number of the recovery's own writes: the next recovery
      brings the same home blocks. */
  lemma RecoveryCrash(L: Layout, d: Disk, k: nat)
    requires WellFormed(L, d) && k <= |RecoveryWrites(L, d)|
    ensures var e := Apply(d, RecoveryWrites(L, d)[..k]);
            && WellFormed(L, e) && e.Keys == d.Keys
            && HomeOf(L, Recovered(L, e)) == HomeOf(L, Recovered(L, d))
  {
    var ws := RecoveryWrites(L, d);
    var lh := DiskLog(L, d);
    var ins := InstallWrites(L, d, lh);
    var e := Apply(d, ws[..k]);
    if k == |ws| {
      assert ws[..k] == ws;
      RecoveredShape(L, d);
      EmptyLogRecovered(L, e);
    } else {
      assert ws[..k] == ins[..k];
      ApplyKeys(d, ins[..k]);
      forall a | L.InLog(a) && a in d ensures e[a] == d[a] { InstallKeepsLog(L, d, ins[..k], a); }
      WellFormedAfter(L, d, e);
      SameInstall(L, d, e, lh);
      ApplyRestart(d, ins, k);
      RecoveredShape(L, d);
      RecoveredShape(L, e);
    }
  }

  /** Any number of crashes during recovery: `ks[i]` is how many block writes the i-th
      attempt got out before the machine went down again. */
  ghost predicate CrashedRecoveries(L: Layout, d: Disk, ks: seq<nat>, e: Disk)
    decreases |ks|
  {
    && WellFormed(L, d)
    && if ks == [] then e == d
       else
         && ks[0] <= |RecoveryWrites(L, d)|
         && CrashedRecoveries(L, Apply(d, RecoveryWrites(L, d)[..ks[0]]), ks[1..], e)
  }

  lemma {:induction false} RepeatedCrashes(L: Layout, d: Disk, ks: seq<nat>, e: Disk)
    requires CrashedRecoveries(L, d, ks, e)
    ensures WellFormed(L, e) && e.Keys == d.Keys
    ensures HomeOf(L, Recovered(L, e)) == HomeOf(L, Recovered(L, d))
    decreases |ks|
  {
    if ks != [] {
      RecoveryCrash(L, d, ks[0]);
      RepeatedCrashes(L, Apply(d, RecoveryWrites(L, d)[..ks[0]]), ks[1..], e);
    }
  }

  // ----- commit -----

  /** The cached view differs from the disk only at logged home blocks. */
  predicate OnlyLoggedDiffer(L: Layout, d: Disk, view: Disk, lh: seq<nat>)
  {
    && view.Keys == d.Keys
    && forall a :: a in d && view[a] != d[a] ==> a.dev == L.dev && a.bno in lh
  }

  /** The state in which commit() starts: empty log on disk, changes pinned in the cache. */
  predicate CommitStart(L: Layout, d: Disk, view: Disk, lh: seq<nat>)
  {
    && WellFormed(L, d) && DiskLog(L, d) == []
    && Loggable(L, d, lh) && OnlyLoggedDiffer(L, d, view, lh)
  }

  lemma PrefixOfCommit(L: Layout, d: Disk, view: Disk, lh: seq<nat>, k: nat)
    requires CommitStart(L, d, view, lh) && lh != [] && k <= |CommitWrites(L, d, view, lh)|
    ensures |CommitWrites(L, d, view, lh)| == 2 * |lh| + 2
    ensures var n := |lh|;
            var lw := LogWrites(L, view, lh);
            var head := HeadBlock(view[L.Head()], lh);
            var hw := Write(L.Head(), head);
            var iw := HomeWrites(L, view, lh);
            CommitWrites(L, d, view, lh)[..k] ==
            if k <= n then lw[..k]
            else if k <= 2 * n + 1 then (lw + [hw]) + iw[..k - n - 1]
            else ((lw + [hw]) + iw) + [Write(L.Head(), HeadBlock(head, []))]
  {
  }

  /** Before the header write: only log slots have been touched. */
  lemma CrashBeforeHead(L: Layout, d: Disk, view: Disk, lh: seq<nat>, k: nat)
    requires CommitStart(L, d, view, lh) && k <= |lh|
    ensures var e := Apply(d, LogWrites(L, view, lh)[..k]);
            && WellFormed(L, e) && e.Keys == d.Keys
            && HomeOf(L, Recovered(L, e)) == HomeOf(L, d)
  {
    var lw := LogWrites(L, view, lh)[..k];
    var e := Apply(d, lw);
    assert forall i :: 0 <= i < k ==> lw[i].at == L.Slot(i);
    ApplyKeys(d, lw);
    ApplyOther(d, lw, L.Head());
    WellFormedAfter(L, d, e);
    EmptyLogRecovered(L, e);
    forall a | a in d && !L.InLog(a)
      ensures e[a] == d[a]
    {
      ApplyOther(d, lw, a);
    }
  }

  lemma LogSlotsHold(L: Layout, d: Disk, view: Disk, lh: seq<nat>, i: nat)
    requires i < |lh| && forall j :: 0 <= j < |lh| ==> L.Home(lh[j]) in view
    ensures L.Slot(i) in Apply(d, LogWrites(L, view, lh))
    ensures Apply(d, LogWrites(L, view, lh))[L.Slot(i)] == view[L.Home(lh[i])]
  {
    var lw := LogWrites(L, view, lh);
    assert lw == lw[..i + 1] + lw[i + 1..];
    ApplyConcat(d, lw[..i + 1], lw[i + 1..]);
    assert lw[..i + 1][..i] == lw[..i];
    assert lw[i].at == L.Slot(i);
    assert Apply(d, lw[..i + 1])[L.Slot(i)] == view[L.Home(lh[i])];
    ApplyOther(Apply(d, lw[..i + 1]), lw[i + 1..], L.Slot(i));
  }

  lemma HeadWritten(L: Layout, d: Disk, view: Disk, lh: seq<nat>)
    requires CommitStart(L, d, view, lh)
    ensures var e := Apply(d, LogWrites(L, view, lh) + [Write(L.Head(), HeadBlock(view[L.Head()], lh))]);
            && e.Keys == d.Keys && e[L.Head()] == HeadBlock(view[L.Head()], lh)
            && (forall i: nat :: i < |lh| ==> e[L.Slot(i)] == view[L.Home(lh[i])])
            && (forall a :: a in d && !L.InLog(a) ==> e[a] == d[a])
  {
    var lw := LogWrites(L, view, lh);
    var hw := [Write(L.Head(), HeadBlock(view[L.Head()], lh))];
    assert forall i :: 0 <= i < |lw| ==> lw[i].at == L.Slot(i);
    ApplyKeys(d, lw);
    ApplyConcat(d, lw, hw);
    assert Apply(d, lw + hw) == Apply(d, lw)[L.Head() := hw[0].data];
    forall i: nat | i < |lh|
      ensures Apply(d, lw)[L.Slot(i)] == view[L.Home(lh[i])]
    {
      LogSlotsHold(L, d, view, lh, i);
    }
    forall a | a in d && !L.InLog(a)
      ensures Apply(d, lw)[a] == d[a]
    {
      ApplyOther(d, lw, a);
    }
  }

  /** Once the header is out, installing any number of blocks keeps log and header. */
  lemma InstalledSome(L: Layout, d2: Disk, view: Disk, lh: seq<nat>, j: nat)
    requires L.size > 0 && L.Head() in d2 && L.Head() in view && Loggable(L, d2, lh) && d2.Keys == view.Keys
    requires forall i: nat :: i + 1 < L.size ==> L.Slot(i) in d2
    requires d2[L.Head()] == HeadBlock(view[L.Head()], lh)
    requires forall i: nat :: i < |lh| ==> d2[L.Slot(i)] == view[L.Home(lh[i])]
    requires j <= |lh|
    ensures var e := Apply(d2, HomeWrites(L, view, lh)[..j]);
            && WellFormed(L, e) && e.Keys == d2.Keys && DiskLog(L, e) == lh
            && e[L.Head()] == HeadBlock(view[L.Head()], lh)
            && InstallWrites(L, e, lh) == HomeWrites(L, view, lh)
  {
    var iw := HomeWrites(L, view, lh);
    var e := Apply(d2, iw[..j]);
    ApplyKeys(d2, iw[..j]);
    HeaderRoundTrip(view[L.Head()], lh);
    InstallKeepsLog(L, d2, iw[..j], L.Head());
    forall i: nat | i < |lh|
      ensures e[L.Slot(i)] == view[L.Home(lh[i])]
    {
      InstallKeepsLog(L, d2, iw[..j], L.Slot(i));
    }
  }

  lemma InstallOnto(L: Layout, d2: Disk, view: Disk, lh: seq<nat>, iw: seq<Write>)
    requires d2.Keys == view.Keys && |iw| == |lh|
    requires forall i :: 0 <= i < |iw| ==>
      L.Home(lh[i]) in view && iw[i] == Write(L.Home(lh[i]), view[L.Home(lh[i])])
    requires forall a :: a in d2 && !L.InLog(a) && view[a] != d2[a] ==> a.dev == L.dev && a.bno in lh
    ensures HomeOf(L, Apply(d2, iw)) == HomeOf(L, view)
  {
    ApplyKeys(d2, iw);
    forall a | a in d2 && !L.InLog(a)
      ensures Apply(d2, iw)[a] == view[a]
    {
      if a.dev == L.dev && a.bno in lh {
        var i :| 0 <= i < |lh| && lh[i] == a.bno;
        assert iw[i].at == a;
        ApplySnapshot(d2, view, iw, a);
      } else {
        ApplyOther(d2, iw, a);
      }
    }
  }

  lemma InstallAll(L: Layout, d2: Disk, e: Disk, view: Disk, lh: seq<nat>, iw: seq<Write>, j: nat)
    requires d2.Keys == view.Keys && |iw| == |lh| && j <= |iw|
    requires forall i :: 0 <= i < |iw| ==>
      L.Home(lh[i]) in view && iw[i] == Write(L.Home(lh[i]), view[L.Home(lh[i])])
    requires forall a :: a in d2 && !L.InLog(a) && view[a] != d2[a] ==> a.dev == L.dev && a.bno in lh
    requires e == Apply(d2, iw[..j])
    ensures HomeOf(L, Apply(e, iw)) == HomeOf(L, view)
  {
    ApplyRestart(d2, iw, j);
    InstallOnto(L, d2, view, lh, iw);
  }

  lemma InstalledHome(L: Layout, d2: Disk, view: Disk, lh: seq<nat>, j: nat)
    requires d2.Keys == view.Keys && j <= |lh| && forall i :: 0 <= i < |lh| ==> L.Home(lh[i]) in view
    requires forall a :: a in d2 && !L.InLog(a) && view[a] != d2[a] ==> a.dev == L.dev && a.bno in lh
    requires var e := Apply(d2, HomeWrites(L, view, lh)[..j]);
             WellFormed(L, e) && DiskLog(L, e) == lh && InstallWrites(L, e, lh) == HomeWrites(L, view, lh)
    ensures var e := Apply(d2, HomeWrites(L, view, lh)[..j]);
            && HomeOf(L, Recovered(L, e)) == HomeOf(L, view)
            && (j == |lh| ==> HomeOf(L, e) == HomeOf(L, view))
  {
    var iw := HomeWrites(L, view, lh);
    var e := Apply(d2, iw[..j]);
    RecoveredShape(L, e);
    InstallAll(L, d2, e, view, lh, iw, j);
    if j == |lh| {
      assert iw[..j] == iw;
      InstallOnto(L, d2, view, lh, iw);
    }
  }

  /** From the header write on: recovery reinstalls every logged block. */
  lemma CrashAfterHead(L: Layout, d: Disk, view: Disk, lh: seq<nat>, j: nat)
    requires CommitStart(L, d, view, lh) && j <= |lh|
    ensures var e := Apply(d, LogWrites(L, view, lh) + [Write(L.Head(), HeadBlock(view[L.Head()], lh))]
                              + HomeWrites(L, view, lh)[..j]);
            && WellFormed(L, e) && e.Keys == d.Keys && DiskLog(L, e) == lh
            && e[L.Head()] == HeadBlock(view[L.Head()], lh)
            && HomeOf(L, Recovered(L, e)) == HomeOf(L, view)
            && (j == |lh| ==> HomeOf(L, e) == HomeOf(L, view))
  {
    var lw := LogWrites(L, view, lh);
    var hw := [Write(L.Head(), HeadBlock(view[L.Head()], lh))];
    var iw := HomeWrites(L, view, lh);
    var d2 := Apply(d, lw + hw);
    HeadWritten(L, d, view, lh);
    ApplyConcat(d, lw + hw, iw[..j]);
    InstalledSome(L, d2, view, lh, j);
    InstalledHome(L, d2, view, lh, j);
  }

  lemma CrashAfterErase(L: Layout, d: Disk, view: Disk, lh: seq<nat>)
    requires CommitStart(L, d, view, lh) && lh != []
    ensures var e := Apply(d, CommitWrites(L, d, view, lh));
            && WellFormed(L, e) && e.Keys == d.Keys && DiskLog(L, e) == []
            && HomeOf(L, e) == HomeOf(L, view) == HomeOf(L, Recovered(L, e))
  {
    var n := |lh|;
    var ws := CommitWrites(L, d, view, lh);
    CrashAfterHead(L, d, view, lh, n);
    var head := HeadBlock(view[L.Head()], lh);
    var iw := HomeWrites(L, view, lh);
    var most := LogWrites(L, view, lh) + [Write(L.Head(), head)] + iw;
    assert iw[..n] == iw;
    var last := Write(L.Head(), HeadBlock(head, []));
    assert ws == most + [last];
    ApplyConcat(d, most, [last]);
    var e := Apply(d, most)[L.Head() := last.data];
    assert Apply(d, ws) == e;
    HeadNotHome(L, Apply(d, most), last.data);
    HeaderRoundTrip(head, []);
    EmptyLogRecovered(L, e);
  }

  /** Crash atomicity: stop after any k of commit's block writes, and recovery gives all
      of the transaction if the header write is among the k, none of it otherwise. */
  lemma CommitCrash(L: Layout, d: Disk, view: Disk, lh: seq<nat>, k: nat)
    requires CommitStart(L, d, view, lh) && k <= |CommitWrites(L, d, view, lh)|
    ensures var e := Apply(d, CommitWrites(L, d, view, lh)[..k]);
            && WellFormed(L, e) && e.Keys == d.Keys
            && HomeOf(L, Recovered(L, e)) == (if k <= |lh| then HomeOf(L, d) else HomeOf(L, view))
            && (k == |CommitWrites(L, d, view, lh)| ==>
                  DiskLog(L, e) == [] && HomeOf(L, e) == HomeOf(L, view))
  {
    var ws := CommitWrites(L, d, view, lh);
    if lh == [] {
      assert ws[..k] == [];
      EmptyLogRecovered(L, d);
    } else {
      PrefixOfCommit(L, d, view, lh, k);
      if k <= |lh| {
        CrashBeforeHead(L, d, view, lh, k);
      } else if k <= 2 * |lh| + 1 {
        CrashAfterHead(L, d, view, lh, k - |lh| - 1);
      } else {
        CrashAfterErase(L, d, view, lh);
      }
    }
  }

  /** The whole story: a commit cut off after k writes, then any number of recoveries each
      cut off in turn, then one that completes. */
  lemma CrashAtomicity(L: Layout, d: Disk, view: Disk, lh: seq<nat>, k: nat, ks: seq<nat>, e: Disk)
    requires CommitStart(L, d, view, lh) && k <= |CommitWrites(L, d, view, lh)|
    requires CrashedRecoveries(L, Apply(d, CommitWrites(L, d, view, lh)[..k]), ks, e)
    ensures WellFormed(L, e) && WellFormed(L, Recovered(L, e)) && DiskLog(L, Recovered(L, e)) == []
    ensures HomeOf(L, Recovered(L, e)) == if k <= |lh| then HomeOf(L, d) else HomeOf(L, view)
  {
    CommitCrash(L, d, view, lh, k);
    RepeatedCrashes(L, Apply(d, CommitWrites(L, d, view, lh)[..k]), ks, e);
    RecoveredShape(L, e);
  }
}
