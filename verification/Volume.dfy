/** A file system on a disk: inodes packed into blocks (include/xv6/fs.h), the blocks outside
    the log as module `Files` has them, and what a crash during a commit leaves of the files. */
module Volume {
  import opened Blocks
  import opened Bitmap
  import opened RedoLog
  import opened Files

  // ----- inodes in blocks -----

  /** Inodes per block.  Each has 16 words: the size is word 2, the addresses begin at word 4. */
  const IPB: nat := 16

  function WordsAt(b: Block, at: nat, n: nat): (ws: seq<nat>)
    requires at + n <= WORDS
    ensures |ws| == n && forall j :: 0 <= j < n ==> ws[j] == GetWord(b, at + j)
  {
    if n == 0 then [] else WordsAt(b, at, n - 1) + [GetWord(b, at + n - 1)]
  }

  function AddrsIn(b: Block, k: nat): (a: Addrs)
    requires k < IPB
  {
    WordsAt(b, 16 * k + 4, NDIRECT + 1)
  }

  function InodeIn(b: Block, k: nat): (n: Inode)
    requires k < IPB
  {
    Inode(GetWord(b, 16 * k + 2), AddrsIn(b, k))
  }

  function PutWordsAt(b: Block, at: nat, ws: seq<nat>): (r: Block)
    requires at + |ws| <= WORDS && forall i :: 0 <= i < |ws| ==> ws[i] < WORDMAX
  {
    if ws == [] then b
    else PutWord(PutWordsAt(b, at, ws[..|ws| - 1]), at + |ws| - 1, ws[|ws| - 1])
  }

  lemma {:induction false} GetPutWordsAt(b: Block, at: nat, ws: seq<nat>, j: nat)
    requires at + |ws| <= WORDS && j < WORDS && forall i :: 0 <= i < |ws| ==> ws[i] < WORDMAX
    ensures GetWord(PutWordsAt(b, at, ws), j) == if at <= j < at + |ws| then ws[j - at] else GetWord(b, j)
  {
    if ws != [] {
      var m := |ws| - 1;
      GetPutWordsAt(b, at, ws[..m], j);
      GetPutWord(PutWordsAt(b, at, ws[..m]), at + m, ws[m], j);
    }
  }

  predicate Storable(n: Inode)
  {
    n.size < WORDMAX && forall j :: 0 <= j < NDIRECT + 1 ==> n.addrs[j] < WORDMAX
  }

  /** iupdate: the size and the addresses into place k of the block; the rest of it is kept. */
  function PutInode(b: Block, k: nat, n: Inode): (r: Block)
    requires k < IPB && Storable(n)
  {
    PutWordsAt(PutWord(b, 16 * k + 2, n.size), 16 * k + 4, n.addrs)
  }

  lemma GetPutSize(b: Block, k: nat, n: Inode, k': nat, w: nat)
    requires k < IPB && k' < IPB && Storable(n) && w == 16 * k' + 2
    ensures GetWord(PutInode(b, k, n), w) == if k == k' then n.size else GetWord(b, w)
  {
    var at := 16 * k + 4;
    var u := PutWord(b, 16 * k + 2, n.size);
    assert !(at <= w < at + 12);
    GetPutWordsAt(u, at, n.addrs, w);
    GetPutWord(b, 16 * k + 2, n.size, w);
  }

  lemma GetPutAddr(b: Block, k: nat, n: Inode, k': nat, j: nat, w: nat)
    requires k < IPB && k' < IPB && Storable(n) && j < 12 && w == 16 * k' + 4 + j
    ensures GetWord(PutInode(b, k, n), w) == if k == k' then n.addrs[j] else GetWord(b, w)
  {
    var at := 16 * k + 4;
    var u := PutWord(b, 16 * k + 2, n.size);
    assert at <= w < at + 12 <==> k == k';
    GetPutWordsAt(u, at, n.addrs, w);
    GetPutWord(b, 16 * k + 2, n.size, w);
  }

  /** An inode is read back as it was put, and its neighbours as they were. */
  lemma GetPutInode(b: Block, k: nat, n: Inode, k': nat)
    requires k < IPB && k' < IPB && Storable(n)
    ensures InodeIn(PutInode(b, k, n), k') == if k == k' then n else InodeIn(b, k')
  {
    GetPutSize(b, k, n, k', 16 * k' + 2);
    var r := PutInode(b, k, n);
    forall j: nat | j < 12
      ensures AddrsIn(r, k')[j] == if k == k' then n.addrs[j] else AddrsIn(b, k')[j]
    {
      GetPutAddr(b, k, n, k', j, 16 * k' + 4 + j);
    }
    assert AddrsIn(r, k') == if k == k' then n.addrs else AddrsIn(b, k');
  }

  // ----- the file system that a disk holds -----

  datatype Volume = Volume(L: Layout, g: Geometry, inodestart: nat, ninodes: nat) {
    predicate InodeBlock(b: nat)
    {
      inodestart <= b < inodestart + (ninodes + IPB - 1) / IPB
    }

    predicate OfInodes(a: Addr)
    {
      a.dev == L.dev && InodeBlock(a.bno)
    }

    /** Blocks that are neither of the log nor of inodes. */
    predicate Plain(a: Addr)
    {
      a.dev == L.dev && a.bno < g.size && !L.InLog(a) && !InodeBlock(a.bno)
    }

    function IBlock(i: nat): Addr
    {
      Addr(L.dev, inodestart + i / IPB)
    }

    /** Log, inodes and bit map lie apart, before the data. */
    ghost predicate Ok()
    {
      && g.Ok() && L.start + L.size <= g.nmeta && inodestart + (ninodes + IPB - 1) / IPB <= g.nmeta
      && (forall b: nat :: InodeBlock(b) ==> !L.InLog(Addr(L.dev, b)))
      && (forall b: nat :: b < g.size ==> Plain(Addr(L.dev, g.bmapstart + b / BPB)))
    }

    /** All its blocks are on the disk. */
    ghost predicate On(d: Disk)
    {
      forall b: nat :: b < g.size ==> Addr(L.dev, b) in d
    }
  }

  lemma InodePlace(V: Volume, i: nat)
    requires V.Ok() && i < V.ninodes
    ensures V.InodeBlock(V.IBlock(i).bno) && V.IBlock(i).bno < V.g.size && !V.L.InLog(V.IBlock(i))
  {
    assert i / IPB <= (V.ninodes - 1) / IPB;
    assert V.InodeBlock(V.IBlock(i).bno);
  }

  ghost function InodeOn(V: Volume, d: Disk, i: nat): (n: Inode)
    requires V.Ok() && V.On(d) && i < V.ninodes
  {
    InodePlace(V, i);
    InodeIn(d[V.IBlock(i)], i % IPB)
  }

  ghost function InodesOf(V: Volume, d: Disk): (ino: seq<Inode>)
    requires V.Ok() && V.On(d)
  {
    seq(V.ninodes, i requires 0 <= i < V.ninodes => InodeOn(V, d, i))
  }

  /** Where inode i is on the disk, byte by byte: 64 bytes from 64 * (i % 16) on in block i / 16 of the
      inodes; the size from byte 8 on and address j from byte 16 + 4 * j on, low byte first. */
  lemma InodeBytes(V: Volume, d: Disk, i: nat, j: nat)
    requires V.Ok() && V.On(d) && i < V.ninodes && j < 12
    ensures var at, o := Addr(V.L.dev, V.inodestart + i / 16), 64 * (i % 16);
            && at in d
            && var n := InodesOf(V, d)[i];
               && n.size % 0x100 == d[at][o + 8] && n.size / 0x100 % 0x100 == d[at][o + 9]
               && n.size / 0x1_0000 % 0x100 == d[at][o + 10] && n.size / 0x100_0000 == d[at][o + 11]
               && n.addrs[j] % 0x100 == d[at][o + 16 + 4 * j]
               && n.addrs[j] / 0x100 % 0x100 == d[at][o + 17 + 4 * j]
               && n.addrs[j] / 0x1_0000 % 0x100 == d[at][o + 18 + 4 * j]
               && n.addrs[j] / 0x100_0000 == d[at][o + 19 + 4 * j]
  {
    InodePlace(V, i);
    var b, k := d[V.IBlock(i)], i % 16;
    assert InodesOf(V, d)[i] == InodeIn(b, k);
    WordBytes(b, 16 * k + 2);
    WordBytes(b, 16 * k + 4 + j);
  }

  ghost function BlocksOf(V: Volume, d: Disk): (blk: seq<Block>)
    requires V.On(d)
  {
    seq(V.g.size, b requires 0 <= b < V.g.size =>
      if V.Plain(Addr(V.L.dev, b)) then d[Addr(V.L.dev, b)] else Zeros())
  }

  /** The contents of all the files. */
  ghost function Contents(g: Geometry, ino: seq<Inode>, blk: seq<Block>, owner: map<nat, Owner>)
    : (files: seq<seq<Byte>>)
    requires FsInv(g, ino, blk, owner)
    ensures |files| == |ino|
  {
    seq(|ino|, i requires 0 <= i < |ino| => assert SizeOk(ino, blk, i); Content(ino, blk, i))
  }

  /** The disk holds a file system in order. */
  ghost predicate Sound(V: Volume, d: Disk, owner: map<nat, Owner>)
  {
    V.Ok() && V.On(d) && FsInv(V.g, InodesOf(V, d), BlocksOf(V, d), owner)
  }

  ghost function FilesOn(V: Volume, d: Disk, owner: map<nat, Owner>): (files: seq<seq<Byte>>)
    requires Sound(V, d, owner)
    ensures |files| == V.ninodes
  {
    Contents(V.g, InodesOf(V, d), BlocksOf(V, d), owner)
  }

  /** The disk holds these files, and is in order. */
  ghost predicate HasFiles(V: Volume, r: Disk, owner: map<nat, Owner>, files: seq<seq<Byte>>)
  {
    Sound(V, r, owner) && FilesOn(V, r, owner) == files
  }

  /** It depends on nothing in the log area. */
  lemma SameHomes(V: Volume, d: Disk, e: Disk)
    requires V.Ok() && V.On(d) && e.Keys == d.Keys && HomeOf(V.L, e) == HomeOf(V.L, d)
    ensures V.On(e) && InodesOf(V, e) == InodesOf(V, d) && BlocksOf(V, e) == BlocksOf(V, d)
  {
    forall a | a in d && !V.L.InLog(a) ensures e[a] == d[a] {
      assert a in HomeOf(V.L, d) && a in HomeOf(V.L, e);
      assert HomeOf(V.L, d)[a] == d[a] && HomeOf(V.L, e)[a] == e[a];
    }
    forall i: nat | i < V.ninodes ensures InodeOn(V, e, i) == InodeOn(V, d, i) {
      InodePlace(V, i);
    }
  }

  // ----- storing a file system -----

  lemma SamePlace(i: nat, j: nat)
    requires i / IPB == j / IPB && i % IPB == j % IPB
    ensures i == j
  {
  }

  /** iupdate of inode k: every other inode and every other block stays. */
  lemma UpdateInode(V: Volume, d: Disk, k: nat, n: Inode) returns (e: Disk)
    requires V.Ok() && V.On(d) && k < V.ninodes && Storable(n)
    ensures e.Keys == d.Keys
    ensures forall i: nat :: i < V.ninodes ==> InodeOn(V, e, i) == if i == k then n else InodeOn(V, d, i)
    ensures forall a :: a in d && !V.OfInodes(a) ==> e[a] == d[a]
  {
    InodePlace(V, k);
    var at := V.IBlock(k);
    e := d[at := PutInode(d[at], k % IPB, n)];
    forall i: nat | i < V.ninodes
      ensures InodeOn(V, e, i) == if i == k then n else InodeOn(V, d, i)
    {
      InodePlace(V, i);
      GetPutInode(d[at], k % IPB, n, i % IPB);
      if i / IPB == k / IPB && i % IPB == k % IPB {
        SamePlace(i, k);
      }
    }
  }

  lemma {:induction false} UpdateInodes(V: Volume, d: Disk, ino: seq<Inode>, m: nat) returns (e: Disk)
    requires V.Ok() && V.On(d) && m <= |ino| == V.ninodes && forall i :: 0 <= i < |ino| ==> Storable(ino[i])
    ensures e.Keys == d.Keys
    ensures forall i: nat :: i < V.ninodes ==> InodeOn(V, e, i) == if i < m then ino[i] else InodeOn(V, d, i)
    ensures forall a :: a in d && !V.OfInodes(a) ==> e[a] == d[a]
  {
    if m == 0 {
      e := d;
    } else {
      var u := UpdateInodes(V, d, ino, m - 1);
      e := UpdateInode(V, u, m - 1, ino[m - 1]);
    }
  }

  /** What the cache shows over disk d when these inodes and blocks have been stored and
      nothing else has been changed. */
  ghost predicate Stored(V: Volume, d: Disk, ino: seq<Inode>, blk: seq<Block>, e: Disk)
    requires V.Ok() && V.On(d) && |ino| == V.ninodes && |blk| == V.g.size
  {
    && e.Keys == d.Keys && InodesOf(V, e) == ino
    && forall a :: a in d && !V.OfInodes(a) ==> e[a] == if V.Plain(a) then blk[a.bno] else d[a]
  }

  lemma AllStorable(g: Geometry, ino: seq<Inode>, blk: seq<Block>, owner: map<nat, Owner>, i: nat)
    requires FsInv(g, ino, blk, owner) && i < |ino|
    ensures Storable(ino[i])
  {
    assert SizeOk(ino, blk, i);
    forall j | 0 <= j < NDIRECT + 1 ensures ino[i].addrs[j] < WORDMAX {
      var s := if j < NDIRECT then Direct(j) else Table;
      if ino[i].addrs[j] != 0 {
        SlotInRange(g, ino, blk, owner, i, s);
      }
    }
  }

  /** Every file system in order can be stored. */
  lemma Store(V: Volume, d: Disk, ino: seq<Inode>, blk: seq<Block>, owner: map<nat, Owner>) returns (e: Disk)
    requires V.Ok() && V.On(d) && |ino| == V.ninodes && FsInv(V.g, ino, blk, owner)
    ensures Stored(V, d, ino, blk, e)
  {
    forall i | 0 <= i < |ino| ensures Storable(ino[i]) {
      AllStorable(V.g, ino, blk, owner, i);
    }
    var u := UpdateInodes(V, d, ino, V.ninodes);
    e := map a | a in u :: if V.Plain(a) then blk[a.bno] else u[a];
    forall i: nat | i < V.ninodes ensures InodeOn(V, e, i) == ino[i] {
      InodePlace(V, i);
    }
  }

  /** Blocks as module `Files` has them, but for the log and the inodes. */
  ghost function Blanked(V: Volume, blk: seq<Block>): (r: seq<Block>)
    requires |blk| == V.g.size
  {
    seq(|blk|, b requires 0 <= b < |blk| => if V.Plain(Addr(V.L.dev, b)) then blk[b] else Zeros())
  }

  // ----- the log and the inodes are nobody's data -----

  lemma DataPlain(V: Volume, b: nat)
    requires V.Ok() && V.g.nmeta <= b < V.g.size
    ensures V.Plain(Addr(V.L.dev, b))
  {
  }

  lemma SlotBlanked(V: Volume, ino: seq<Inode>, blk: seq<Block>, owner: map<nat, Owner>, i: nat, s: Slot)
    requires V.Ok() && Owned(V.g, ino, blk, owner) && i < |ino| && SlotIn(s)
    ensures SlotVal(ino, Blanked(V, blk), i, s) == SlotVal(ino, blk, i, s)
  {
    var t := SlotVal(ino, blk, i, Table);
    if t != 0 {
      SlotInRange(V.g, ino, blk, owner, i, Table);
      DataPlain(V, t);
    }
  }

  lemma OwnedBlanked(V: Volume, ino: seq<Inode>, blk: seq<Block>, owner: map<nat, Owner>)
    requires V.Ok() && Owned(V.g, ino, blk, owner)
    ensures Owned(V.g, ino, Blanked(V, blk), owner)
  {
    var u := Blanked(V, blk);
    forall b: nat ensures OwnerOk(V.g, ino, u, owner, b) {
      assert OwnerOk(V.g, ino, blk, owner, b);
      if b in owner {
        SlotBlanked(V, ino, blk, owner, owner[b].inum, owner[b].slot);
      }
    }
    forall i: nat, s: Slot ensures SlotOk(ino, u, owner, i, s) {
      assert SlotOk(ino, blk, owner, i, s);
      if i < |ino| && SlotIn(s) {
        SlotBlanked(V, ino, blk, owner, i, s);
      }
    }
  }

  lemma InvBlanked(V: Volume, ino: seq<Inode>, blk: seq<Block>, owner: map<nat, Owner>)
    requires V.Ok() && FsInv(V.g, ino, blk, owner)
    ensures FsInv(V.g, ino, Blanked(V, blk), owner)
  {
    var u := Blanked(V, blk);
    OwnedBlanked(V, ino, blk, owner);
    forall b: nat ensures BitOk(V.g, u, owner, {}, b) {
      assert BitOk(V.g, blk, owner, {}, b);
    }
    forall i: nat ensures SizeOk(ino, u, i) {
      assert SizeOk(ino, blk, i);
      forall bn: nat | i < |ino| && bn < MAXFILE && bn * BSIZE < ino[i].size ensures FileBlock(ino, u, i, bn) != 0 {
        assert FileBlock(ino, blk, i, bn) != 0;
        SlotBlanked(V, ino, blk, owner, i, FileSlot(bn));
      }
    }
  }

  lemma ContentBlanked(V: Volume, ino: seq<Inode>, blk: seq<Block>, owner: map<nat, Owner>, i: nat)
    requires V.Ok() && FsInv(V.g, ino, blk, owner) && i < |ino|
    ensures ino[i].size <= MAXFILE * BSIZE && Content(ino, Blanked(V, blk), i) == Content(ino, blk, i)
  {
    assert SizeOk(ino, blk, i);
    forall k: nat | k < ino[i].size ensures ByteAt(ino, Blanked(V, blk), i, k) == ByteAt(ino, blk, i, k) {
      var bn := k / BSIZE;
      assert bn * BSIZE < ino[i].size;
      assert FileBlock(ino, blk, i, bn) != 0;
      SlotBlanked(V, ino, blk, owner, i, FileSlot(bn));
      SlotInRange(V.g, ino, blk, owner, i, FileSlot(bn));
      DataPlain(V, FileBlock(ino, blk, i, bn));
    }
  }

  /** A file system in order, once stored, is what the disk holds. */
  lemma StoredSound(V: Volume, d: Disk, ino: seq<Inode>, blk: seq<Block>, owner: map<nat, Owner>, e: Disk)
    requires V.Ok() && V.On(d) && |ino| == V.ninodes && FsInv(V.g, ino, blk, owner) && Stored(V, d, ino, blk, e)
    ensures HasFiles(V, e, owner, Contents(V.g, ino, blk, owner))
  {
    assert BlocksOf(V, e) == Blanked(V, blk);
    InvBlanked(V, ino, blk, owner);
    var before, after := Contents(V.g, ino, blk, owner), Contents(V.g, ino, Blanked(V, blk), owner);
    forall i: nat | i < V.ninodes ensures after[i] == before[i] {
      ContentBlanked(V, ino, blk, owner, i);
    }
  }

  // ----- crashes -----

  /** The commit of view v over disk d stops after k block writes, recovery after ks of them
      in turn, and a last recovery leaves r. */
  ghost predicate CrashLeaves(L: Layout, d: Disk, v: Disk, lh: seq<nat>, k: nat, ks: seq<nat>, r: Disk)
  {
    && CommitStart(L, d, v, lh) && k <= |CommitWrites(L, d, v, lh)|
    && exists e :: CrashedRecoveries(L, Apply(d, CommitWrites(L, d, v, lh)[..k]), ks, e)
         && WellFormed(L, e) && r == Recovered(L, e)
  }

  lemma CrashHomes(L: Layout, d: Disk, v: Disk, lh: seq<nat>, k: nat, ks: seq<nat>, r: Disk)
    requires CrashLeaves(L, d, v, lh, k, ks, r)
    ensures r.Keys == d.Keys == v.Keys && HomeOf(L, r) == HomeOf(L, if k <= |lh| then d else v)
  {
    var cut := Apply(d, CommitWrites(L, d, v, lh)[..k]);
    var e :| CrashedRecoveries(L, cut, ks, e) && WellFormed(L, e) && r == Recovered(L, e);
    CrashAtomicity(L, d, v, lh, k, ks, e);
    CommitCrash(L, d, v, lh, k);
    RepeatedCrashes(L, cut, ks, e);
    RecoveredShape(L, e);
  }

  /** It leaves a file system in order with all files as before the transaction or all as
      after it. */
  lemma FilesAfterCrash(V: Volume, d: Disk, owner: map<nat, Owner>, v: Disk, owner': map<nat, Owner>,
                        lh: seq<nat>, k: nat, ks: seq<nat>, r: Disk)
    requires Sound(V, d, owner) && Sound(V, v, owner') && CrashLeaves(V.L, d, v, lh, k, ks, r)
    ensures
      if k <= |lh| then HasFiles(V, r, owner, FilesOn(V, d, owner))
      else HasFiles(V, r, owner', FilesOn(V, v, owner'))
  {
    CrashHomes(V.L, d, v, lh, k, ks, r);
    if k <= |lh| {
      SameHomes(V, d, r);
    } else {
      SameHomes(V, v, r);
    }
  }

  /** The file system of the disk, in memory. */
  ghost predicate Loaded(V: Volume, d: Disk, fs: FileSystem)
    reads fs, fs.ino, fs.blk
  {
    V.Ok() && V.On(d) && fs.g == V.g && fs.ino[..] == InodesOf(V, d) && fs.blk[..] == BlocksOf(V, d)
  }

  /** writei, seen on the contents of all the files. */
  method WriteFile(fs: FileSystem, i: nat, src: seq<Byte>, off: nat, ghost files: seq<seq<Byte>>)
    returns (w: WriteResult)
    requires fs.Valid() && i < fs.ino.Length && |src| < WORDMAX && off < WORDMAX
    requires files == Contents(fs.g, fs.ino[..], fs.blk[..], fs.owner)
    modifies fs`owner, fs.ino, fs.blk
    ensures fs.Valid()
    ensures w.Failed? <==> off > |files[i]| || off + |src| >= WORDMAX || off + |src| > MAXFILE * BSIZE
    ensures w.DiskFull? <==>
      !w.Failed? && |ClearBlocks(fs.g, old(fs.blk[..]))| < WriteNeeds(old(fs.ino[..]), old(fs.blk[..]), i, off, |src|)
    ensures w.Wrote? ==> off <= |files[i]|
    ensures w.Wrote? ==> Contents(fs.g, fs.ino[..], fs.blk[..], fs.owner) == files[i := Splice(files[i], off, src)]
  {
    assert forall j: nat :: j < fs.ino.Length ==> fs.Bytes(j) == files[j];
    w := fs.Writei(i, src, off);
    assert forall j: nat :: j < fs.ino.Length ==> Contents(fs.g, fs.ino[..], fs.blk[..], fs.owner)[j] == fs.Bytes(j);
  }

  /** writei in a transaction of its own: whenever the machine stops during the commit, and
      however often during recovery, either no file has changed or the bytes are all written
      and no other file has changed. */
  method WriteCrashes(V: Volume, ghost d: Disk, fs: FileSystem, i: nat, src: seq<Byte>, off: nat)
    returns (w: WriteResult)
    requires fs.Valid() && Loaded(V, d, fs) && i < V.ninodes && |src| < WORDMAX && off < WORDMAX
    modifies fs`owner, fs.ino, fs.blk
    ensures fs.ino.Length == V.ninodes && fs.blk.Length == V.g.size && Sound(V, d, old(fs.owner))
    ensures w.Failed? <==>
      off > |FilesOn(V, d, old(fs.owner))[i]| || off + |src| >= WORDMAX || off + |src| > MAXFILE * BSIZE
    ensures w.DiskFull? <==>
      !w.Failed? && |ClearBlocks(V.g, BlocksOf(V, d))| < WriteNeeds(InodesOf(V, d), BlocksOf(V, d), i, off, |src|)
    ensures w.Wrote? ==> off <= |FilesOn(V, d, old(fs.owner))[i]|
    ensures w.Wrote? ==> forall v: Disk, lh: seq<nat>, k: nat, ks: seq<nat>, r: Disk ::
      Stored(V, d, fs.ino[..], fs.blk[..], v) && CrashLeaves(V.L, d, v, lh, k, ks, r) ==>
      var files := FilesOn(V, d, old(fs.owner));
      if k <= |lh| then HasFiles(V, r, old(fs.owner), files)
      else HasFiles(V, r, fs.owner, files[i := Splice(files[i], off, src)])
  {
    ghost var owner0 := fs.owner;
    ghost var files := FilesOn(V, d, owner0);
    assert fs.ino.Length == |InodesOf(V, d)|;
    w := WriteFile(fs, i, src, off, files);
    if w.Wrote? {
      ghost var ino, blk, owner := fs.ino[..], fs.blk[..], fs.owner;
      forall v: Disk, lh: seq<nat>, k: nat, ks: seq<nat>, r: Disk
        | Stored(V, d, ino, blk, v) && CrashLeaves(V.L, d, v, lh, k, ks, r)
        ensures
          if k <= |lh| then HasFiles(V, r, owner0, files)
          else HasFiles(V, r, owner, files[i := Splice(files[i], off, src)])
      {
        StoredSound(V, d, ino, blk, owner, v);
        FilesAfterCrash(V, d, owner0, v, owner, lh, k, ks, r);
      }
    }
  }
}
