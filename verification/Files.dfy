/** Inodes, their direct and indirect blocks, and who owns which block (kern/fs.c).

    The blocks here are the flat map of blocks that the log and the buffer cache present.
    An inode table entry stands for the inode in memory and its copy on disk, which iupdate
    keeps equal. */
module Files {
  import opened Blocks
  import opened Bitmap
  import opened Options

  const NDIRECT: nat := 11
  const NINDIRECT: nat := 256
  const MAXFILE: nat := 267

  type Addrs = a: seq<nat> | |a| == NDIRECT + 1 witness seq(NDIRECT + 1, _ => 0)

  datatype Inode = Inode(size: nat, addrs: Addrs)

  /** The places a block number can be kept in: a direct slot, the slot of the indirect
      table, and the slots in that table. */
  datatype Slot = Direct(j: nat) | Table | Indirect(j: nat)

  datatype Owner = Owner(inum: nat, slot: Slot)

  /** size and nmeta in blocks; blocks below nmeta hold the boot block, super block, log,
      inodes and bit map. */
  datatype Geometry = Geometry(size: nat, nmeta: nat, bmapstart: nat) {
    ghost predicate Ok()
    {
      0 < bmapstart && bmapstart + size / BPB < nmeta <= size < WORDMAX
    }
  }

  predicate SlotIn(s: Slot)
  {
    match s
    case Direct(j) => j < NDIRECT
    case Table => true
    case Indirect(j) => j < NINDIRECT
  }

  /** What a slot holds; 0 for an empty one. */
  function SlotVal(ino: seq<Inode>, blk: seq<Block>, i: nat, s: Slot): (v: nat)
    requires i < |ino| && SlotIn(s)
  {
    match s
    case Direct(j) => ino[i].addrs[j]
    case Table => ino[i].addrs[NDIRECT]
    case Indirect(j) =>
      var t := ino[i].addrs[NDIRECT];
      if t == 0 || t >= |blk| then 0 else GetWord(blk[t], j)
  }

  /** The slot of the bn-th block of a file. */
  function FileSlot(bn: nat): (s: Slot)
    requires bn < MAXFILE
    ensures SlotIn(s) && !s.Table?
  {
    if bn < NDIRECT then Direct(bn) else Indirect(bn - NDIRECT)
  }

  function FileBlock(ino: seq<Inode>, blk: seq<Block>, i: nat, bn: nat): (v: nat)
    requires i < |ino| && bn < MAXFILE
  {
    SlotVal(ino, blk, i, FileSlot(bn))
  }

  /** Where the bn-th block of a file is noted: in the inode for the first NDIRECT, then in the
      block of numbers that the inode's last address names. */
  lemma FilePlace(ino: seq<Inode>, blk: seq<Block>, i: nat, bn: nat)
    requires i < |ino| && bn < MAXFILE
    ensures bn < NDIRECT ==> FileBlock(ino, blk, i, bn) == ino[i].addrs[bn]
    ensures NDIRECT <= bn && FileBlock(ino, blk, i, bn) != 0 ==>
      && 0 < ino[i].addrs[NDIRECT] < |blk|
      && FileBlock(ino, blk, i, bn) == GetWord(blk[ino[i].addrs[NDIRECT]], bn - NDIRECT)
  {
  }

  // ----- block ownership -----

  /** A block with an owner is a data block, and its owner's slot holds it. */
  ghost predicate OwnerOk(g: Geometry, ino: seq<Inode>, blk: seq<Block>, owner: map<nat, Owner>, b: nat)
  {
    b in owner ==>
      && g.nmeta <= b < g.size
      && owner[b].inum < |ino| && SlotIn(owner[b].slot)
      && SlotVal(ino, blk, owner[b].inum, owner[b].slot) == b
  }

  /** A block number in a slot is owned by that slot: no block is held twice. */
  ghost predicate SlotOk(ino: seq<Inode>, blk: seq<Block>, owner: map<nat, Owner>, i: nat, s: Slot)
  {
    i < |ino| && SlotIn(s) && SlotVal(ino, blk, i, s) != 0 ==>
      var v := SlotVal(ino, blk, i, s);
      v in owner && owner[v] == Owner(i, s)
  }

  ghost predicate BitOk(g: Geometry, blk: seq<Block>, owner: map<nat, Owner>, freed: set<nat>, b: nat)
    requires g.Ok() && |blk| == g.size
  {
    b < g.size ==> (Bit(blk, g.bmapstart, b) <==> b < g.nmeta || (b in owner && b !in freed))
  }

  ghost predicate SizeOk(ino: seq<Inode>, blk: seq<Block>, i: nat)
  {
    i < |ino| ==>
      && ino[i].size <= MAXFILE * BSIZE
      && forall bn: nat :: bn < MAXFILE && bn * BSIZE < ino[i].size ==> FileBlock(ino, blk, i, bn) != 0
  }

  /** Every block number in a slot has that slot as its one owner. */
  ghost predicate Owned(g: Geometry, ino: seq<Inode>, blk: seq<Block>, owner: map<nat, Owner>)
  {
    && g.Ok() && |blk| == g.size
    && (forall b: nat :: OwnerOk(g, ino, blk, owner, b))
    && (forall i: nat, s: Slot :: SlotOk(ino, blk, owner, i, s))
  }

  /** The bits: metadata, and what is owned and not among the blocks just freed. */
  ghost predicate Bits(g: Geometry, blk: seq<Block>, owner: map<nat, Owner>, freed: set<nat>)
  {
    && g.Ok() && |blk| == g.size
    && (forall b: nat :: BitOk(g, blk, owner, freed, b))
  }

  ghost predicate FsInv(g: Geometry, ino: seq<Inode>, blk: seq<Block>, owner: map<nat, Owner>)
  {
    && Owned(g, ino, blk, owner)
    && Bits(g, blk, owner, {})
    && (forall i: nat :: SizeOk(ino, blk, i))
  }

  /** Two different slots never hold the same block. */
  lemma NoSharing(g: Geometry, ino: seq<Inode>, blk: seq<Block>, owner: map<nat, Owner>,
                  i: nat, s: Slot, i': nat, s': Slot)
    requires FsInv(g, ino, blk, owner)
    requires i < |ino| && i' < |ino| && SlotIn(s) && SlotIn(s')
    requires SlotVal(ino, blk, i, s) == SlotVal(ino, blk, i', s') != 0
    ensures i == i' && s == s'
    ensures var b := SlotVal(ino, blk, i, s);
            g.nmeta <= b < g.size && Bit(blk, g.bmapstart, b)
  {
    var b := SlotVal(ino, blk, i, s);
    assert SlotOk(ino, blk, owner, i, s) && SlotOk(ino, blk, owner, i', s');
    assert OwnerOk(g, ino, blk, owner, b);
    assert BitOk(g, blk, owner, {}, b);
  }

  lemma SlotInRange(g: Geometry, ino: seq<Inode>, blk: seq<Block>, owner: map<nat, Owner>, i: nat, s: Slot)
    requires Owned(g, ino, blk, owner) && i < |ino| && SlotIn(s) && SlotVal(ino, blk, i, s) != 0
    ensures g.nmeta <= SlotVal(ino, blk, i, s) < g.size
  {
    assert SlotOk(ino, blk, owner, i, s);
    assert OwnerOk(g, ino, blk, owner, SlotVal(ino, blk, i, s));
  }

  // ----- file contents -----

  ghost function ByteAt(ino: seq<Inode>, blk: seq<Block>, i: nat, k: nat): (x: Byte)
    requires i < |ino| && k < MAXFILE * BSIZE
  {
    var b := FileBlock(ino, blk, i, k / BSIZE);
    if b < |blk| then blk[b][k % BSIZE] else 0
  }

  /** Every block below the file's size is there. */
  ghost function Content(ino: seq<Inode>, blk: seq<Block>, i: nat): (c: seq<Byte>)
    requires i < |ino| && ino[i].size <= MAXFILE * BSIZE
  {
    seq(ino[i].size, k requires 0 <= k < ino[i].size => ByteAt(ino, blk, i, k))
  }

  /** x is byte k of the file whose inode is n, told from the inode and the blocks. */
  ghost predicate IsByte(n: Inode, blk: seq<Block>, k: nat, x: Byte)
  {
    if k < NDIRECT * BSIZE then
      n.addrs[k / BSIZE] < |blk| && x == blk[n.addrs[k / BSIZE]][k % BSIZE]
    else
      && k < MAXFILE * BSIZE && n.addrs[NDIRECT] < |blk|
      && var b := GetWord(blk[n.addrs[NDIRECT]], k / BSIZE - NDIRECT);
         b < |blk| && x == blk[b][k % BSIZE]
  }

  /** Each byte of a file is where inode and blocks say it is. */
  lemma ContentByte(g: Geometry, ino: seq<Inode>, blk: seq<Block>, owner: map<nat, Owner>, i: nat, k: nat)
    requires FsInv(g, ino, blk, owner) && i < |ino| && k < ino[i].size <= MAXFILE * BSIZE
    ensures IsByte(ino[i], blk, k, Content(ino, blk, i)[k])
  {
    var bn := k / BSIZE;
    assert SizeOk(ino, blk, i) && bn * BSIZE < ino[i].size;
    assert FileBlock(ino, blk, i, bn) != 0;
    SlotInRange(g, ino, blk, owner, i, FileSlot(bn));
    FilePlace(ino, blk, i, bn);
    assert Content(ino, blk, i)[k] == ByteAt(ino, blk, i, k);
  }

  lemma ContentBytes(g: Geometry, ino: seq<Inode>, blk: seq<Block>, owner: map<nat, Owner>, i: nat, off: nat,
                     r: seq<Byte>)
    requires FsInv(g, ino, blk, owner) && i < |ino| && off + |r| <= ino[i].size <= MAXFILE * BSIZE
    requires r == Content(ino, blk, i)[off..off + |r|]
    ensures forall k: nat :: k < |r| ==> IsByte(ino[i], blk, off + k, r[k])
  {
    forall k: nat | k < |r| ensures IsByte(ino[i], blk, off + k, r[k]) {
      ContentByte(g, ino, blk, owner, i, off + k);
    }
  }

  /** Data written over c from off on. */
  function Splice(c: seq<Byte>, off: nat, data: seq<Byte>): (r: seq<Byte>)
    requires off <= |c|
  {
    c[..off] + data + if off + |data| < |c| then c[off + |data|..] else []
  }

  /** Byte by byte: the data from off on, and around it what was there. */
  lemma SpliceAt(c: seq<Byte>, off: nat, data: seq<Byte>, k: nat)
    requires off <= |c|
    ensures |Splice(c, off, data)| == if off + |data| > |c| then off + |data| else |c|
    ensures k < |Splice(c, off, data)| ==>
      Splice(c, off, data)[k] == if off <= k < off + |data| then data[k - off] else c[k]
  {
  }

  // ----- single changes and what they keep -----

  /** Changing a block that is nobody's indirect table changes no slot. */
  lemma SlotKept(g: Geometry, ino: seq<Inode>, blk: seq<Block>, owner: map<nat, Owner>,
                 b: nat, x: Block, i: nat, s: Slot)
    requires Owned(g, ino, blk, owner) && 0 < b < |blk| && i < |ino| && SlotIn(s)
    requires b !in owner || !owner[b].slot.Table?
    ensures SlotVal(ino, blk[b := x], i, s) == SlotVal(ino, blk, i, s)
  {
    assert SlotOk(ino, blk, owner, i, Table);
  }

  /** The same slots, the same owners. */
  lemma OwnedKept(g: Geometry, ino: seq<Inode>, blk: seq<Block>, owner: map<nat, Owner>, b: nat, x: Block)
    requires Owned(g, ino, blk, owner) && 0 < b < |blk|
    requires b !in owner || !owner[b].slot.Table?
    ensures Owned(g, ino, blk[b := x], owner)
  {
    var u := blk[b := x];
    forall c: nat ensures OwnerOk(g, ino, u, owner, c) {
      assert OwnerOk(g, ino, blk, owner, c);
      if c in owner { SlotKept(g, ino, blk, owner, b, x, owner[c].inum, owner[c].slot); }
    }
    forall i: nat, s: Slot ensures SlotOk(ino, u, owner, i, s) {
      assert SlotOk(ino, blk, owner, i, s);
      if i < |ino| && SlotIn(s) { SlotKept(g, ino, blk, owner, b, x, i, s); }
    }
  }

  /** Writing outside the metadata leaves the bits alone. */
  lemma BitsKept(g: Geometry, blk: seq<Block>, owner: map<nat, Owner>, freed: set<nat>, b: nat, x: Block)
    requires Bits(g, blk, owner, freed) && g.nmeta <= b < |blk|
    ensures Bits(g, blk[b := x], owner, freed)
  {
    var u := blk[b := x];
    forall c: nat ensures BitOk(g, u, owner, freed, c) {
      assert BitOk(g, blk, owner, freed, c);
    }
  }

  /** Filling an empty slot with a fresh block makes that slot the owner. */
  lemma OwnedFilled(g: Geometry, ino: seq<Inode>, blk: seq<Block>, owner: map<nat, Owner>,
                    i: nat, s: Slot, b: nat, ino': seq<Inode>, blk': seq<Block>)
    requires Owned(g, ino, blk, owner) && b !in owner && g.nmeta <= b < g.size
    requires |ino'| == |ino| && |blk'| == |blk| && i < |ino| && SlotIn(s)
    requires SlotVal(ino, blk, i, s) == 0
    requires forall i': nat, s': Slot :: i' < |ino| && SlotIn(s') ==>
      SlotVal(ino', blk', i', s') == if i' == i && s' == s then b else SlotVal(ino, blk, i', s')
    ensures Owned(g, ino', blk', owner[b := Owner(i, s)])
  {
    var o := owner[b := Owner(i, s)];
    forall c: nat ensures OwnerOk(g, ino', blk', o, c) {
      assert OwnerOk(g, ino, blk, owner, c);
    }
    forall i': nat, s': Slot ensures SlotOk(ino', blk', o, i', s') {
      assert SlotOk(ino, blk, owner, i', s');
    }
  }

  /** Emptying slots and forgetting their blocks. */
  lemma OwnedDropped(g: Geometry, ino: seq<Inode>, blk: seq<Block>, owner: map<nat, Owner>,
                     ino': seq<Inode>, gone: set<nat>)
    requires Owned(g, ino, blk, owner) && |ino'| == |ino|
    requires forall b: nat :: b in gone ==> b in owner
    requires forall i: nat, s: Slot :: i < |ino| && SlotIn(s) ==>
      SlotVal(ino', blk, i, s) == if SlotVal(ino, blk, i, s) in gone then 0 else SlotVal(ino, blk, i, s)
    ensures Owned(g, ino', blk, owner - gone)
  {
    var o := owner - gone;
    forall c: nat ensures OwnerOk(g, ino', blk, o, c) {
      assert OwnerOk(g, ino, blk, owner, c);
    }
    forall i: nat, s: Slot ensures SlotOk(ino', blk, o, i, s) {
      assert SlotOk(ino, blk, owner, i, s);
    }
  }

  function Zeros(): Block
  {
    seq(BSIZE, _ => 0)
  }

  /** What balloc leaves behind: the bit set, the block zeroed. */
  function Allocated(g: Geometry, blk: seq<Block>, b: nat): (r: seq<Block>)
    requires g.bmapstart + b / BPB < |blk| && b < |blk|
  {
    PutBit(blk, g.bmapstart, b, true)[b := Zeros()]
  }

  /** A block with a clear bit is free data; taking it disturbs no slot and no owned block. */
  lemma AllocKeeps(g: Geometry, ino: seq<Inode>, blk: seq<Block>, owner: map<nat, Owner>, b: nat, o: Owner)
    requires Owned(g, ino, blk, owner) && Bits(g, blk, owner, {}) && b < g.size
    requires !Bit(blk, g.bmapstart, b)
    ensures g.nmeta <= b && b !in owner
    ensures var u := Allocated(g, blk, b);
            && Owned(g, ino, u, owner)
            && (forall i: nat, s: Slot :: i < |ino| && SlotIn(s) ==> SlotVal(ino, u, i, s) == SlotVal(ino, blk, i, s))
            && (forall c: nat :: c in owner ==> c < |blk| && u[c] == blk[c])
            && Bits(g, u, owner[b := o], {})
  {
    assert BitOk(g, blk, owner, {}, b);
    var m := g.bmapstart + b / BPB;
    assert OwnerOk(g, ino, blk, owner, m);
    var x := PutBlockBit(blk[m], b % BPB, true);
    var v := blk[m := x];
    OwnedKept(g, ino, blk, owner, m, x);
    OwnedKept(g, ino, v, owner, b, Zeros());
    var u := v[b := Zeros()];
    assert u == Allocated(g, blk, b);
    forall i: nat, s: Slot | i < |ino| && SlotIn(s) ensures SlotVal(ino, u, i, s) == SlotVal(ino, blk, i, s) {
      SlotKept(g, ino, blk, owner, m, x, i, s);
      SlotKept(g, ino, v, owner, b, Zeros(), i, s);
    }
    forall c: nat | c in owner ensures c < |blk| && u[c] == blk[c] {
      assert OwnerOk(g, ino, blk, owner, c);
    }
    var owner' := owner[b := o];
    forall c: nat ensures BitOk(g, u, owner', {}, c) {
      assert BitOk(g, blk, owner, {}, c);
      if c < g.size { BitPut(blk, g.bmapstart, b, true, c); }
    }
  }

  /** A file's bn-th block: the same block with the same bytes, or none before and after. */
  ghost predicate KeptAt(ino: seq<Inode>, blk: seq<Block>, ino': seq<Inode>, blk': seq<Block>, i: nat, bn: nat)
    requires |ino'| == |ino| && |blk'| == |blk|
  {
    i < |ino| && bn < MAXFILE ==>
      var b := FileBlock(ino, blk, i, bn);
      && FileBlock(ino', blk', i, bn) == b
      && (0 < b < |blk| ==> blk'[b] == blk[b])
  }

  /** Every file keeps its size, and every block it has; only (i, bn) may be filled in. */
  ghost predicate Extends(ino: seq<Inode>, blk: seq<Block>, ino': seq<Inode>, blk': seq<Block>, i: nat, bn: nat)
  {
    && |ino'| == |ino| && |blk'| == |blk| && i < |ino| && bn < MAXFILE
    && (forall i': nat :: i' < |ino| ==> ino'[i'].size == ino[i'].size)
    && forall i': nat, bn': nat ::
         i' != i || bn' != bn || FileBlock(ino, blk, i, bn) != 0 ==> KeptAt(ino, blk, ino', blk', i', bn')
  }

  lemma ExtendsTrans(ino: seq<Inode>, blk: seq<Block>, ino1: seq<Inode>, blk1: seq<Block>,
                     ino2: seq<Inode>, blk2: seq<Block>, i: nat, bn: nat)
    requires Extends(ino, blk, ino1, blk1, i, bn) && Extends(ino1, blk1, ino2, blk2, i, bn)
    ensures Extends(ino, blk, ino2, blk2, i, bn)
  {
    forall i': nat, bn': nat | i' != i || bn' != bn || FileBlock(ino, blk, i, bn) != 0
      ensures KeptAt(ino, blk, ino2, blk2, i', bn')
    {
      assert FileBlock(ino, blk, i, bn) != 0 ==> KeptAt(ino, blk, ino1, blk1, i, bn);
      assert KeptAt(ino, blk, ino1, blk1, i', bn') && KeptAt(ino1, blk1, ino2, blk2, i', bn');
    }
  }

  lemma ExtendsSized(ino: seq<Inode>, blk: seq<Block>, ino': seq<Inode>, blk': seq<Block>, i: nat, bn: nat, k: nat)
    requires Extends(ino, blk, ino', blk', i, bn) && SizeOk(ino, blk, k)
    ensures SizeOk(ino', blk', k)
  {
    if k < |ino| {
      forall q: nat | q < MAXFILE && q * BSIZE < ino'[k].size ensures FileBlock(ino', blk', k, q) != 0 {
        assert FileBlock(ino, blk, k, q) != 0;
        assert KeptAt(ino, blk, ino', blk', k, q);
      }
    }
  }

  /** Slot (i, s), empty before, holds b now; all other slots and all owned data are as they were. */
  ghost predicate FilledSlot(ino: seq<Inode>, blk: seq<Block>, owner: map<nat, Owner>,
                             ino': seq<Inode>, blk': seq<Block>, i: nat, s: Slot, b: nat)
  {
    && |ino'| == |ino| && |blk'| == |blk| && i < |ino| && SlotIn(s)
    && (forall k: nat :: k < |ino| ==> ino'[k].size == ino[k].size)
    && (forall i': nat, s': Slot :: i' < |ino| && SlotIn(s') ==>
          SlotVal(ino', blk', i', s') == if i' == i && s' == s then b else SlotVal(ino, blk, i', s'))
    && (forall c: nat :: c in owner && !owner[c].slot.Table? ==> c < |blk| && blk'[c] == blk[c])
  }

  lemma FilledExtends(g: Geometry, ino: seq<Inode>, blk: seq<Block>, owner: map<nat, Owner>,
                      ino': seq<Inode>, blk': seq<Block>, i: nat, s: Slot, b: nat, bn: nat)
    requires Owned(g, ino, blk, owner) && FilledSlot(ino, blk, owner, ino', blk', i, s, b)
    requires SlotVal(ino, blk, i, s) == 0 && bn < MAXFILE && (s == Table || s == FileSlot(bn))
    ensures Extends(ino, blk, ino', blk', i, bn)
    ensures forall k: nat :: SizeOk(ino, blk, k) ==> SizeOk(ino', blk', k)
  {
    forall i': nat, bn': nat | i' != i || bn' != bn || FileBlock(ino, blk, i, bn) != 0
      ensures KeptAt(ino, blk, ino', blk', i', bn')
    {
      if i' < |ino| && bn' < MAXFILE {
        assert SlotOk(ino, blk, owner, i', FileSlot(bn'));
      }
    }
    forall k: nat | SizeOk(ino, blk, k) ensures SizeOk(ino', blk', k) {
      ExtendsSized(ino, blk, ino', blk', i, bn, k);
    }
  }

  lemma ZerosWord(j: nat)
    requires j < WORDS
    ensures GetWord(Zeros(), j) == 0
  {
  }

  /** Storing a fresh block in ip->addrs[j]. */
  lemma FillAddrKeeps(g: Geometry, ino: seq<Inode>, blk: seq<Block>, owner: map<nat, Owner>, i: nat, j: nat, b: nat)
    requires Owned(g, ino, blk, owner) && Bits(g, blk, owner, {})
    requires i < |ino| && j <= NDIRECT && ino[i].addrs[j] == 0
    requires b < g.size && !Bit(blk, g.bmapstart, b)
    ensures var s := if j < NDIRECT then Direct(j) else Table;
            var ino' := ino[i := ino[i].(addrs := ino[i].addrs[j := b])];
            var blk' := Allocated(g, blk, b);
            var owner' := owner[b := Owner(i, s)];
            && Owned(g, ino', blk', owner') && Bits(g, blk', owner', {})
            && FilledSlot(ino, blk, owner, ino', blk', i, s, b)
            && SlotVal(ino, blk, i, s) == 0 && b != 0 && blk'[b] == Zeros()
  {
    var s := if j < NDIRECT then Direct(j) else Table;
    var ino' := ino[i := ino[i].(addrs := ino[i].addrs[j := b])];
    var blk' := Allocated(g, blk, b);
    AllocKeeps(g, ino, blk, owner, b, Owner(i, s));
    forall i': nat, s': Slot | i' < |ino| && SlotIn(s')
      ensures SlotVal(ino', blk', i', s') == if i' == i && s' == s then b else SlotVal(ino, blk, i', s')
    {
      assert SlotVal(ino, blk', i', s') == SlotVal(ino, blk, i', s');
      if i' == i && j == NDIRECT && s'.Indirect? {
        ZerosWord(s'.j);
      }
    }
    OwnedFilled(g, ino, blk, owner, i, s, b, ino', blk');
  }

  /** Storing a fresh block in the j-th entry of the indirect table. */
  lemma FillEntryKeeps(g: Geometry, ino: seq<Inode>, blk: seq<Block>, owner: map<nat, Owner>, i: nat, j: nat, b: nat)
    requires Owned(g, ino, blk, owner) && Bits(g, blk, owner, {})
    requires i < |ino| && j < NINDIRECT && ino[i].addrs[NDIRECT] != 0 && SlotVal(ino, blk, i, Indirect(j)) == 0
    requires b < g.size && !Bit(blk, g.bmapstart, b)
    ensures var t := ino[i].addrs[NDIRECT];
            && t < |blk| && t != b && b != 0
            && var u := Allocated(g, blk, b);
            && u[t] == blk[t]
            && var blk' := u[t := PutWord(u[t], j, b)];
            var owner' := owner[b := Owner(i, Indirect(j))];
            && Owned(g, ino, blk', owner') && Bits(g, blk', owner', {})
            && FilledSlot(ino, blk, owner, ino, blk', i, Indirect(j), b)
            && blk'[b] == Zeros()
  {
    var t := ino[i].addrs[NDIRECT];
    AllocKeeps(g, ino, blk, owner, b, Owner(i, Indirect(j)));
    assert SlotOk(ino, blk, owner, i, Table) && OwnerOk(g, ino, blk, owner, t);
    var u := Allocated(g, blk, b);
    var blk' := u[t := PutWord(u[t], j, b)];
    forall i': nat, s': Slot | i' < |ino| && SlotIn(s')
      ensures SlotVal(ino, blk', i', s') == if i' == i && s' == Indirect(j) then b else SlotVal(ino, blk, i', s')
    {
      assert SlotVal(ino, u, i', s') == SlotVal(ino, blk, i', s');
      assert SlotOk(ino, blk, owner, i', Table);
      if s'.Indirect? {
        GetPutWord(u[t], j, b, s'.j);
      }
    }
    OwnedFilled(g, ino, blk, owner, i, Indirect(j), b, ino, blk');
    BitsKept(g, u, owner[b := Owner(i, Indirect(j))], {}, t, PutWord(u[t], j, b));
  }

  // ----- writing data -----

  /** memmove into a block. */
  function BlockSplice(b: Block, o: nat, chunk: seq<Byte>): (r: Block)
    requires o + |chunk| <= BSIZE
  {
    b[..o] + chunk + b[o + |chunk|..]
  }

  /** Changing the bytes of a file's block moves no block and touches no other. */
  lemma DataWrite(g: Geometry, ino: seq<Inode>, blk: seq<Block>, owner: map<nat, Owner>, i: nat, bn: nat, x: Block)
    requires FsInv(g, ino, blk, owner) && i < |ino| && bn < MAXFILE && FileBlock(ino, blk, i, bn) != 0
    ensures var b := FileBlock(ino, blk, i, bn);
            && b < |blk|
            && var u := blk[b := x];
            && FsInv(g, ino, u, owner) && FileBlock(ino, u, i, bn) == b
            && forall i': nat, bn': nat :: i' != i || bn' != bn ==> KeptAt(ino, blk, ino, u, i', bn')
  {
    var b := FileBlock(ino, blk, i, bn);
    SlotInRange(g, ino, blk, owner, i, FileSlot(bn));
    assert SlotOk(ino, blk, owner, i, FileSlot(bn));
    var u := blk[b := x];
    OwnedKept(g, ino, blk, owner, b, x);
    BitsKept(g, blk, owner, {}, b, x);
    forall i': nat, bn': nat | i' < |ino| && bn' < MAXFILE
      ensures FileBlock(ino, u, i', bn') == FileBlock(ino, blk, i', bn')
      ensures i' != i || bn' != bn ==> KeptAt(ino, blk, ino, u, i', bn')
    {
      SlotKept(g, ino, blk, owner, b, x, i', FileSlot(bn'));
      assert SlotOk(ino, blk, owner, i', FileSlot(bn'));
    }
    forall k: nat ensures SizeOk(ino, u, k) {
      assert SizeOk(ino, blk, k);
    }
  }

  /** Byte k of file i after `tot` bytes of data have gone to offset off: new if it lies
      there, else as before if there was a block for it. */
  ghost predicate WrittenAt(ino0: seq<Inode>, blk0: seq<Block>, ino: seq<Inode>, blk: seq<Block>,
                            i: nat, off: nat, data: seq<Byte>, tot: nat, k: nat)
    requires i < |ino0| && i < |ino| && tot <= |data|
  {
    k < MAXFILE * BSIZE ==>
      if off <= k < off + tot then
        FileBlock(ino, blk, i, k / BSIZE) != 0 && ByteAt(ino, blk, i, k) == data[k - off]
      else FileBlock(ino0, blk0, i, k / BSIZE) != 0 ==>
        FileBlock(ino, blk, i, k / BSIZE) != 0 && ByteAt(ino, blk, i, k) == ByteAt(ino0, blk0, i, k)
  }

  /** How far writei has come. */
  ghost predicate Writing(ino0: seq<Inode>, blk0: seq<Block>, ino: seq<Inode>, blk: seq<Block>,
                          i: nat, off: nat, data: seq<Byte>, tot: nat)
  {
    && |ino| == |ino0| && |blk| == |blk0| && i < |ino0| && tot <= |data|
    && (forall i': nat :: i' < |ino| ==> ino[i'].size == ino0[i'].size)
    && (forall i': nat, bn: nat :: i' != i ==> KeptAt(ino0, blk0, ino, blk, i', bn))
    && (forall k: nat :: WrittenAt(ino0, blk0, ino, blk, i, off, data, tot, k))
  }

  lemma WritingStart(ino: seq<Inode>, blk: seq<Block>, i: nat, off: nat, data: seq<Byte>)
    requires i < |ino|
    ensures Writing(ino, blk, ino, blk, i, off, data, 0)
  {
  }

  /** bmap in the middle of a write keeps what has been written. */
  lemma WritingMapped(ino0: seq<Inode>, blk0: seq<Block>, ino1: seq<Inode>, blk1: seq<Block>,
                      ino2: seq<Inode>, blk2: seq<Block>, i: nat, off: nat, data: seq<Byte>, tot: nat, bn: nat)
    requires Writing(ino0, blk0, ino1, blk1, i, off, data, tot) && Extends(ino1, blk1, ino2, blk2, i, bn)
    ensures Writing(ino0, blk0, ino2, blk2, i, off, data, tot)
  {
    forall i': nat, q: nat | i' != i ensures KeptAt(ino0, blk0, ino2, blk2, i', q) {
      assert KeptAt(ino0, blk0, ino1, blk1, i', q) && KeptAt(ino1, blk1, ino2, blk2, i', q);
    }
    forall k: nat ensures WrittenAt(ino0, blk0, ino2, blk2, i, off, data, tot, k) {
      assert WrittenAt(ino0, blk0, ino1, blk1, i, off, data, tot, k);
      if k < MAXFILE * BSIZE && FileBlock(ino1, blk1, i, k / BSIZE) != 0 {
        assert KeptAt(ino1, blk1, ino2, blk2, i, k / BSIZE);
      }
    }
  }

  /** The memmove of one turn. */
  lemma WritingMoved(ino0: seq<Inode>, blk0: seq<Block>, ino: seq<Inode>, blk: seq<Block>, blk': seq<Block>,
                     i: nat, off: nat, data: seq<Byte>, tot: nat, m: nat)
    requires Writing(ino0, blk0, ino, blk, i, off, data, tot)
    requires 0 < m && tot + m <= |data| && off + |data| <= MAXFILE * BSIZE
    requires (off + tot) % BSIZE + m <= BSIZE
    requires var bn := (off + tot) / BSIZE;
             var b := FileBlock(ino, blk, i, bn);
             && 0 < b < |blk|
             && blk' == blk[b := BlockSplice(blk[b], (off + tot) % BSIZE, data[tot..tot + m])]
             && FileBlock(ino, blk', i, bn) == b
             && forall i': nat, bn': nat :: i' != i || bn' != bn ==> KeptAt(ino, blk, ino, blk', i', bn')
    ensures Writing(ino0, blk0, ino, blk', i, off, data, tot + m)
  {
    var bn, o := (off + tot) / BSIZE, (off + tot) % BSIZE;
    var b := FileBlock(ino, blk, i, bn);
    forall i': nat, q: nat | i' != i ensures KeptAt(ino0, blk0, ino, blk', i', q) {
      assert KeptAt(ino0, blk0, ino, blk, i', q) && KeptAt(ino, blk, ino, blk', i', q);
    }
    var tot' := tot + m;
    forall k: nat ensures WrittenAt(ino0, blk0, ino, blk', i, off, data, tot', k) {
      assert WrittenAt(ino0, blk0, ino, blk, i, off, data, tot, k);
      if k < MAXFILE * BSIZE {
        if k / BSIZE != bn {
          assert KeptAt(ino, blk, ino, blk', i, k / BSIZE);
        } else if off + tot <= k < off + tot + m {
          assert k % BSIZE == o + (k - off - tot);
          assert data[tot..tot + m][k - off - tot] == data[k - off];
        }
      }
    }
  }

  /** The size writei leaves. */
  function GrownSize(size: nat, off: nat, n: nat): nat
  {
    if n > 0 && off + n > size then off + n else size
  }

  /** A size is no slot. */
  lemma Resized(g: Geometry, ino: seq<Inode>, blk: seq<Block>, owner: map<nat, Owner>, ino': seq<Inode>)
    requires FsInv(g, ino, blk, owner) && |ino'| == |ino|
    requires forall k: nat :: k < |ino| ==> ino'[k].addrs == ino[k].addrs
    ensures Owned(g, ino', blk, owner)
    ensures forall k: nat, bn: nat :: k < |ino| && bn < MAXFILE ==>
      FileBlock(ino', blk, k, bn) == FileBlock(ino, blk, k, bn)
  {
    forall b: nat ensures OwnerOk(g, ino', blk, owner, b) {
      assert OwnerOk(g, ino, blk, owner, b);
    }
    forall k: nat, s: Slot ensures SlotOk(ino', blk, owner, k, s) {
      assert SlotOk(ino, blk, owner, k, s);
    }
  }

  /** A file whose blocks are all kept has the contents it had. */
  lemma OthersKept(g: Geometry, ino0: seq<Inode>, blk0: seq<Block>, owner0: map<nat, Owner>,
                   ino: seq<Inode>, blk: seq<Block>, i: nat)
    requires FsInv(g, ino0, blk0, owner0) && |ino| == |ino0| && |blk| == |blk0|
    requires i < |ino| && ino[i].size == ino0[i].size
    requires forall bn: nat :: KeptAt(ino0, blk0, ino, blk, i, bn)
    ensures ino0[i].size <= MAXFILE * BSIZE && Content(ino, blk, i) == Content(ino0, blk0, i)
  {
    assert SizeOk(ino0, blk0, i);
    forall k: nat | k < ino[i].size ensures ByteAt(ino, blk, i, k) == ByteAt(ino0, blk0, i, k) {
      assert FileBlock(ino0, blk0, i, k / BSIZE) != 0 by { assert k / BSIZE * BSIZE < ino0[i].size; }
      assert KeptAt(ino0, blk0, ino, blk, i, k / BSIZE);
      SlotInRange(g, ino0, blk0, owner0, i, FileSlot(k / BSIZE));
    }
  }

  /** A finished write with the size stored: still well formed, and the contents spliced. */
  lemma WritingDone(g: Geometry, ino0: seq<Inode>, blk0: seq<Block>, owner0: map<nat, Owner>,
                    ino: seq<Inode>, blk: seq<Block>, owner: map<nat, Owner>, i: nat, off: nat, data: seq<Byte>)
    requires FsInv(g, ino0, blk0, owner0) && FsInv(g, ino, blk, owner)
    requires Writing(ino0, blk0, ino, blk, i, off, data, |data|)
    requires off <= ino0[i].size && off + |data| <= MAXFILE * BSIZE
    ensures var ino' := ino[i := ino[i].(size := GrownSize(ino[i].size, off, |data|))];
            && FsInv(g, ino', blk, owner)
            && SizeOk(ino0, blk0, i)
            && Content(ino', blk, i) == Splice(Content(ino0, blk0, i), off, data)
            && (forall i': nat :: i' < |ino| && i' != i ==>
                  SizeOk(ino0, blk0, i') && SizeOk(ino', blk, i') && Content(ino', blk, i') == Content(ino0, blk0, i'))
  {
    var ino' := ino[i := ino[i].(size := GrownSize(ino[i].size, off, |data|))];
    assert SizeOk(ino0, blk0, i);
    Resized(g, ino, blk, owner, ino');
    forall bn: nat | bn < MAXFILE && bn * BSIZE < ino'[i].size ensures FileBlock(ino', blk, i, bn) != 0 {
      assert WrittenAt(ino0, blk0, ino, blk, i, off, data, |data|, bn * BSIZE);
      assert bn * BSIZE < ino0[i].size ==> FileBlock(ino0, blk0, i, bn) != 0;
    }
    forall k: nat ensures SizeOk(ino', blk, k) {
      assert SizeOk(ino, blk, k);
    }
    forall k: nat | k < ino'[i].size
      ensures Content(ino', blk, i)[k] == Splice(Content(ino0, blk0, i), off, data)[k]
    {
      assert WrittenAt(ino0, blk0, ino, blk, i, off, data, |data|, k);
      assert ByteAt(ino', blk, i, k) == ByteAt(ino, blk, i, k);
      if k < ino0[i].size {
        assert k / BSIZE * BSIZE < ino0[i].size;
        assert FileBlock(ino0, blk0, i, k / BSIZE) != 0;
      }
    }
    forall i': nat | i' < |ino| && i' != i
      ensures SizeOk(ino0, blk0, i') && SizeOk(ino', blk, i') && Content(ino', blk, i') == Content(ino0, blk0, i')
    {
      assert SizeOk(ino0, blk0, i');
      OthersKept(g, ino0, blk0, owner0, ino, blk, i');
      assert forall k: nat :: k < ino[i'].size ==> ByteAt(ino', blk, i', k) == ByteAt(ino, blk, i', k);
    }
  }

  /** One turn of readi's loop reads a stretch of the contents. */
  lemma ChunkRead(ino: seq<Inode>, blk: seq<Block>, i: nat, pos: nat, m: nat)
    requires i < |ino| && ino[i].size <= MAXFILE * BSIZE && pos + m <= ino[i].size && 0 < m
    requires pos % BSIZE + m <= BSIZE && FileBlock(ino, blk, i, pos / BSIZE) < |blk|
    ensures blk[FileBlock(ino, blk, i, pos / BSIZE)][pos % BSIZE..pos % BSIZE + m] == Content(ino, blk, i)[pos..pos + m]
  {
    var chunk := blk[FileBlock(ino, blk, i, pos / BSIZE)][pos % BSIZE..pos % BSIZE + m];
    var c := Content(ino, blk, i);
    forall k: nat | k < m ensures chunk[k] == c[pos..pos + m][k] {
      assert (pos + k) / BSIZE == pos / BSIZE && (pos + k) % BSIZE == pos % BSIZE + k;
      assert c[pos + k] == ByteAt(ino, blk, i, pos + k);
    }
  }

  // ----- truncation -----

  /** Freeing an owned block whose bit is still set: the bit was set, so there is no panic,
      and only that bit changes. */
  lemma FreeKeeps(g: Geometry, ino: seq<Inode>, blk: seq<Block>, owner: map<nat, Owner>, freed: set<nat>, b: nat)
    requires Owned(g, ino, blk, owner) && Bits(g, blk, owner, freed) && b in owner && b !in freed
    ensures b < g.size && Bit(blk, g.bmapstart, b)
    ensures var u := PutBit(blk, g.bmapstart, b, false);
            && Owned(g, ino, u, owner) && Bits(g, u, owner, freed + {b})
            && forall c: nat :: g.nmeta <= c < |blk| ==> u[c] == blk[c]
  {
    assert OwnerOk(g, ino, blk, owner, b) && BitOk(g, blk, owner, freed, b);
    var m := g.bmapstart + b / BPB;
    assert OwnerOk(g, ino, blk, owner, m);
    var x := PutBlockBit(blk[m], b % BPB, false);
    OwnedKept(g, ino, blk, owner, m, x);
    var u, freed' := blk[m := x], freed + {b};
    forall c: nat ensures BitOk(g, u, owner, freed', c) {
      assert BitOk(g, blk, owner, freed, c);
      if c < g.size { BitPut(blk, g.bmapstart, b, false, c); }
    }
  }

  lemma BitsDrop(g: Geometry, blk: seq<Block>, owner: map<nat, Owner>, freed: set<nat>)
    requires Bits(g, blk, owner, freed)
    ensures Bits(g, blk, owner - freed, {})
  {
    var owner' := owner - freed;
    forall c: nat ensures BitOk(g, blk, owner', {}, c) {
      assert BitOk(g, blk, owner, freed, c);
    }
  }

  /** The owners left when the first j direct slots of inode i have been emptied. */
  ghost function Left(owner: map<nat, Owner>, i: nat, j: nat): map<nat, Owner>
  {
    map b | b in owner && !(owner[b].inum == i && owner[b].slot.Direct? && owner[b].slot.j < j) :: owner[b]
  }

  lemma LeftNext(g: Geometry, ino: seq<Inode>, blk: seq<Block>, owner0: map<nat, Owner>, i: nat, j: nat, b: nat)
    requires i < |ino| && j < NDIRECT && b == ino[i].addrs[j]
    requires Owned(g, ino, blk, Left(owner0, i, j))
    ensures Left(owner0, i, j + 1) == Left(owner0, i, j) - (if b == 0 then {} else {b})
  {
    var owner := Left(owner0, i, j);
    assert SlotOk(ino, blk, owner, i, Direct(j));
    forall c: nat | c in owner && owner[c] == Owner(i, Direct(j)) ensures c == b && b != 0 {
      assert OwnerOk(g, ino, blk, owner, c);
    }
  }

  /** One turn of itrunc's first loop. */
  lemma DropDirect(g: Geometry, ino: seq<Inode>, blk: seq<Block>, owner0: map<nat, Owner>, i: nat, j: nat, b: nat)
    requires i < |ino| && j < NDIRECT && b == ino[i].addrs[j] && b != 0
    requires Owned(g, ino, blk, Left(owner0, i, j)) && Bits(g, blk, Left(owner0, i, j), {})
    ensures b < g.size && Bit(blk, g.bmapstart, b)
    ensures var u := PutBit(blk, g.bmapstart, b, false);
            var ino' := ino[i := ino[i].(addrs := ino[i].addrs[j := 0])];
            && Owned(g, ino', u, Left(owner0, i, j + 1)) && Bits(g, u, Left(owner0, i, j + 1), {})
            && forall c: nat :: g.nmeta <= c < |blk| ==> u[c] == blk[c]
  {
    var owner := Left(owner0, i, j);
    assert SlotOk(ino, blk, owner, i, Direct(j)) && OwnerOk(g, ino, blk, owner, b);
    FreeKeeps(g, ino, blk, owner, {}, b);
    var u := PutBit(blk, g.bmapstart, b, false);
    var ino' := ino[i := ino[i].(addrs := ino[i].addrs[j := 0])];
    forall i': nat, s: Slot | i' < |ino| && SlotIn(s)
      ensures SlotVal(ino', u, i', s) == if SlotVal(ino, u, i', s) in {b} then 0 else SlotVal(ino, u, i', s)
    {
      assert SlotOk(ino, u, owner, i', s) && SlotOk(ino, u, owner, i, Direct(j));
    }
    OwnedDropped(g, ino, u, owner, ino', {b});
    assert {} + {b} == {b};
    BitsDrop(g, u, owner, {b});
    LeftNext(g, ino, blk, owner0, i, j, b);
  }

  /** The blocks named by the first j entries of a table. */
  ghost function Entries(t: Block, j: nat): set<nat>
    requires j <= NINDIRECT
  {
    set q: nat | q < j && GetWord(t, q) != 0 :: GetWord(t, q)
  }

  lemma EntryOwned(g: Geometry, ino: seq<Inode>, blk: seq<Block>, owner: map<nat, Owner>, i: nat, q: nat, t: Block)
    requires Owned(g, ino, blk, owner) && i < |ino| && q < NINDIRECT
    requires 0 < ino[i].addrs[NDIRECT] < |blk| && blk[ino[i].addrs[NDIRECT]] == t
    ensures GetWord(t, q) != 0 ==> GetWord(t, q) in owner && owner[GetWord(t, q)] == Owner(i, Indirect(q))
  {
    assert SlotVal(ino, blk, i, Indirect(q)) == GetWord(t, q);
    assert SlotOk(ino, blk, owner, i, Indirect(q));
  }

  /** One turn of itrunc's second loop. */
  lemma FreeEntry(g: Geometry, ino: seq<Inode>, blk: seq<Block>, owner: map<nat, Owner>, i: nat, j: nat, t: Block)
    requires Owned(g, ino, blk, owner) && i < |ino| && j < NINDIRECT
    requires 0 < ino[i].addrs[NDIRECT] < |blk| && blk[ino[i].addrs[NDIRECT]] == t
    ensures GetWord(t, j) != 0 ==> GetWord(t, j) in owner && GetWord(t, j) !in Entries(t, j)
    ensures Entries(t, j + 1) == if GetWord(t, j) == 0 then Entries(t, j) else Entries(t, j) + {GetWord(t, j)}
  {
    EntryOwned(g, ino, blk, owner, i, j, t);
    if GetWord(t, j) != 0 && GetWord(t, j) in Entries(t, j) {
      var q: nat :| q < j && GetWord(t, q) == GetWord(t, j);
      EntryOwned(g, ino, blk, owner, i, q, t);
    }
  }

  /** Clearing the slot of the table empties it and all slots in it. */
  lemma DropTable(g: Geometry, ino: seq<Inode>, blk: seq<Block>, owner: map<nat, Owner>, i: nat)
    requires Owned(g, ino, blk, owner) && i < |ino|
    requires 0 < ino[i].addrs[NDIRECT] < |blk|
    ensures var t := ino[i].addrs[NDIRECT];
            var gone := Entries(blk[t], NINDIRECT) + {t};
            var ino' := ino[i := ino[i].(addrs := ino[i].addrs[NDIRECT := 0])];
            && t in owner && t !in Entries(blk[t], NINDIRECT)
            && Owned(g, ino', blk, owner - gone)
            && forall c: nat :: c in owner && owner[c].inum == i && !owner[c].slot.Direct? ==> c in gone
  {
    var t := ino[i].addrs[NDIRECT];
    var gone := Entries(blk[t], NINDIRECT) + {t};
    var ino' := ino[i := ino[i].(addrs := ino[i].addrs[NDIRECT := 0])];
    assert SlotOk(ino, blk, owner, i, Table);
    forall c: nat | c in Entries(blk[t], NINDIRECT)
      ensures c in owner && owner[c].inum == i && owner[c].slot.Indirect?
    {
      var q: nat :| q < NINDIRECT && GetWord(blk[t], q) != 0 && GetWord(blk[t], q) == c;
      assert SlotVal(ino, blk, i, Indirect(q)) == c;
      assert SlotOk(ino, blk, owner, i, Indirect(q));
    }
    forall c: nat | c in owner && owner[c].inum == i && !owner[c].slot.Direct? ensures c in gone {
      assert OwnerOk(g, ino, blk, owner, c);
    }
    forall i': nat, s: Slot | i' < |ino| && SlotIn(s)
      ensures SlotVal(ino', blk, i', s) == if SlotVal(ino, blk, i', s) in gone then 0 else SlotVal(ino, blk, i', s)
    {
      assert SlotOk(ino, blk, owner, i', s);
    }
    OwnedDropped(g, ino, blk, owner, ino', gone);
  }

  /** Freed entries belong to inode i, one slot each. */
  lemma TableGone(g: Geometry, ino: seq<Inode>, blk: seq<Block>, owner: map<nat, Owner>, i: nat)
    requires Owned(g, ino, blk, owner) && i < |ino| && 0 < ino[i].addrs[NDIRECT] < |blk|
    ensures forall c: nat :: c in Entries(blk[ino[i].addrs[NDIRECT]], NINDIRECT) + {ino[i].addrs[NDIRECT]} ==>
      c in owner && owner[c].inum == i && !owner[c].slot.Direct?
  {
    var t := ino[i].addrs[NDIRECT];
    assert SlotOk(ino, blk, owner, i, Table);
    forall c: nat | c in Entries(blk[t], NINDIRECT) ensures c in owner && owner[c].inum == i && !owner[c].slot.Direct? {
      var q: nat :| q < NINDIRECT && GetWord(blk[t], q) != 0 && GetWord(blk[t], q) == c;
      EntryOwned(g, ino, blk, owner, i, q, blk[t]);
    }
  }

  /** What truncation leaves of everybody else. */
  lemma TruncatedOthers(g: Geometry, ino: seq<Inode>, blk: seq<Block>, owner: map<nat, Owner>,
                        ino': seq<Inode>, blk': seq<Block>, i: nat, k: nat)
    requires FsInv(g, ino, blk, owner) && |ino'| == |ino| && |blk'| == |blk|
    requires k != i && k < |ino| && ino'[k] == ino[k]
    requires forall c: nat :: g.nmeta <= c < |blk| ==> blk'[c] == blk[c]
    ensures SizeOk(ino, blk, k) && SizeOk(ino', blk', k) && Content(ino', blk', k) == Content(ino, blk, k)
  {
    assert SizeOk(ino, blk, k);
    forall bn: nat ensures KeptAt(ino, blk, ino', blk', k, bn) {
      if bn < MAXFILE {
        if FileBlock(ino, blk, k, bn) != 0 { SlotInRange(g, ino, blk, owner, k, FileSlot(bn)); }
        if ino[k].addrs[NDIRECT] != 0 { SlotInRange(g, ino, blk, owner, k, Table); }
      }
    }
    forall bn: nat | bn < MAXFILE && bn * BSIZE < ino'[k].size ensures FileBlock(ino', blk', k, bn) != 0 {
      assert KeptAt(ino, blk, ino', blk', k, bn);
    }
    OthersKept(g, ino, blk, owner, ino', blk', k);
  }

  lemma TruncDone(g: Geometry, ino0: seq<Inode>, blk0: seq<Block>, owner0: map<nat, Owner>,
                  ino: seq<Inode>, blk: seq<Block>, owner: map<nat, Owner>, i: nat)
    requires FsInv(g, ino0, blk0, owner0) && Owned(g, ino, blk, owner) && Bits(g, blk, owner, {})
    requires i < |ino0| == |ino| && ino[i].addrs == seq(NDIRECT + 1, _ => 0)
    requires forall k: nat :: k < |ino| && k != i ==> ino[k] == ino0[k]
    requires forall c: nat :: g.nmeta <= c < |blk| ==> blk[c] == blk0[c]
    requires forall c: nat :: c in owner ==> c in owner0 && owner[c] == owner0[c]
    requires forall c: nat :: c in owner0 && owner0[c].inum != i ==> c in owner
    ensures var ino' := ino[i := ino[i].(size := 0)];
            && FsInv(g, ino', blk, owner)
            && owner == (map b | b in owner0 && owner0[b].inum != i :: owner0[b])
            && (forall c: nat :: c < g.size ==>
                  (Bit(blk, g.bmapstart, c) <==>
                     Bit(blk0, g.bmapstart, c) && !(c in owner0 && owner0[c].inum == i)))
            && (forall k: nat :: k < |ino| && k != i ==>
                  SizeOk(ino0, blk0, k) && SizeOk(ino', blk, k) && Content(ino', blk, k) == Content(ino0, blk0, k))
  {
    var ino' := ino[i := ino[i].(size := 0)];
    forall b: nat ensures OwnerOk(g, ino', blk, owner, b) {
      assert OwnerOk(g, ino, blk, owner, b);
    }
    forall k: nat, s: Slot ensures SlotOk(ino', blk, owner, k, s) {
      assert SlotOk(ino, blk, owner, k, s);
    }
    forall c: nat | c in owner ensures owner[c].inum != i {
      assert OwnerOk(g, ino, blk, owner, c);
    }
    forall c: nat | c < g.size
      ensures Bit(blk, g.bmapstart, c) <==>
              Bit(blk0, g.bmapstart, c) && !(c in owner0 && owner0[c].inum == i)
    {
      assert BitOk(g, blk, owner, {}, c) && BitOk(g, blk0, owner0, {}, c) && OwnerOk(g, ino0, blk0, owner0, c);
    }
    forall k: nat | k < |ino| && k != i
      ensures SizeOk(ino0, blk0, k) && SizeOk(ino', blk, k) && Content(ino', blk, k) == Content(ino0, blk0, k)
    {
      TruncatedOthers(g, ino0, blk0, owner0, ino', blk, i, k);
    }
    assert SizeOk(ino', blk, i);
  }

  // ----- how many blocks a write takes -----

  predicate Clear(g: Geometry, blk: seq<Block>, b: nat)
    requires g.bmapstart + b / BPB < |blk|
  {
    !Bit(blk, g.bmapstart, b)
  }

  /** The blocks whose bit is clear. */
  ghost function ClearBlocks(g: Geometry, blk: seq<Block>): set<nat>
    requires g.Ok() && |blk| == g.size
  {
    set b: nat | b < g.size && Clear(g, blk, b)
  }

  predicate IsData(nmeta: nat, b: nat)
  {
    nmeta <= b
  }

  ghost function DataBlocks(nmeta: nat, size: nat): set<nat>
  {
    set b: nat | b < size && IsData(nmeta, b)
  }

  lemma {:induction false} DataCount(nmeta: nat, size: nat)
    requires nmeta <= size
    ensures |DataBlocks(nmeta, size)| == size - nmeta
  {
    if nmeta == size {
      assert DataBlocks(nmeta, size) == {};
    } else {
      DataCount(nmeta, size - 1);
      assert DataBlocks(nmeta, size) == DataBlocks(nmeta, size - 1) + {size - 1};
    }
  }

  /** Every data block is clear or owned. */
  lemma ClearCount(g: Geometry, ino: seq<Inode>, blk: seq<Block>, owner: map<nat, Owner>)
    requires FsInv(g, ino, blk, owner)
    ensures |ClearBlocks(g, blk)| + |owner| == g.size - g.nmeta
  {
    var clear, data := ClearBlocks(g, blk), DataBlocks(g.nmeta, g.size);
    forall b: nat ensures b in data <==> b in clear || b in owner.Keys {
      assert OwnerOk(g, ino, blk, owner, b);
      if b < g.size {
        assert BitOk(g, blk, owner, {}, b);
        assert Clear(g, blk, b) <==> !Bit(blk, g.bmapstart, b);
      }
    }
    forall b: nat | b in clear ensures b !in owner.Keys {
      assert BitOk(g, blk, owner, {}, b) && OwnerOk(g, ino, blk, owner, b);
    }
    assert data == clear + owner.Keys && clear * owner.Keys == {};
    DataCount(g.nmeta, g.size);
  }

  /** How many of the blocks lo up to hi of a file are not there. */
  ghost function Missing(ino: seq<Inode>, blk: seq<Block>, i: nat, lo: nat, hi: nat): nat
    requires i < |ino| && hi <= MAXFILE
    decreases hi - lo
  {
    if lo >= hi then 0
    else (if FileBlock(ino, blk, i, lo) == 0 then 1 else 0) + Missing(ino, blk, i, lo + 1, hi)
  }

  /** The blocks that it takes to have them, with the indirect table. */
  ghost function Needed(ino: seq<Inode>, blk: seq<Block>, i: nat, lo: nat, hi: nat): nat
    requires i < |ino| && hi <= MAXFILE
  {
    Missing(ino, blk, i, lo, hi) + if lo < hi && NDIRECT < hi && ino[i].addrs[NDIRECT] == 0 then 1 else 0
  }

  /** The block after the last of those that n bytes at off lie in. */
  function EndBlock(off: nat, n: nat): (hi: nat)
    ensures off + n <= MAXFILE * BSIZE ==> hi <= MAXFILE
  {
    if n == 0 then off / BSIZE else (off + n - 1) / BSIZE + 1
  }

  /** The blocks that writing n bytes at off takes. */
  ghost function WriteNeeds(ino: seq<Inode>, blk: seq<Block>, i: nat, off: nat, n: nat): nat
    requires i < |ino| && off + n <= MAXFILE * BSIZE
  {
    Needed(ino, blk, i, off / BSIZE, EndBlock(off, n))
  }

  lemma {:induction false} MissingSame(ino: seq<Inode>, blk: seq<Block>, ino': seq<Inode>, blk': seq<Block>,
                                       i: nat, lo: nat, hi: nat)
    requires i < |ino| == |ino'| && hi <= MAXFILE
    requires forall bn: nat :: lo <= bn < hi ==> FileBlock(ino', blk', i, bn) == FileBlock(ino, blk, i, bn)
    ensures Missing(ino', blk', i, lo, hi) == Missing(ino, blk, i, lo, hi)
    decreases hi - lo
  {
    if lo < hi {
      MissingSame(ino, blk, ino', blk', i, lo + 1, hi);
    }
  }

  /** A block beyond the direct ones is there only with the table. */
  lemma TableThere(ino: seq<Inode>, blk: seq<Block>, i: nat, bn: nat)
    requires i < |ino| && NDIRECT <= bn < MAXFILE && FileBlock(ino, blk, i, bn) != 0
    ensures ino[i].addrs[NDIRECT] != 0
  {
  }

  /** What is still needed after block bn has been filled in. */
  lemma NeededAfter(ino: seq<Inode>, blk: seq<Block>, ino': seq<Inode>, blk': seq<Block>, i: nat, bn: nat, hi: nat)
    requires i < |ino| && bn < hi <= MAXFILE && Extends(ino, blk, ino', blk', i, bn)
    requires FileBlock(ino', blk', i, bn) != 0
    requires ino'[i].addrs[NDIRECT] == 0 <==> ino[i].addrs[NDIRECT] == 0 && bn < NDIRECT
    ensures Needed(ino', blk', i, bn, hi) + Needed(ino, blk, i, bn, bn + 1) == Needed(ino, blk, i, bn, hi)
  {
    forall c: nat | bn < c < hi ensures FileBlock(ino', blk', i, c) == FileBlock(ino, blk, i, c) {
      assert KeptAt(ino, blk, ino', blk', i, c);
    }
    MissingSame(ino, blk, ino', blk', i, bn + 1, hi);
    assert Missing(ino, blk, i, bn + 1, bn + 1) == 0;
  }

  lemma NeededOne(ino: seq<Inode>, blk: seq<Block>, i: nat, bn: nat)
    requires i < |ino| && bn < MAXFILE
    ensures Needed(ino, blk, i, bn, bn + 1) ==
            (if FileBlock(ino, blk, i, bn) == 0 then 1 else 0)
            + if NDIRECT <= bn && ino[i].addrs[NDIRECT] == 0 then 1 else 0
  {
    assert Missing(ino, blk, i, bn + 1, bn + 1) == 0;
  }

  lemma NeededAtLeast(ino: seq<Inode>, blk: seq<Block>, i: nat, bn: nat, hi: nat)
    requires i < |ino| && bn < hi <= MAXFILE
    ensures Needed(ino, blk, i, bn, bn + 1) <= Needed(ino, blk, i, bn, hi)
  {
    assert Missing(ino, blk, i, bn + 1, bn + 1) == 0;
  }

  /** On to the next block. */
  lemma NeededNext(ino: seq<Inode>, blk: seq<Block>, i: nat, bn: nat, hi: nat)
    requires i < |ino| && bn < hi <= MAXFILE && FileBlock(ino, blk, i, bn) != 0
    ensures Needed(ino, blk, i, bn + 1, hi) == Needed(ino, blk, i, bn, hi)
  {
    if NDIRECT <= bn {
      TableThere(ino, blk, i, bn);
    }
  }

  /** The block that is written next. */
  function NextBlock(off: nat, n: nat, tot: nat): nat
  {
    if tot >= n then EndBlock(off, n) else (off + tot) / BSIZE
  }

  /** The blocks taken so far, and those that the rest takes, are what the write takes. */
  ghost predicate Accounted(ino0: seq<Inode>, blk0: seq<Block>, owner0: map<nat, Owner>,
                            ino: seq<Inode>, blk: seq<Block>, owner: map<nat, Owner>,
                            i: nat, off: nat, n: nat, tot: nat)
  {
    && i < |ino0| && i < |ino| && off + n <= MAXFILE * BSIZE
    && |owner| + Needed(ino, blk, i, NextBlock(off, n, tot), EndBlock(off, n))
       == |owner0| + WriteNeeds(ino0, blk0, i, off, n)
  }

  lemma ChunkBlock(off: nat, n: nat, tot: nat, m: nat, hi: nat)
    requires tot < n && off + n <= MAXFILE * BSIZE && hi == EndBlock(off, n)
    requires m == if n - tot < BSIZE - (off + tot) % BSIZE then n - tot else BSIZE - (off + tot) % BSIZE
    ensures 0 < m && tot + m <= n && (off + tot) % BSIZE + m <= BSIZE && (off + tot) / BSIZE < hi <= MAXFILE
    ensures NextBlock(off, n, tot) == (off + tot) / BSIZE && NextBlock(off, n, tot + m) == (off + tot) / BSIZE + 1
  {
    var bn, r := (off + tot) / BSIZE, (off + tot) % BSIZE;
    assert off + tot == bn * BSIZE + r;
    if tot + m == n {
      assert off + n - 1 == bn * BSIZE + (r + m - 1) && 0 <= r + m - 1 < BSIZE;
    } else {
      assert off + tot + m == (bn + 1) * BSIZE;
    }
  }

  datatype WriteResult = Wrote(n: nat) | Failed | DiskFull

  class FileSystem {
    const g: Geometry
    const ino: array<Inode>
    const blk: array<Block>
    ghost var owner: map<nat, Owner>

    ghost predicate Valid()
      reads this, ino, blk
    {
      FsInv(g, ino[..], blk[..], owner)
    }

    constructor (g: Geometry, ino: array<Inode>, blk: array<Block>, ghost owner: map<nat, Owner>)
      requires FsInv(g, ino[..], blk[..], owner)
      ensures Valid() && this.g == g && this.ino == ino && this.blk == blk && this.owner == owner
    {
      this.g, this.ino, this.blk, this.owner := g, ino, blk, owner;
    }

    /** No block is free. */
    ghost predicate Full()
      reads blk
    {
      g.Ok() && blk.Length == g.size && forall c: nat :: c < g.size ==> Bit(blk[..], g.bmapstart, c)
    }

    /** balloc: the lowest block whose bit is clear, marked and zeroed; None is the panic
        for a full disk. */
    method Balloc() returns (r: Option<nat>)
      requires g.Ok() && blk.Length == g.size
      modifies blk
      ensures r.None? ==> blk[..] == old(blk[..]) && Full()
      ensures r.Some? ==>
        && r.value < g.size && !Bit(old(blk[..]), g.bmapstart, r.value)
        && (forall c: nat :: c < r.value ==> Bit(old(blk[..]), g.bmapstart, c))
        && blk[..] == Allocated(g, old(blk[..]), r.value)
    {
      var b := 0;
      while b < g.size
        invariant b % BPB == 0
        invariant forall c: nat :: c < b && c < g.size ==> Bit(blk[..], g.bmapstart, c)
        invariant blk[..] == old(blk[..])
      {
        var bp := blk[g.bmapstart + b / BPB];
        var bi := 0;
        while bi < BPB && b + bi < g.size
          invariant 0 <= bi <= BPB
          invariant forall c: nat :: c < b + bi && c < g.size ==> Bit(blk[..], g.bmapstart, c)
          invariant blk[..] == old(blk[..])
        {
          assert (b + bi) / BPB == b / BPB && (b + bi) % BPB == bi;
          if !BlockBit(bp, bi) {
            blk[g.bmapstart + b / BPB] := PutBlockBit(bp, bi, true);
            blk[b + bi] := Zeros();
            return Some(b + bi);
          }
          assert Bit(blk[..], g.bmapstart, b + bi);
          bi := bi + 1;
        }
        b := b + BPB;
      }
      return None;
    }

    /** bfree: clears the bit; false is the panic "freeing free block". */
    method Bfree(b: nat) returns (ok: bool)
      requires g.Ok() && blk.Length == g.size && b < g.size
      modifies blk
      ensures ok <==> Bit(old(blk[..]), g.bmapstart, b)
      ensures blk[..] == if ok then PutBit(old(blk[..]), g.bmapstart, b, false) else old(blk[..])
    {
      var bp := blk[g.bmapstart + b / BPB];
      var bi := b % BPB;
      if !BlockBit(bp, bi) {
        return false;
      }
      blk[g.bmapstart + b / BPB] := PutBlockBit(bp, bi, false);
      return true;
    }

    /** balloc finds no block exactly if every data block is owned. */
    lemma NoneClear(ino0: seq<Inode>, blk0: seq<Block>, owner0: map<nat, Owner>, r: Option<nat>)
      requires FsInv(g, ino0, blk0, owner0)
      requires r.None? ==> forall c: nat :: c < g.size ==> Bit(blk0, g.bmapstart, c)
      requires r.Some? ==> r.value < g.size && !Bit(blk0, g.bmapstart, r.value)
      ensures r.None? <==> |owner0| == g.size - g.nmeta
      ensures r.Some? ==> r.value !in owner0
    {
      ClearCount(g, ino0, blk0, owner0);
      if r.None? {
        forall b: nat | b < g.size ensures !Clear(g, blk0, b) {
          assert Bit(blk0, g.bmapstart, b);
        }
        assert ClearBlocks(g, blk0) == {};
      } else {
        assert Clear(g, blk0, r.value);
        assert r.value in ClearBlocks(g, blk0);
        assert BitOk(g, blk0, owner0, {}, r.value);
      }
    }

    /** ip->addrs[j] = balloc(). */
    method FillAddr(i: nat, j: nat) returns (r: Option<nat>)
      requires Valid() && i < ino.Length && j <= NDIRECT && ino[i].addrs[j] == 0
      modifies this`owner, ino, blk
      ensures Valid()
      ensures r.None? ==> ino[..] == old(ino[..]) && blk[..] == old(blk[..]) && owner == old(owner) && Full()
      ensures r.None? <==> |old(owner)| == g.size - g.nmeta
      ensures r.Some? ==> |owner| == |old(owner)| + 1
      ensures j < NDIRECT ==> ino[i].addrs[NDIRECT] == old(ino[i].addrs[NDIRECT])
      ensures r.Some? ==>
        && 0 < r.value < g.size && blk[r.value] == Zeros() && ino[i].addrs[j] == r.value
        && SlotVal(old(ino[..]), old(blk[..]), i, if j < NDIRECT then Direct(j) else Table) == 0
        && FilledSlot(old(ino[..]), old(blk[..]), old(owner), ino[..], blk[..], i,
                      if j < NDIRECT then Direct(j) else Table, r.value)
    {
      ghost var s := if j < NDIRECT then Direct(j) else Table;
      ghost var ino0, blk0 := ino[..], blk[..];
      r := Balloc();
      NoneClear(ino0, blk0, owner, r);
      if r.Some? {
        FillAddrKeeps(g, ino0, blk0, owner, i, j, r.value);
        FilledExtends(g, ino0, blk0, owner, ino0[i := ino0[i].(addrs := ino0[i].addrs[j := r.value])], blk[..],
                      i, s, r.value, if j < NDIRECT then j else 0);
        ino[i] := ino[i].(addrs := ino[i].addrs[j := r.value]);
        assert ino[..] == ino0[i := ino0[i].(addrs := ino0[i].addrs[j := r.value])];
        owner := owner[r.value := Owner(i, s)];
      }
    }

    /** a[j] = balloc() in the indirect table. */
    method FillEntry(i: nat, j: nat) returns (r: Option<nat>)
      requires Valid() && i < ino.Length && j < NINDIRECT
      requires ino[i].addrs[NDIRECT] != 0 && SlotVal(ino[..], blk[..], i, Indirect(j)) == 0
      modifies this`owner, blk
      ensures Valid()
      ensures r.None? ==> blk[..] == old(blk[..]) && owner == old(owner) && Full()
      ensures r.None? <==> |old(owner)| == g.size - g.nmeta
      ensures r.Some? ==> |owner| == |old(owner)| + 1
      ensures r.Some? ==>
        && 0 < r.value < g.size && blk[r.value] == Zeros()
        && FilledSlot(ino[..], old(blk[..]), old(owner), ino[..], blk[..], i, Indirect(j), r.value)
    {
      ghost var ino0, blk0 := ino[..], blk[..];
      r := Balloc();
      NoneClear(ino0, blk0, owner, r);
      if r.Some? {
        FillEntryKeeps(g, ino0, blk0, owner, i, j, r.value);
        var t := ino[i].addrs[NDIRECT];
        ghost var u := blk[..];
        FilledExtends(g, ino0, blk0, owner, ino0, u[t := PutWord(u[t], j, r.value)], i, Indirect(j), r.value,
          j + NDIRECT);
        blk[t] := PutWord(blk[t], j, r.value);
        assert blk[..] == u[t := PutWord(u[t], j, r.value)];
        owner := owner[r.value := Owner(i, Indirect(j))];
      }
    }

    /** The rest of bmap once the indirect table is there. */
    method BmapIndirect(i: nat, bn: nat) returns (r: Option<nat>)
      requires Valid() && i < ino.Length && NDIRECT <= bn < MAXFILE && ino[i].addrs[NDIRECT] != 0
      modifies this`owner, blk
      ensures Valid()
      ensures Extends(ino[..], old(blk[..]), ino[..], blk[..], i, bn)
      ensures r.Some? ==>
        && r.value == FileBlock(ino[..], blk[..], i, bn) && 0 < r.value < g.size
        && (FileBlock(ino[..], old(blk[..]), i, bn) == 0 ==> blk[r.value] == Zeros())
      ensures FileBlock(ino[..], old(blk[..]), i, bn) != 0 ==>
        r.Some? && blk[..] == old(blk[..]) && owner == old(owner)
      ensures r.Some? ==>
        && ino[i].addrs[NDIRECT] < blk.Length
        && r.value == GetWord(blk[ino[i].addrs[NDIRECT]], bn - NDIRECT)
      ensures r.None? ==> Full()
      ensures r.None? <==> |old(owner)| == g.size - g.nmeta && FileBlock(ino[..], old(blk[..]), i, bn) == 0
      ensures r.Some? ==> |owner| == |old(owner)| + if FileBlock(ino[..], old(blk[..]), i, bn) == 0 then 1 else 0
    {
      ghost var blk0, owner0 := blk[..], owner;
      var j := bn - NDIRECT;
      SlotInRange(g, ino[..], blk0, owner, i, Table);
      var addr := GetWord(blk[ino[i].addrs[NDIRECT]], j);
      if addr != 0 {
        SlotInRange(g, ino[..], blk0, owner, i, Indirect(j));
        return Some(addr);
      }
      r := FillEntry(i, j);
      if r.Some? {
        FilledExtends(g, ino[..], blk0, owner0, ino[..], blk[..], i, Indirect(j), r.value, bn);
        FilePlace(ino[..], blk[..], i, bn);
      }
    }

    /** bmap: the block behind block bn of file i, allocated if it was not there.  Nothing
        else that any file has is touched. */
    method Bmap(i: nat, bn: nat) returns (r: Option<nat>)
      requires Valid() && i < ino.Length && bn < MAXFILE
      modifies this`owner, ino, blk
      ensures Valid()
      ensures Extends(old(ino[..]), old(blk[..]), ino[..], blk[..], i, bn)
      ensures r.Some? ==>
        && r.value == FileBlock(ino[..], blk[..], i, bn) && 0 < r.value < g.size
        && (FileBlock(old(ino[..]), old(blk[..]), i, bn) == 0 ==> blk[r.value] == Zeros())
      ensures FileBlock(old(ino[..]), old(blk[..]), i, bn) != 0 ==>
        r.Some? && ino[..] == old(ino[..]) && blk[..] == old(blk[..]) && owner == old(owner)
      ensures r.Some? && bn < NDIRECT ==> r.value == ino[i].addrs[bn]
      ensures r.Some? && NDIRECT <= bn ==>
        && ino[i].addrs[NDIRECT] < blk.Length
        && r.value == GetWord(blk[ino[i].addrs[NDIRECT]], bn - NDIRECT)
      ensures r.None? ==> Full()
      ensures r.None? <==> |old(owner)| + Needed(old(ino[..]), old(blk[..]), i, bn, bn + 1) > g.size - g.nmeta
      ensures r.Some? ==> |owner| == |old(owner)| + Needed(old(ino[..]), old(blk[..]), i, bn, bn + 1)
      ensures r.Some? ==> (ino[i].addrs[NDIRECT] == 0 <==> old(ino[i].addrs[NDIRECT]) == 0 && bn < NDIRECT)
    {
      ghost var ino0, blk0, owner0 := ino[..], blk[..], owner;
      ClearCount(g, ino0, blk0, owner0);
      NeededOne(ino0, blk0, i, bn);
      if bn < NDIRECT {
        var addr := ino[i].addrs[bn];
        if addr != 0 {
          SlotInRange(g, ino0, blk0, owner, i, Direct(bn));
          return Some(addr);
        }
        r := FillAddr(i, bn);
        if r.Some? {
          FilledExtends(g, ino0, blk0, owner0, ino[..], blk[..], i, Direct(bn), r.value, bn);
          FilePlace(ino[..], blk[..], i, bn);
        }
        return;
      }
      if ino[i].addrs[NDIRECT] == 0 {
        r := FillAddr(i, NDIRECT);
        if r.None? {
          return;
        }
        FilledExtends(g, ino0, blk0, owner0, ino[..], blk[..], i, Table, r.value, bn);
        assert FileBlock(ino[..], blk[..], i, bn) == FileBlock(ino0, blk0, i, bn) == 0;
      }
      ghost var ino1, blk1 := ino[..], blk[..];
      r := BmapIndirect(i, bn);
      ExtendsTrans(ino0, blk0, ino1, blk1, ino[..], blk[..], i, bn);
    }

    ghost function Bytes(i: nat): (c: seq<Byte>)
      requires Valid() && i < ino.Length
      reads this, ino, blk
    {
      assert SizeOk(ino[..], blk[..], i);
      Content(ino[..], blk[..], i)
    }

    /** One turn of writei's loop. */
    method WriteChunk(i: nat, src: seq<Byte>, off: nat, tot: nat, m: nat, ghost ino0: seq<Inode>,
                      ghost blk0: seq<Block>, ghost hi: nat)
      returns (ok: bool)
      requires Valid() && Writing(ino0, blk0, ino[..], blk[..], i, off, src, tot)
      requires 0 < m && tot + m <= |src| && off + |src| <= MAXFILE * BSIZE
      requires (off + tot) % BSIZE + m <= BSIZE && (off + tot) / BSIZE < hi <= MAXFILE
      modifies this`owner, ino, blk
      ensures Valid()
      ensures Writing(ino0, blk0, ino[..], blk[..], i, off, src, if ok then tot + m else tot)
      ensures !ok ==> Full()
      ensures !ok ==>
        |old(owner)| + Needed(old(ino[..]), old(blk[..]), i, (off + tot) / BSIZE, hi) > g.size - g.nmeta
      ensures ok ==>
        && FileBlock(ino[..], blk[..], i, (off + tot) / BSIZE) != 0
        && |owner| + Needed(ino[..], blk[..], i, (off + tot) / BSIZE, hi)
           == |old(owner)| + Needed(old(ino[..]), old(blk[..]), i, (off + tot) / BSIZE, hi)
    {
      ghost var ino1, blk1 := ino[..], blk[..];
      var bn := (off + tot) / BSIZE;
      var r := Bmap(i, bn);
      NeededAtLeast(ino1, blk1, i, bn, hi);
      WritingMapped(ino0, blk0, ino1, blk1, ino[..], blk[..], i, off, src, tot, bn);
      if r.None? {
        return false;
      }
      ghost var blk2 := blk[..];
      NeededAfter(ino1, blk1, ino[..], blk2, i, bn, hi);
      var x := BlockSplice(blk[r.value], (off + tot) % BSIZE, src[tot..tot + m]);
      DataWrite(g, ino[..], blk2, owner, i, bn, x);
      blk[r.value] := x;
      assert blk[..] == blk2[r.value := x];
      WritingMoved(ino0, blk0, ino[..], blk2, blk[..], i, off, src, tot, m);
      forall c: nat | bn <= c < hi ensures FileBlock(ino[..], blk[..], i, c) == FileBlock(ino[..], blk2, i, c) {
        assert c != bn ==> KeptAt(ino[..], blk2, ino[..], blk[..], i, c);
      }
      MissingSame(ino[..], blk2, ino[..], blk[..], i, bn, hi);
      return true;
    }

    /** One turn of writei's loop, and what is left to do. */
    method WriteTurn(i: nat, src: seq<Byte>, off: nat, tot: nat, ghost ino0: seq<Inode>, ghost blk0: seq<Block>,
                     ghost owner0: map<nat, Owner>)
      returns (ok: bool, tot': nat)
      requires Valid() && Writing(ino0, blk0, ino[..], blk[..], i, off, src, tot)
      requires tot < |src| && Accounted(ino0, blk0, owner0, ino[..], blk[..], owner, i, off, |src|, tot)
      modifies this`owner, ino, blk
      ensures Valid() && Writing(ino0, blk0, ino[..], blk[..], i, off, src, tot')
      ensures !ok ==> Full() && |owner0| + WriteNeeds(ino0, blk0, i, off, |src|) > g.size - g.nmeta
      ensures ok ==>
        && tot < tot' <= |src|
        && Accounted(ino0, blk0, owner0, ino[..], blk[..], owner, i, off, |src|, tot')
    {
      ghost var hi := EndBlock(off, |src|);
      var m := if |src| - tot < BSIZE - (off + tot) % BSIZE then |src| - tot else BSIZE - (off + tot) % BSIZE;
      ChunkBlock(off, |src|, tot, m, hi);
      ok := WriteChunk(i, src, off, tot, m, ino0, blk0, hi);
      if !ok {
        return false, tot;
      }
      NeededNext(ino[..], blk[..], i, (off + tot) / BSIZE, hi);
      return true, tot + m;
    }

    /** writei on a file or directory: the contents with src written over them at off, longer
        if need be; every other file as it was. */
    method Writei(i: nat, src: seq<Byte>, off: nat) returns (r: WriteResult)
      requires Valid() && i < ino.Length && |src| < WORDMAX && off < WORDMAX
      modifies this`owner, ino, blk
      ensures Valid()
      ensures r.Failed? <==> off > old(ino[i].size) || off + |src| >= WORDMAX || off + |src| > MAXFILE * BSIZE
      ensures r.Failed? ==> ino[..] == old(ino[..]) && blk[..] == old(blk[..])
      ensures r.Wrote? ==> r.n == |src| && Bytes(i) == Splice(old(Bytes(i)), off, src)
      ensures r.DiskFull? ==> Full()
      ensures r.DiskFull? <==>
        !r.Failed? && |ClearBlocks(g, old(blk[..]))| < WriteNeeds(old(ino[..]), old(blk[..]), i, off, |src|)
      ensures forall i': nat :: i' < ino.Length && i' != i ==> Bytes(i') == old(Bytes(i'))
    {
      if off > ino[i].size || off + |src| >= WORDMAX {
        return Failed;
      }
      if off + |src| > MAXFILE * BSIZE {
        return Failed;
      }
      ghost var ino0, blk0, owner0 := ino[..], blk[..], owner;
      WritingStart(ino0, blk0, i, off, src);
      ClearCount(g, ino0, blk0, owner0);
      var tot := 0;
      while tot < |src|
        invariant 0 <= tot <= |src| && Valid()
        invariant Writing(ino0, blk0, ino[..], blk[..], i, off, src, tot)
        invariant Accounted(ino0, blk0, owner0, ino[..], blk[..], owner, i, off, |src|, tot)
      {
        var ok;
        ok, tot := WriteTurn(i, src, off, tot, ino0, blk0, owner0);
        if !ok {
          forall i': nat | i' < ino.Length && i' != i
            ensures SizeOk(ino0, blk0, i') && Bytes(i') == Content(ino0, blk0, i')
          {
            OthersKept(g, ino0, blk0, owner0, ino[..], blk[..], i');
          }
          return DiskFull;
        }
      }
      ClearCount(g, ino[..], blk[..], owner);
      WritingDone(g, ino0, blk0, owner0, ino[..], blk[..], owner, i, off, src);
      ghost var ino1 := ino[..];
      if |src| > 0 && off + |src| > ino[i].size {
        ino[i] := ino[i].(size := off + |src|);
      }
      assert ino[..] == ino1[i := ino1[i].(size := GrownSize(ino1[i].size, off, |src|))];
      return Wrote(|src|);
    }

    /** One turn of readi's loop. */
    method ReadChunk(i: nat, pos: nat, m: nat) returns (chunk: seq<Byte>)
      requires Valid() && i < ino.Length && 0 < m && pos + m <= ino[i].size && pos % BSIZE + m <= BSIZE
      modifies this`owner, ino, blk
      ensures Valid() && ino[..] == old(ino[..]) && blk[..] == old(blk[..]) && owner == old(owner)
      ensures chunk == Bytes(i)[pos..pos + m]
    {
      assert SizeOk(ino[..], blk[..], i);
      assert pos / BSIZE * BSIZE < ino[i].size;
      assert FileBlock(ino[..], blk[..], i, pos / BSIZE) != 0;
      var b := Bmap(i, pos / BSIZE);
      chunk := blk[b.value][pos % BSIZE..pos % BSIZE + m];
      ChunkRead(ino[..], blk[..], i, pos, m);
    }

    /** readi's loop. */
    method ReadBytes(i: nat, off: nat, len: nat) returns (dst: seq<Byte>)
      requires Valid() && i < ino.Length && off + len <= ino[i].size
      modifies this`owner, ino, blk
      ensures Valid() && ino[..] == old(ino[..]) && blk[..] == old(blk[..]) && owner == old(owner)
      ensures dst == Bytes(i)[off..off + len]
    {
      ghost var c := Bytes(i);
      assert SizeOk(ino[..], blk[..], i);
      dst := [];
      while |dst| < len
        invariant |dst| <= len
        invariant Valid() && ino[..] == old(ino[..]) && blk[..] == old(blk[..]) && owner == old(owner)
        invariant dst == c[off..off + |dst|]
        decreases len - |dst|
      {
        var pos := off + |dst|;
        var m := if len - |dst| < BSIZE - pos % BSIZE then len - |dst| else BSIZE - pos % BSIZE;
        var chunk := ReadChunk(i, pos, m);
        dst := dst + chunk;
      }
    }

    /** readi on a file or directory: the bytes from off on, as many as there are up to n.
        It calls bmap, but with every block below the size in place nothing is allocated. */
    method Readi(i: nat, off: nat, n: nat) returns (r: Option<seq<Byte>>)
      requires Valid() && i < ino.Length && off < WORDMAX && n < WORDMAX
      modifies this`owner, ino, blk
      ensures Valid() && ino[..] == old(ino[..]) && blk[..] == old(blk[..]) && owner == old(owner)
      ensures r.None? <==> off > ino[i].size || off + n >= WORDMAX
      ensures r.Some? ==>
        r.value == Bytes(i)[off..if off + n > ino[i].size then ino[i].size else off + n]
      ensures r.Some? ==> |r.value| == if off + n > ino[i].size then ino[i].size - off else n
      ensures r.Some? ==> forall k: nat :: k < |r.value| ==> IsByte(ino[i], blk[..], off + k, r.value[k])
    {
      if off > ino[i].size || off + n >= WORDMAX {
        return None;
      }
      var len := if off + n > ino[i].size then ino[i].size - off else n;
      var dst := ReadBytes(i, off, len);
      assert SizeOk(ino[..], blk[..], i);
      ContentBytes(g, ino[..], blk[..], owner, i, off, dst);
      return Some(dst);
    }

    /** itrunc's first loop: the direct blocks. */
    method FreeDirect(i: nat) returns (ok: bool)
      requires Valid() && i < ino.Length
      modifies this`owner, ino, blk
      ensures ok
      ensures Owned(g, ino[..], blk[..], owner) && Bits(g, blk[..], owner, {})
      ensures owner == Left(old(owner), i, NDIRECT)
      ensures ino[..] == old(ino[..])[i := ino[i]] && ino[i].size == old(ino[i].size)
      ensures ino[i].addrs == seq(NDIRECT, _ => 0) + [old(ino[i].addrs[NDIRECT])]
      ensures forall c: nat :: g.nmeta <= c < blk.Length ==> blk[c] == old(blk[c])
    {
      ghost var owner0 := owner;
      var j := 0;
      assert Left(owner0, i, 0) == owner0;
      while j < NDIRECT
        invariant 0 <= j <= NDIRECT && owner == Left(owner0, i, j)
        invariant Owned(g, ino[..], blk[..], owner) && Bits(g, blk[..], owner, {})
        invariant forall k :: 0 <= k < ino.Length && k != i ==> ino[k] == old(ino[k])
        invariant ino[i].size == old(ino[i].size)
        invariant forall q :: 0 <= q <= NDIRECT ==> ino[i].addrs[q] == if q < j then 0 else old(ino[i].addrs[q])
        invariant forall c: nat :: g.nmeta <= c < blk.Length ==> blk[c] == old(blk[c])
      {
        var b := ino[i].addrs[j];
        LeftNext(g, ino[..], blk[..], owner0, i, j, b);
        if b != 0 {
          ghost var ino1, blk1 := ino[..], blk[..];
          DropDirect(g, ino1, blk1, owner0, i, j, b);
          var freed := Bfree(b);
          if !freed {
            return false;
          }
          ino[i] := ino[i].(addrs := ino[i].addrs[j := 0]);
          assert ino[..] == ino1[i := ino1[i].(addrs := ino1[i].addrs[j := 0])];
          assert forall c: nat :: g.nmeta <= c < blk.Length ==> blk[..][c] == blk1[c];
          owner := owner - {b};
        }
        j := j + 1;
      }
      return true;
    }

    /** itrunc's second loop: the blocks listed in the indirect table. */
    method FreeEntries(i: nat) returns (ok: bool)
      requires Owned(g, ino[..], blk[..], owner) && Bits(g, blk[..], owner, {}) && i < ino.Length
      requires 0 < ino[i].addrs[NDIRECT] < blk.Length && g.nmeta <= ino[i].addrs[NDIRECT]
      modifies blk
      ensures ok
      ensures forall c: nat :: g.nmeta <= c < blk.Length ==> blk[c] == old(blk[c])
      ensures Owned(g, ino[..], blk[..], owner)
      ensures Bits(g, blk[..], owner, Entries(blk[ino[i].addrs[NDIRECT]], NINDIRECT))
    {
      var t := blk[ino[i].addrs[NDIRECT]];
      var j := 0;
      assert Entries(t, 0) == {};
      while j < NINDIRECT
        invariant 0 <= j <= NINDIRECT
        invariant Owned(g, ino[..], blk[..], owner) && Bits(g, blk[..], owner, Entries(t, j))
        invariant forall c: nat :: g.nmeta <= c < blk.Length ==> blk[c] == old(blk[c])
      {
        FreeEntry(g, ino[..], blk[..], owner, i, j, t);
        var a := GetWord(t, j);
        if a != 0 {
          ghost var blk1 := blk[..];
          FreeKeeps(g, ino[..], blk1, owner, Entries(t, j), a);
          var freed := Bfree(a);
          if !freed {
            return false;
          }
          assert forall c: nat :: g.nmeta <= c < blk.Length ==> blk[..][c] == blk1[c];
        }
        j := j + 1;
      }
      return true;
    }

    /** The indirect half of itrunc. */
    method FreeTable(i: nat) returns (ok: bool)
      requires Owned(g, ino[..], blk[..], owner) && Bits(g, blk[..], owner, {}) && i < ino.Length
      requires ino[i].addrs[NDIRECT] != 0
      modifies this`owner, ino, blk
      ensures ok
      ensures Owned(g, ino[..], blk[..], owner) && Bits(g, blk[..], owner, {})
      ensures ino[..] == old(ino[..])[i := old(ino[i]).(addrs := old(ino[i].addrs)[NDIRECT := 0])]
      ensures forall c: nat :: g.nmeta <= c < blk.Length ==> blk[c] == old(blk[c])
      ensures forall c: nat :: c in owner ==> c in old(owner) && owner[c] == old(owner)[c]
      ensures forall c: nat :: c in old(owner) && (old(owner)[c].inum != i || old(owner)[c].slot.Direct?) ==> c in owner
    {
      ghost var ino0 := ino[..];
      SlotInRange(g, ino[..], blk[..], owner, i, Table);
      var tb := ino[i].addrs[NDIRECT];
      ok := FreeEntries(i);
      if !ok {
        return;
      }
      ghost var blk1 := blk[..];
      ghost var gone := Entries(blk1[tb], NINDIRECT);
      DropTable(g, ino0, blk1, owner, i);
      TableGone(g, ino0, blk1, owner, i);
      FreeKeeps(g, ino0, blk1, owner, gone, tb);
      ok := Bfree(tb);
      if !ok {
        return;
      }
      assert blk[..][tb] == blk1[tb];
      assert forall c: nat :: g.nmeta <= c < blk.Length ==> blk[..][c] == blk1[c];
      DropTable(g, ino0, blk[..], owner, i);
      BitsDrop(g, blk[..], owner, gone + {tb});
      ino[i] := ino[i].(addrs := ino[i].addrs[NDIRECT := 0]);
      assert ino[..] == ino0[i := ino0[i].(addrs := ino0[i].addrs[NDIRECT := 0])];
      owner := owner - (gone + {tb});
    }

    /** itrunc: the file is empty, exactly the blocks it owned are free again, and nothing else
        has changed.  The panic in bfree is never reached. */
    method Itrunc(i: nat) returns (ok: bool)
      requires Valid() && i < ino.Length
      modifies this`owner, ino, blk
      ensures ok && Valid()
      ensures ino[..] == old(ino[..])[i := Inode(0, seq(NDIRECT + 1, _ => 0))]
      ensures owner == map b | b in old(owner) && old(owner)[b].inum != i :: old(owner)[b]
      ensures forall c: nat :: c < g.size ==>
        (Bit(blk[..], g.bmapstart, c) <==>
           Bit(old(blk[..]), g.bmapstart, c) && !(c in old(owner) && old(owner)[c].inum == i))
      ensures forall c: nat :: g.nmeta <= c < blk.Length ==> blk[c] == old(blk[c])
      ensures forall i': nat :: i' < ino.Length && i' != i ==> Bytes(i') == old(Bytes(i'))
    {
      ghost var ino0, blk0, owner0 := ino[..], blk[..], owner;
      ok := FreeDirect(i);
      if ino[i].addrs[NDIRECT] != 0 {
        ok := FreeTable(i);
      }
      ghost var ino1 := ino[..];
      TruncDone(g, ino0, blk0, owner0, ino1, blk[..], owner, i);
      ino[i] := ino[i].(size := 0);
      assert ino[..] == ino1[i := ino1[i].(size := 0)];
    }
  }
}
