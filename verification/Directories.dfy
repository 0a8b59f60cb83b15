/** Directories are files of 16-byte entries (kern/fs.c): looking a name up, adding one. */
module Directories {
  import opened Blocks
  import opened Files
  import opened Options

  const DIRSIZ: nat := 14
  const DIRENT: nat := 16

  /** A NUL-terminated string, or all of it if there is no NUL. */
  function Terminated(s: seq<Byte>): (r: seq<Byte>)
  {
    if s == [] || s[0] == 0 then [] else [s[0]] + Terminated(s[1..])
  }

  /** As much of a name as an entry holds. */
  function Cut(name: seq<Byte>): (r: seq<Byte>)
  {
    if |name| > DIRSIZ then name[..DIRSIZ] else name
  }

  function Inum(c: seq<Byte>, off: nat): (r: nat)
    requires off + DIRENT <= |c|
  {
    var lo: int, hi: int := c[off], c[off + 1];
    lo + 0x100 * hi
  }

  function NameAt(c: seq<Byte>, off: nat): (r: seq<Byte>)
    requires off + DIRENT <= |c|
  {
    Terminated(c[off + 2..off + DIRENT])
  }

  /** Entry `off` is in use and has this name. */
  predicate Names(c: seq<Byte>, off: nat, name: seq<Byte>)
    requires off + DIRENT <= |c|
  {
    Inum(c, off) != 0 && NameAt(c, off) == Cut(name)
  }

  predicate IsString(name: seq<Byte>)
  {
    0 !in name
  }

  lemma {:induction false} TerminatedIs(s: seq<Byte>)
    ensures var n := |Terminated(s)|;
            n <= |s| && Terminated(s) == s[..n] && 0 !in s[..n] && (n == |s| || s[n] == 0)
  {
    if s != [] && s[0] != 0 {
      TerminatedIs(s[1..]);
      var n := |Terminated(s)|;
      assert s[..n] == [s[0]] + s[1..][..n - 1];
    }
  }

  lemma EntryBytes(c: seq<Byte>, c': seq<Byte>, p: nat)
    requires p + DIRENT <= |c| && p + DIRENT <= |c'| && c'[p..p + DIRENT] == c[p..p + DIRENT]
    ensures Inum(c', p) == Inum(c, p) && NameAt(c', p) == NameAt(c, p)
  {
    assert c[p] == c[p..p + DIRENT][0] && c[p + 1] == c[p..p + DIRENT][1];
    assert c'[p] == c'[p..p + DIRENT][0] && c'[p + 1] == c'[p..p + DIRENT][1];
    assert c[p + 2..p + DIRENT] == c[p..p + DIRENT][2..];
    assert c'[p + 2..p + DIRENT] == c'[p..p + DIRENT][2..];
  }

  /** A directory entry, byte by byte: the inode number in two, low byte first, then the name up to
      the first zero or all of the DIRSIZ bytes. */
  lemma EntryLayout(c: seq<Byte>, off: nat)
    requires off + DIRENT <= |c|
    ensures Inum(c, off) % 0x100 == c[off] && Inum(c, off) / 0x100 == c[off + 1]
    ensures var n := NameAt(c, off);
            && |n| <= 14 && n == c[off + 2..off + 2 + |n|] && 0 !in n && (|n| == 14 || c[off + 2 + |n|] == 0)
  {
    TerminatedIs(c[off + 2..off + DIRENT]);
  }

  /** Names are told apart by their first 14 bytes. */
  lemma CutIs(name: seq<Byte>)
    ensures Cut(name) <= name && |Cut(name)| == if |name| > 14 then 14 else |name|
  {
  }

  /** A slot of the directory. */
  predicate EntryIn(c: seq<Byte>, off: int)
  {
    0 <= off && off % DIRENT == 0 && off + DIRENT <= |c|
  }

  /** The inode number a directory gives a name: that of the first entry with the name, or 0. */
  function LookupFrom(c: seq<Byte>, name: seq<Byte>, off: nat): (inum: nat)
    decreases |c| - off
  {
    if off + DIRENT > |c| then 0
    else if Names(c, off, name) then Inum(c, off)
    else LookupFrom(c, name, off + DIRENT)
  }

  function Lookup(c: seq<Byte>, name: seq<Byte>): (inum: nat)
  {
    LookupFrom(c, name, 0)
  }

  lemma {:induction false} LookupFirst(c: seq<Byte>, name: seq<Byte>, off: nat, at: nat)
    requires off % DIRENT == 0 && off <= at && EntryIn(c, at) && Names(c, at, name)
    requires forall p :: EntryIn(c, p) && off <= p < at ==> !Names(c, p, name)
    ensures LookupFrom(c, name, off) == Inum(c, at)
    decreases |c| - off
  {
    assert off == at || EntryIn(c, off);
    if off < at {
      LookupFirst(c, name, off + DIRENT, at);
    }
  }

  lemma {:induction false} LookupNone(c: seq<Byte>, name: seq<Byte>, off: nat)
    requires off % DIRENT == 0
    requires forall p :: EntryIn(c, p) && off <= p ==> !Names(c, p, name)
    ensures LookupFrom(c, name, off) == 0
    decreases |c| - off
  {
    if off + DIRENT <= |c| {
      assert EntryIn(c, off);
      LookupNone(c, name, off + DIRENT);
    }
  }

  // ----- strncmp and strncpy of kern/string.c -----

  lemma {:induction false} TerminatedPrefix(s: seq<Byte>, k: nat)
    requires k <= |s| && 0 !in s[..k]
    ensures Terminated(s) == s[..k] + Terminated(s[k..])
  {
    if k > 0 {
      assert s[0] == s[..k][0];
      assert s[1..][..k - 1] == s[..k][1..];
      TerminatedPrefix(s[1..], k - 1);
      assert s[1..][k - 1..] == s[k..];
    } else {
      assert s[0..] == s;
    }
  }

  /** namecmp: equal as far as DIRSIZ bytes or a NUL. */
  method Namecmp(name: seq<Byte>, field: seq<Byte>) returns (same: bool)
    requires IsString(name) && |field| == DIRSIZ
    ensures same <==> Terminated(field) == Cut(name)
  {
    var k := 0;
    while k < DIRSIZ && k < |name| && name[k] == field[k]
      invariant 0 <= k <= DIRSIZ && k <= |name|
      invariant name[..k] == field[..k]
    {
      k := k + 1;
    }
    TerminatedPrefix(field, k);
    if k == DIRSIZ {
      assert field[k..] == [] && name[..k] == Cut(name);
      same := true;
    } else {
      var p := if k < |name| then name[k] else 0;
      same := p == field[k];
      assert field[k..][0] == field[k];
      if k < |name| {
        assert Cut(name)[k] == name[k];
      } else {
        assert name[..k] == name == Cut(name);
      }
    }
  }

  /** strncpy(de.name, name, DIRSIZ): the name, padded with NULs. */
  function Padded(name: seq<Byte>): (r: seq<Byte>)
    ensures |r| == DIRSIZ
  {
    Cut(name) + seq(DIRSIZ - |Cut(name)|, _ => 0)
  }

  lemma PaddedName(name: seq<Byte>)
    requires IsString(name)
    ensures Terminated(Padded(name)) == Cut(name)
  {
    var s, k := Padded(name), |Cut(name)|;
    assert s[..k] == Cut(name);
    TerminatedPrefix(s, k);
    assert s[k..] == seq(DIRSIZ - k, _ => 0);
  }

  function Encode(inum: nat, name: seq<Byte>): (r: seq<Byte>)
    requires inum < 0x1_0000
    ensures |r| == DIRENT
  {
    [inum % 0x100, inum / 0x100] + Padded(name)
  }

  // ----- dirlookup -----

  /** readi of one entry. */
  method ReadEntry(fs: FileSystem, dp: nat, off: nat) returns (de: seq<Byte>)
    requires fs.Valid() && dp < fs.ino.Length && off + DIRENT <= fs.ino[dp].size
    modifies fs`owner, fs.ino, fs.blk
    ensures fs.Valid() && fs.ino[..] == old(fs.ino[..]) && fs.blk[..] == old(fs.blk[..])
    ensures |fs.Bytes(dp)| == fs.ino[dp].size
    ensures de == fs.Bytes(dp)[off..off + DIRENT]
  {
    assert SizeOk(fs.ino[..], fs.blk[..], dp);
    var r := fs.Readi(dp, off, DIRENT);
    de := r.value;
  }

  /** de.inum != 0 and the names compare equal. */
  method EntryMatches(ghost c: seq<Byte>, ghost off: nat, de: seq<Byte>, name: seq<Byte>) returns (same: bool)
    requires off + DIRENT <= |c| && de == c[off..off + DIRENT] && IsString(name)
    ensures same <==> Names(c, off, name)
  {
    assert de[0] == c[off] && de[1] == c[off + 1];
    if de[0] == 0 && de[1] == 0 {
      return false;
    }
    assert de[2..] == c[off + 2..off + DIRENT];
    same := Namecmp(name, de[2..]);
  }

  method SizeOf(fs: FileSystem, dp: nat) returns (size: nat)
    requires fs.Valid() && dp < fs.ino.Length
    ensures size == fs.ino[dp].size == |fs.Bytes(dp)|
  {
    size := fs.ino[dp].size;
  }

  ghost predicate NotBefore(c: seq<Byte>, name: seq<Byte>, off: int)
  {
    forall p :: EntryIn(c, p) && p < off ==> !Names(c, p, name)
  }

  lemma NotHere(c: seq<Byte>, name: seq<Byte>, off: nat)
    requires NotBefore(c, name, off) && EntryIn(c, off) && !Names(c, off, name)
    ensures NotBefore(c, name, off + DIRENT)
  {
  }

  /** The right answer of a lookup: the first entry with the name, or that there is none. */
  ghost predicate FoundAt(c: seq<Byte>, name: seq<Byte>, r: Option<nat>)
  {
    match r
    case Some(off) =>
      EntryIn(c, off) && Names(c, off, name) && NotBefore(c, name, off) && Lookup(c, name) == Inum(c, off) != 0
    case None =>
      NotBefore(c, name, |c|) && Lookup(c, name) == 0
  }

  lemma FoundHere(c: seq<Byte>, name: seq<Byte>, off: nat)
    requires EntryIn(c, off) && Names(c, off, name)
    requires NotBefore(c, name, off)
    ensures FoundAt(c, name, Some(off))
  {
    LookupFirst(c, name, 0, off);
  }

  lemma FoundNowhere(c: seq<Byte>, name: seq<Byte>)
    requires NotBefore(c, name, |c|)
    ensures FoundAt(c, name, None)
  {
    LookupNone(c, name, 0);
  }

  /** The first entry with the name, read entry by entry. */
  method Dirlookup(fs: FileSystem, dp: nat, name: seq<Byte>) returns (r: Option<nat>)
    requires fs.Valid() && dp < fs.ino.Length && fs.ino[dp].size % DIRENT == 0 && IsString(name)
    modifies fs`owner, fs.ino, fs.blk
    ensures fs.Valid() && fs.ino[..] == old(fs.ino[..]) && fs.blk[..] == old(fs.blk[..])
    ensures FoundAt(fs.Bytes(dp), name, r)
  {
    ghost var c := fs.Bytes(dp);
    var size := SizeOf(fs, dp);
    var off := 0;
    while off < size
      invariant 0 <= off <= size && off % DIRENT == 0
      invariant fs.Valid() && fs.ino[..] == old(fs.ino[..]) && fs.blk[..] == old(fs.blk[..])
      invariant NotBefore(c, name, off)
      decreases size - off
    {
      assert fs.Bytes(dp) == c;
      var de := ReadEntry(fs, dp, off);
      var same := EntryMatches(c, off, de, name);
      assert EntryIn(c, off);
      if same {
        FoundHere(c, name, off);
        return Some(off);
      }
      NotHere(c, name, off);
      off := off + DIRENT;
    }
    FoundNowhere(c, name);
    return None;
  }

  // ----- dirlink -----

  ghost predicate SameAt(c: seq<Byte>, c': seq<Byte>, name: seq<Byte>, p: int)
  {
    && (EntryIn(c, p) && Names(c, p, name) <==> EntryIn(c', p) && Names(c', p, name))
    && (EntryIn(c, p) && Names(c, p, name) ==> Inum(c', p) == Inum(c, p))
  }

  lemma {:induction false} LookupSame(c: seq<Byte>, c': seq<Byte>, name: seq<Byte>, off: nat)
    requires off % DIRENT == 0 && |c| <= |c'|
    requires forall p :: SameAt(c, c', name, p)
    ensures LookupFrom(c', name, off) == LookupFrom(c, name, off)
    decreases |c'| - off
  {
    if off + DIRENT <= |c'| {
      assert SameAt(c, c', name, off) && EntryIn(c', off);
      LookupSame(c, c', name, off + DIRENT);
    }
  }

  /** The entry that dirlink writes into: the first unused one, else past the end. */
  ghost predicate FreeSlot(c: seq<Byte>, off: nat)
  {
    && off % DIRENT == 0 && off <= |c|
    && (off < |c| ==> EntryIn(c, off) && Inum(c, off) == 0)
    && forall p :: EntryIn(c, p) && p < off ==> Inum(c, p) != 0
  }

  lemma SplicedEntry(c: seq<Byte>, off: nat, de: seq<Byte>, p: nat)
    requires |c| % DIRENT == 0 && off % DIRENT == 0 && off <= |c| && |de| == DIRENT
    ensures var c' := Splice(c, off, de);
            && |c'| % DIRENT == 0 && |c| <= |c'| && off + DIRENT <= |c'| && c'[off..off + DIRENT] == de
            && (p % DIRENT == 0 && p != off ==>
                  (EntryIn(c', p) <==> EntryIn(c, p)) && (EntryIn(c, p) ==> c'[p..p + DIRENT] == c[p..p + DIRENT]))
  {
  }

  lemma EncodedEntry(c: seq<Byte>, off: nat, inum: nat, name: seq<Byte>)
    requires off + DIRENT <= |c| && inum < 0x1_0000 && IsString(name)
    requires c[off..off + DIRENT] == Encode(inum, name)
    ensures Inum(c, off) == inum && NameAt(c, off) == Cut(name)
  {
    var e := Encode(inum, name);
    assert c[off] == e[0] && c[off + 1] == e[1] by {
      assert c[off..off + DIRENT][0] == e[0] && c[off..off + DIRENT][1] == e[1];
    }
    assert c[off + 2..off + DIRENT] == c[off..off + DIRENT][2..] == Padded(name);
    PaddedName(name);
  }

  /** Adding a name that was not there: it is found, and every other name resolves as before. */
  lemma LinkLookup(c: seq<Byte>, off: nat, name: seq<Byte>, inum: nat, other: seq<Byte>)
    requires |c| % DIRENT == 0 && FreeSlot(c, off) && IsString(name) && 0 < inum < 0x1_0000
    requires NotBefore(c, name, |c|)
    ensures var c' := Splice(c, off, Encode(inum, name));
            && |c'| % DIRENT == 0
            && Lookup(c', name) == inum
            && (Cut(other) != Cut(name) ==> Lookup(c', other) == Lookup(c, other))
  {
    var de := Encode(inum, name);
    var c' := Splice(c, off, de);
    SplicedEntry(c, off, de, 0);
    EncodedEntry(c', off, inum, name);
    forall p | EntryIn(c', p) && p < off ensures !Names(c', p, name) {
      SplicedEntry(c, off, de, p);
      EntryBytes(c, c', p);
    }
    LookupFirst(c', name, 0, off);
    if Cut(other) != Cut(name) {
      forall p ensures SameAt(c, c', other, p) {
        if 0 <= p && p % DIRENT == 0 && p != off {
          SplicedEntry(c, off, de, p);
          if EntryIn(c, p) { EntryBytes(c, c', p); }
        }
      }
      LookupSame(c, c', other, 0);
    }
  }

  ghost predicate AllUsed(c: seq<Byte>, off: int)
  {
    forall p :: EntryIn(c, p) && p < off ==> Inum(c, p) != 0
  }

  /** A directory of the greatest size a file can have, with every entry used. */
  ghost predicate DirFull(c: seq<Byte>)
  {
    |c| == MAXFILE * BSIZE && AllUsed(c, |c|)
  }

  lemma FullExactly(c: seq<Byte>, off: nat)
    requires |c| % DIRENT == 0 && |c| <= MAXFILE * BSIZE && FreeSlot(c, off)
    ensures off + DIRENT > MAXFILE * BSIZE <==> DirFull(c)
  {
    assert MAXFILE * BSIZE % DIRENT == 0;
  }

  /** An entry can only be added at the end, and there are not the blocks for it. */
  ghost predicate NoBlockFor(g: Geometry, ino: seq<Inode>, blk: seq<Block>, dp: nat, c: seq<Byte>)
    requires g.Ok() && |blk| == g.size && dp < |ino|
  {
    && AllUsed(c, |c|) && |c| + DIRENT <= MAXFILE * BSIZE
    && |ClearBlocks(g, blk)| < WriteNeeds(ino, blk, dp, |c|, DIRENT)
  }

  /** An entry within the directory takes no block. */
  lemma EntryThere(ino: seq<Inode>, blk: seq<Block>, dp: nat, off: nat)
    requires dp < |ino| && SizeOk(ino, blk, dp) && off % DIRENT == 0 && off < ino[dp].size
    requires off + DIRENT <= MAXFILE * BSIZE
    ensures WriteNeeds(ino, blk, dp, off, DIRENT) == 0
  {
    var bn := off / BSIZE;
    assert off == bn * BSIZE + off % BSIZE && off % BSIZE + DIRENT <= BSIZE;
    assert EndBlock(off, DIRENT) == bn + 1;
    assert FileBlock(ino, blk, dp, bn) != 0;
    NeededOne(ino, blk, dp, bn);
    if NDIRECT <= bn {
      TableThere(ino, blk, dp, bn);
    }
  }

  /** When there are not the blocks for an entry in the first free place. */
  lemma NoBlockExactly(g: Geometry, ino: seq<Inode>, blk: seq<Block>, dp: nat, c: seq<Byte>, off: nat)
    requires g.Ok() && |blk| == g.size && dp < |ino| && SizeOk(ino, blk, dp) && |c| == ino[dp].size
    requires |c| % DIRENT == 0 && FreeSlot(c, off)
    ensures NoBlockFor(g, ino, blk, dp, c) <==>
      off + DIRENT <= MAXFILE * BSIZE && |ClearBlocks(g, blk)| < WriteNeeds(ino, blk, dp, off, DIRENT)
  {
    if off < |c| {
      EntryThere(ino, blk, dp, off);
      assert !AllUsed(c, |c|);
    }
  }

  datatype LinkResult = Linked | Exists | NoRoom | DiskIsFull

  ghost predicate AddedTo(c: seq<Byte>, c': seq<Byte>, name: seq<Byte>, inum: nat)
    requires inum < 0x1_0000
  {
    && |c'| % DIRENT == 0 && Lookup(c', name) == inum
    && (exists off :: FreeSlot(c, off) && c' == Splice(c, off, Encode(inum, name)))
    && forall other: seq<Byte> :: Cut(other) != Cut(name) ==> Lookup(c', other) == Lookup(c, other)
  }

  lemma UsedHere(c: seq<Byte>, off: nat)
    requires AllUsed(c, off) && EntryIn(c, off) && Inum(c, off) != 0
    ensures AllUsed(c, off + DIRENT)
  {
  }

  /** dirlink's second loop: the first unused entry, else the end. */
  method FindFree(fs: FileSystem, dp: nat) returns (off: nat)
    requires fs.Valid() && dp < fs.ino.Length && fs.ino[dp].size % DIRENT == 0
    modifies fs`owner, fs.ino, fs.blk
    ensures fs.Valid() && fs.ino[..] == old(fs.ino[..]) && fs.blk[..] == old(fs.blk[..])
    ensures FreeSlot(fs.Bytes(dp), off)
  {
    ghost var c := fs.Bytes(dp);
    var size := SizeOf(fs, dp);
    off := 0;
    while off < size
      invariant 0 <= off <= size && off % DIRENT == 0
      invariant fs.Valid() && fs.ino[..] == old(fs.ino[..]) && fs.blk[..] == old(fs.blk[..])
      invariant AllUsed(c, off)
      decreases size - off
    {
      assert fs.Bytes(dp) == c;
      var de := ReadEntry(fs, dp, off);
      assert de[0] == c[off] && de[1] == c[off + 1];
      assert EntryIn(c, off);
      if de[0] == 0 && de[1] == 0 {
        break;
      }
      UsedHere(c, off);
      off := off + DIRENT;
    }
  }

  lemma Added(c: seq<Byte>, off: nat, name: seq<Byte>, inum: nat)
    requires |c| % DIRENT == 0 && FreeSlot(c, off) && IsString(name) && 0 < inum < 0x1_0000
    requires NotBefore(c, name, |c|)
    ensures AddedTo(c, Splice(c, off, Encode(inum, name)), name, inum)
  {
    var c' := Splice(c, off, Encode(inum, name));
    forall other: seq<Byte>
      ensures |c'| % DIRENT == 0 && Lookup(c', name) == inum
      ensures Cut(other) != Cut(name) ==> Lookup(c', other) == Lookup(c, other)
    {
      LinkLookup(c, off, name, inum, other);
    }
  }

  method PutEntry(fs: FileSystem, dp: nat, name: seq<Byte>, inum: nat, off: nat) returns (r: LinkResult)
    requires fs.Valid() && dp < fs.ino.Length && fs.ino[dp].size % DIRENT == 0 && IsString(name)
    requires 0 < inum < 0x1_0000 && FreeSlot(fs.Bytes(dp), off) && NotBefore(fs.Bytes(dp), name, |fs.Bytes(dp)|)
    modifies fs`owner, fs.ino, fs.blk
    ensures fs.Valid() && !r.Exists?
    ensures r.NoRoom? <==> DirFull(old(fs.Bytes(dp)))
    ensures r.NoRoom? ==> fs.Bytes(dp) == old(fs.Bytes(dp))
    ensures r.DiskIsFull? <==> NoBlockFor(fs.g, old(fs.ino[..]), old(fs.blk[..]), dp, old(fs.Bytes(dp)))
    ensures r.Linked? ==> AddedTo(old(fs.Bytes(dp)), fs.Bytes(dp), name, inum)
    ensures forall i: nat :: i < fs.ino.Length && i != dp ==> fs.Bytes(i) == old(fs.Bytes(i))
  {
    ghost var c := fs.Bytes(dp);
    assert SizeOk(fs.ino[..], fs.blk[..], dp);
    FullExactly(c, off);
    NoBlockExactly(fs.g, fs.ino[..], fs.blk[..], dp, c, off);
    var w := fs.Writei(dp, Encode(inum, name), off);
    if w.Failed? {
      return NoRoom;
    }
    if w.DiskFull? {
      return DiskIsFull;
    }
    Added(c, off, name, inum);
    return Linked;
  }

  /** dirlink: a new entry in the first unused slot.  NoRoom and DiskIsFull are its panics. */
  method Dirlink(fs: FileSystem, dp: nat, name: seq<Byte>, inum: nat) returns (r: LinkResult)
    requires fs.Valid() && dp < fs.ino.Length && fs.ino[dp].size % DIRENT == 0 && IsString(name)
    requires 0 < inum < 0x1_0000
    modifies fs`owner, fs.ino, fs.blk
    ensures fs.Valid()
    ensures r.Exists? <==> Lookup(old(fs.Bytes(dp)), name) != 0
    ensures r.NoRoom? <==> Lookup(old(fs.Bytes(dp)), name) == 0 && DirFull(old(fs.Bytes(dp)))
    ensures r.DiskIsFull? <==>
      && Lookup(old(fs.Bytes(dp)), name) == 0
      && NoBlockFor(fs.g, old(fs.ino[..]), old(fs.blk[..]), dp, old(fs.Bytes(dp)))
    ensures r.Exists? || r.NoRoom? ==> fs.Bytes(dp) == old(fs.Bytes(dp))
    ensures r.Linked? ==> AddedTo(old(fs.Bytes(dp)), fs.Bytes(dp), name, inum)
    ensures forall i: nat :: i < fs.ino.Length && i != dp ==> fs.Bytes(i) == old(fs.Bytes(i))
  {
    var found := Dirlookup(fs, dp, name);
    if found.Some? {
      return Exists;
    }
    var off := FindFree(fs, dp);
    r := PutEntry(fs, dp, name, inum, off);
  }
}
