/** Disk blocks, the little-endian words inside them, and sequences of block writes.

    A block is BSIZE bytes (include/xv6/fs.h).  One block write is atomic; a disk is a
    finite map from block addresses to blocks and every change to it is a `Write`. */
module Blocks {
  const BSIZE: nat := 1024
  const WORDS: nat := 256
  const WORDMAX: nat := 0x1_0000_0000

  type Byte = x: int | 0 <= x < 256
  type Block = b: seq<Byte> | |b| == BSIZE witness seq(BSIZE, _ => 0)

  datatype Addr = Addr(dev: nat, bno: nat)
  datatype Write = Write(at: Addr, data: Block)
  type Disk = map<Addr, Block>

  /** The i-th 32-bit word of a block. */
  function GetWord(b: Block, i: nat): (v: nat)
    requires i < WORDS
  {
    var b0: int, b1: int, b2: int, b3: int := b[4 * i], b[4 * i + 1], b[4 * i + 2], b[4 * i + 3];
    b0 + 0x100 * b1 + 0x1_0000 * b2 + 0x100_0000 * b3
  }

  function PutWord(b: Block, i: nat, v: nat): (r: Block)
    requires i < WORDS && v < WORDMAX
  {
    b[4 * i := v % 0x100][4 * i + 1 := v / 0x100 % 0x100]
    [4 * i + 2 := v / 0x1_0000 % 0x100][4 * i + 3 := v / 0x100_0000]
  }

  lemma SplitWord(v: nat)
    requires v < WORDMAX
    ensures v % 0x100 + 0x100 * (v / 0x100 % 0x100) + 0x1_0000 * (v / 0x1_0000 % 0x100)
            + 0x100_0000 * (v / 0x100_0000) == v
    ensures v / 0x100_0000 < 0x100
  {
    assert v / 0x1_0000 == (v / 0x100) / 0x100;
    assert v / 0x100_0000 == (v / 0x1_0000) / 0x100;
  }

  /** Words are little-endian: the digits of a word to base 256 are its bytes, lowest first. */
  lemma WordBytes(b: Block, i: nat)
    requires i < WORDS
    ensures GetWord(b, i) % 0x100 == b[4 * i] && GetWord(b, i) / 0x100 % 0x100 == b[4 * i + 1]
    ensures GetWord(b, i) / 0x1_0000 % 0x100 == b[4 * i + 2] && GetWord(b, i) / 0x100_0000 == b[4 * i + 3]
  {
    var b0: int, b1: int, b2: int, b3: int := b[4 * i], b[4 * i + 1], b[4 * i + 2], b[4 * i + 3];
    var v := GetWord(b, i);
    var v1 := b1 + 0x100 * b2 + 0x1_0000 * b3;
    var v2 := b2 + 0x100 * b3;
    assert v == b0 + 0x100 * v1 && v1 == b1 + 0x100 * v2;
    assert v / 0x100 == v1 && v1 / 0x100 == v2 && v2 / 0x100 == b3;
    assert v / 0x1_0000 == v2 && v / 0x100_0000 == b3;
  }

  /** Storing a word and reading it back, and every other word untouched. */
  lemma GetPutWord(b: Block, i: nat, v: nat, j: nat)
    requires i < WORDS && j < WORDS && v < WORDMAX
    ensures GetWord(PutWord(b, i, v), j) == if i == j then v else GetWord(b, j)
  {
    SplitWord(v);
  }

  /** The disk after a sequence of writes, oldest first. */
  function Apply(d: Disk, ws: seq<Write>): (r: Disk)
  {
    if ws == [] then d
    else Apply(d, ws[..|ws| - 1])[ws[|ws| - 1].at := ws[|ws| - 1].data]
  }

  predicate Targets(ws: seq<Write>, a: Addr)
  {
    exists i :: 0 <= i < |ws| && ws[i].at == a
  }

  lemma TargetsPrefix(ws: seq<Write>, k: nat, a: Addr)
    requires k <= |ws|
    ensures Targets(ws[..k], a) ==> Targets(ws, a)
  {
    if Targets(ws[..k], a) {
      var i :| 0 <= i < k && ws[..k][i].at == a;
      assert ws[i].at == a;
    }
  }

  lemma {:induction false} ApplyKeys(d: Disk, ws: seq<Write>)
    requires forall i :: 0 <= i < |ws| ==> ws[i].at in d
    ensures Apply(d, ws).Keys == d.Keys
  {
    if ws != [] {
      ApplyKeys(d, ws[..|ws| - 1]);
    }
  }

  lemma StepPrefix(d: Disk, ws: seq<Write>, k: nat)
    requires k < |ws|
    ensures Apply(d, ws[..k + 1]) == Apply(d, ws[..k])[ws[k].at := ws[k].data]
  {
    assert ws[..k + 1][..k] == ws[..k];
  }

  lemma {:induction false} ApplyConcat(d: Disk, u: seq<Write>, v: seq<Write>)
    ensures Apply(d, u + v) == Apply(Apply(d, u), v)
  {
    if v == [] {
      assert u + v == u;
    } else {
      var m := |v| - 1;
      assert (u + v)[..|u + v| - 1] == u + v[..m];
      ApplyConcat(d, u, v[..m]);
    }
  }

  lemma {:induction false} ApplyOther(d: Disk, ws: seq<Write>, a: Addr)
    requires !Targets(ws, a)
    ensures a in Apply(d, ws) <==> a in d
    ensures a in d ==> Apply(d, ws)[a] == d[a]
  {
    if ws != [] {
      var m := |ws| - 1;
      assert ws[m].at != a;
      TargetsPrefix(ws, m, a);
      ApplyOther(d, ws[..m], a);
    }
  }

  /** What a sequence of writes leaves at an address it touches does not depend on the
      disk it started from. */
  lemma {:induction false} ApplyTarget(d: Disk, e: Disk, ws: seq<Write>, a: Addr)
    requires Targets(ws, a)
    ensures a in Apply(d, ws) && a in Apply(e, ws)
    ensures Apply(d, ws)[a] == Apply(e, ws)[a]
  {
    var m := |ws| - 1;
    if ws[m].at != a {
      var i :| 0 <= i < |ws| && ws[i].at == a;
      assert ws[..m][i].at == a;
      ApplyTarget(d, e, ws[..m], a);
    }
  }

  /** Writes that copy a snapshot `v` leave `v` at every address they touch. */
  lemma {:induction false} ApplySnapshot(d: Disk, v: Disk, ws: seq<Write>, a: Addr)
    requires forall i :: 0 <= i < |ws| ==> ws[i].at in v && ws[i].data == v[ws[i].at]
    requires Targets(ws, a)
    ensures a in Apply(d, ws) && a in v && Apply(d, ws)[a] == v[a]
  {
    var m := |ws| - 1;
    if ws[m].at != a {
      var i :| 0 <= i < |ws| && ws[i].at == a;
      assert ws[..m][i].at == a;
      ApplySnapshot(d, v, ws[..m], a);
    }
  }

  /** Restarting a sequence of writes after any prefix of it gives the same disk. */
  lemma ApplyRestart(d: Disk, ws: seq<Write>, k: nat)
    requires k <= |ws|
    requires forall i :: 0 <= i < |ws| ==> ws[i].at in d
    ensures Apply(Apply(d, ws[..k]), ws) == Apply(d, ws)
  {
    var e := Apply(d, ws[..k]);
    ApplyKeys(d, ws[..k]);
    ApplyKeys(d, ws);
    ApplyKeys(e, ws);
    forall a | a in d
      ensures Apply(e, ws)[a] == Apply(d, ws)[a]
    {
      if Targets(ws, a) {
        ApplyTarget(d, e, ws, a);
      } else {
        ApplyOther(d, ws, a);
        ApplyOther(e, ws, a);
        TargetsPrefix(ws, k, a);
        ApplyOther(d, ws[..k], a);
      }
    }
  }
}
