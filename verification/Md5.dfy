/** MD5 (cmd/md5/md5c.c), streaming, against the message digest of RFC 1321. */
module Md5 {
  import opened BitArithmetic
  import opened Options

  const WRAP: nat := 0x1_0000_0000

  type Byte = x: int | 0 <= x < 256
  type Word = x: int | 0 <= x < WRAP
  type Shift = s: int | 0 < s < 32 witness 1
  type Slot = k: int | 0 <= k < 16

  datatype Hash = Hash(a: Word, b: Word, c: Word, d: Word)

  // ----- one block: section 3.4 of RFC 1321 -----

  function F(x: bv32, y: bv32, z: bv32): bv32 { (x & y) | (!x & z) }
  function G(x: bv32, y: bv32, z: bv32): bv32 { (x & z) | (y & !z) }
  function H(x: bv32, y: bv32, z: bv32): bv32 { x ^ y ^ z }
  function I(x: bv32, y: bv32, z: bv32): bv32 { y ^ (x | !z) }

  /** F takes each bit from y where x has a 1 and from z where it has a 0; G is F with z choosing. */
  lemma Choices(x: bv32, y: bv32, z: bv32)
    ensures F(x, y, z) & x == y & x && F(x, y, z) & !x == z & !x
    ensures G(x, y, z) == F(z, x, y)
  {
  }

  /** H keeps the bits of z where x and y agree, and flips them where they differ. */
  lemma Parity(x: bv32, y: bv32, z: bv32, m: bv32)
    ensures x & m == y & m ==> H(x, y, z) & m == z & m
    ensures x & m == !y & m ==> H(x, y, z) & m == !z & m
  {
  }

  /** I flips each bit of y where x has a 1 or z a 0, and keeps it elsewhere. */
  lemma FlipsBits(x: bv32, y: bv32, z: bv32)
    ensures I(x, y, z) & x == !y & x && I(x, y, z) & !z == !y & !z
    ensures I(x, y, z) & !x & z == y & !x & z
  {
  }

  lemma Pow32()
    ensures Pow2(32) == WRAP
  {
    assert Pow2(8) == 256;
    Pow2Sum(8, 8);
    Pow2Sum(16, 16);
  }

  lemma WordSize(n: Shift)
    ensures Pow2(n) * Pow2(32 - n) == WRAP && Pow2((32 - n) + n) == WRAP
  {
    Pow2Sum(n, 32 - n);
    Pow32();
    assert n + (32 - n) == 32 && (32 - n) + n == 32;
  }

  lemma TimesHigh(x: nat, a: nat, b: nat, p: nat, q: nat)
    requires x == b + a * q && p * q == WRAP
    ensures x * p == a * WRAP + b * p
  {
    assert (a * q) * p == a * (p * q);
  }

  lemma Parts(x: nat, q: nat, r: nat)
    requires x == q * WRAP + r && r < WRAP
    ensures x / WRAP == q && x % WRAP == r
  {
  }

  lemma ExchangedBy(x: nat, a: nat, b: nat, p: nat, q: nat)
    requires x == b + a * q && p * q == WRAP && a < p && b < q
    ensures x * p % WRAP == b * p && a + b * p < WRAP
  {
    LastMultiple(b, p, q);
    TimesHigh(x, a, b, p, q);
    Parts(x * p, a, b * p);
  }

  /** The n high bits of x, and the others multiplied by 2^n: they have no bit in common. */
  lemma Exchanged(x: Word, n: Shift, a: nat, b: nat)
    requires a == Shr(x, 32 - n) && b == Low(x, 32 - n)
    ensures x == b + a * Pow2(32 - n) && a < Pow2(n) && b < Pow2(32 - n)
    ensures x * Pow2(n) % WRAP == b * Pow2(n) && a + b * Pow2(n) < WRAP
  {
    WordSize(n);
    HighLow(x, 32 - n);
    ShrBound(x, n, 32 - n);
    ExchangedBy(x, a, b, Pow2(n), Pow2(32 - n));
  }

  lemma RotateFits(x: Word, n: Shift)
    ensures Or(x * Pow2(n) % WRAP, Shr(x, 32 - n)) == Shr(x, 32 - n) + Low(x, 32 - n) * Pow2(n) < WRAP
  {
    var a, b := Shr(x, 32 - n), Low(x, 32 - n);
    Exchanged(x, n, a, b);
    OrPlus(a, b, n);
  }

  /** ROTATE_LEFT: (x << n) | (x >> (32 - n)). */
  function RotateLeft(x: Word, n: Shift): (r: Word)
  {
    RotateFits(x, n);
    Or(x * Pow2(n) % WRAP, Shr(x, 32 - n))
  }

  /** Rotating, told by arithmetic. */
  lemma Rotated(x: Word, n: Shift)
    ensures RotateLeft(x, n) == x * Pow2(n) % WRAP + x / Pow2(32 - n)
  {
    RotateFits(x, n);
    Exchanged(x, n, Shr(x, 32 - n), Low(x, 32 - n));
    ShrIs(x, 32 - n);
  }

  /** Bit k of x becomes bit k + n, and the high bits come in below. */
  lemma RotatedBits(x: Word, n: Shift, k: nat, j: nat)
    requires k < 32 && j == if k < 32 - n then k + n else k + n - 32
    ensures Bit(RotateLeft(x, n), j) <==> Bit(x, k)
  {
    var a, b := Shr(x, 32 - n), Low(x, 32 - n);
    RotateFits(x, n);
    Exchanged(x, n, a, b);
    BitParts(b, a, 32 - n, k);
    BitParts(a, b, n, j);
  }

  /** Rotating on by the rest of 32 gives x back. */
  lemma RotatedBack(x: Word, n: Shift)
    ensures RotateLeft(RotateLeft(x, n), 32 - n) == x
  {
    var a, b := Shr(x, 32 - n), Low(x, 32 - n);
    var y := RotateLeft(x, n);
    RotateFits(x, n);
    Exchanged(x, n, a, b);
    PartsOf(a, b, n);
    RotateFits(y, 32 - n);
    assert 32 - (32 - n) == n;
  }

  /** The arguments of a step: which word of the block, how far to rotate, what to add. */
  datatype Row = Row(k: Slot, s: Shift, ac: Word)

  type Step = (Word, Word, Word, Word, Word, Row) -> Word

  /** What FF, GG, HH and II have in common. */
  function Turned(mixed: bv32, a: Word, b: Word, x: Word, r: Row): Word
  {
    (RotateLeft((a + (mixed as int + x + r.ac)) % WRAP, r.s) + b) % WRAP
  }

  lemma {:induction false} WrapAway(t: Word, q: nat)
    ensures (t - q * WRAP) % WRAP == t
    decreases q
  {
    if q > 0 {
      WrapAway(t, q - 1);
      assert t - q * WRAP == (t - (q - 1) * WRAP) - WRAP;
    }
  }

  lemma Undone(t: Word, b: nat)
    ensures ((t + b) % WRAP - b) % WRAP == t
  {
    var q := (t + b) / WRAP;
    assert (t + b) % WRAP - b == t - q * WRAP;
    WrapAway(t, q);
  }

  /** A step can be undone: the old word is told by the new one and the others. */
  lemma StepBack(mixed: bv32, a: Word, b: Word, x: Word, r: Row)
    ensures var w := Turned(mixed, a, b, x, r);
            (RotateLeft((w - b) % WRAP, 32 - r.s) - (mixed as int + x + r.ac)) % WRAP == a
  {
    var sum := mixed as int + x + r.ac;
    var y := (a + sum) % WRAP;
    var t := RotateLeft(y, r.s);
    Undone(t, b);
    RotatedBack(y, r.s);
    Undone(a, sum);
  }

  function FF(a: Word, b: Word, c: Word, d: Word, x: Word, r: Row): Word
  {
    Turned(F(b as bv32, c as bv32, d as bv32), a, b, x, r)
  }

  function GG(a: Word, b: Word, c: Word, d: Word, x: Word, r: Row): Word
  {
    Turned(G(b as bv32, c as bv32, d as bv32), a, b, x, r)
  }

  function HH(a: Word, b: Word, c: Word, d: Word, x: Word, r: Row): Word
  {
    Turned(H(b as bv32, c as bv32, d as bv32), a, b, x, r)
  }

  function II(a: Word, b: Word, c: Word, d: Word, x: Word, r: Row): Word
  {
    Turned(I(b as bv32, c as bv32, d as bv32), a, b, x, r)
  }

  /** The equation of section 3.4 of RFC 1321 for one step, a = b + ((a + mix + X + T) <<< s). */
  ghost predicate StepLaw(w: Word, mix: bv32, a: Word, b: Word, x: Word, r: Row)
  {
    var t := (a + mix as int + x + r.ac) % WRAP;
    w == (b + (t * Pow2(r.s) % WRAP + t / Pow2(32 - r.s))) % WRAP
  }

  lemma TurnedIs(mixed: bv32, a: Word, b: Word, x: Word, r: Row)
    ensures StepLaw(Turned(mixed, a, b, x, r), mixed, a, b, x, r)
  {
    Rotated((a + mixed as int + x + r.ac) % WRAP, r.s);
  }

  /** The four kinds of step, with their functions of b, c and d written out. */
  lemma StepLaws(a: Word, b: Word, c: Word, d: Word, x: Word, r: Row)
    ensures var y, z, v := b as bv32, c as bv32, d as bv32;
            && StepLaw(FF(a, b, c, d, x, r), (y & z) | (!y & v), a, b, x, r)
            && StepLaw(GG(a, b, c, d, x, r), (y & v) | (z & !v), a, b, x, r)
            && StepLaw(HH(a, b, c, d, x, r), y ^ z ^ v, a, b, x, r)
            && StepLaw(II(a, b, c, d, x, r), z ^ (y | !v), a, b, x, r)
  {
    var y, z, v := b as bv32, c as bv32, d as bv32;
    TurnedIs(F(y, z, v), a, b, x, r);
    TurnedIs(G(y, z, v), a, b, x, r);
    TurnedIs(H(y, z, v), a, b, x, r);
    TurnedIs(I(y, z, v), a, b, x, r);
  }

  function Round1(): seq<Row>
  {
    [Row(0, 7, 0xd76aa478), Row(1, 12, 0xe8c7b756), Row(2, 17, 0x242070db), Row(3, 22, 0xc1bdceee),
     Row(4, 7, 0xf57c0faf), Row(5, 12, 0x4787c62a), Row(6, 17, 0xa8304613), Row(7, 22, 0xfd469501),
     Row(8, 7, 0x698098d8), Row(9, 12, 0x8b44f7af), Row(10, 17, 0xffff5bb1), Row(11, 22, 0x895cd7be),
     Row(12, 7, 0x6b901122), Row(13, 12, 0xfd987193), Row(14, 17, 0xa679438e), Row(15, 22, 0x49b40821)]
  }

  function Round2(): seq<Row>
  {
    [Row(1, 5, 0xf61e2562), Row(6, 9, 0xc040b340), Row(11, 14, 0x265e5a51), Row(0, 20, 0xe9b6c7aa),
     Row(5, 5, 0xd62f105d), Row(10, 9, 0x02441453), Row(15, 14, 0xd8a1e681), Row(4, 20, 0xe7d3fbc8),
     Row(9, 5, 0x21e1cde6), Row(14, 9, 0xc33707d6), Row(3, 14, 0xf4d50d87), Row(8, 20, 0x455a14ed),
     Row(13, 5, 0xa9e3e905), Row(2, 9, 0xfcefa3f8), Row(7, 14, 0x676f02d9), Row(12, 20, 0x8d2a4c8a)]
  }

  function Round3(): seq<Row>
  {
    [Row(5, 4, 0xfffa3942), Row(8, 11, 0x8771f681), Row(11, 16, 0x6d9d6122), Row(14, 23, 0xfde5380c),
     Row(1, 4, 0xa4beea44), Row(4, 11, 0x4bdecfa9), Row(7, 16, 0xf6bb4b60), Row(10, 23, 0xbebfbc70),
     Row(13, 4, 0x289b7ec6), Row(0, 11, 0xeaa127fa), Row(3, 16, 0xd4ef3085), Row(6, 23, 0x04881d05),
     Row(9, 4, 0xd9d4d039), Row(12, 11, 0xe6db99e5), Row(15, 16, 0x1fa27cf8), Row(2, 23, 0xc4ac5665)]
  }

  function Round4(): seq<Row>
  {
    [Row(0, 6, 0xf4292244), Row(7, 10, 0x432aff97), Row(14, 15, 0xab9423a7), Row(5, 21, 0xfc93a039),
     Row(12, 6, 0x655b59c3), Row(3, 10, 0x8f0ccc92), Row(10, 15, 0xffeff47d), Row(1, 21, 0x85845dd1),
     Row(8, 6, 0x6fa87e4f), Row(15, 10, 0xfe2ce6e0), Row(6, 15, 0xa3014314), Row(13, 21, 0x4e0811a1),
     Row(4, 6, 0xf7537e82), Row(11, 10, 0xbd3af235), Row(2, 15, 0x2ad7d2bb), Row(9, 21, 0xeb86d391)]
  }

  /** The table T of the standard, a quarter for each round. */
  const TABLE1: seq<Word> :=
    [0xd76aa478, 0xe8c7b756, 0x242070db, 0xc1bdceee, 0xf57c0faf, 0x4787c62a, 0xa8304613, 0xfd469501,
     0x698098d8, 0x8b44f7af, 0xffff5bb1, 0x895cd7be, 0x6b901122, 0xfd987193, 0xa679438e, 0x49b40821]

  const TABLE2: seq<Word> :=
    [0xf61e2562, 0xc040b340, 0x265e5a51, 0xe9b6c7aa, 0xd62f105d, 0x02441453, 0xd8a1e681, 0xe7d3fbc8,
     0x21e1cde6, 0xc33707d6, 0xf4d50d87, 0x455a14ed, 0xa9e3e905, 0xfcefa3f8, 0x676f02d9, 0x8d2a4c8a]

  const TABLE3: seq<Word> :=
    [0xfffa3942, 0x8771f681, 0x6d9d6122, 0xfde5380c, 0xa4beea44, 0x4bdecfa9, 0xf6bb4b60, 0xbebfbc70,
     0x289b7ec6, 0xeaa127fa, 0xd4ef3085, 0x04881d05, 0xd9d4d039, 0xe6db99e5, 0x1fa27cf8, 0xc4ac5665]

  const TABLE4: seq<Word> :=
    [0xf4292244, 0x432aff97, 0xab9423a7, 0xfc93a039, 0x655b59c3, 0x8f0ccc92, 0xffeff47d, 0x85845dd1,
     0x6fa87e4f, 0xfe2ce6e0, 0xa3014314, 0x4e0811a1, 0xf7537e82, 0xbd3af235, 0x2ad7d2bb, 0xeb86d391]

  /** A round as the standard gives it: the words of the block in steps of `step` from `first` on,
      four rotations in turn, and a quarter of the table. */
  function Standard(step: nat, first: nat, shifts: seq<Shift>, table: seq<Word>): (rows: seq<Row>)
    requires |shifts| == 4 && |table| == 16
  {
    seq(16, i requires 0 <= i < 16 => Row((step * i + first) % 16, shifts[i % 4], table[i]))
  }

  lemma Standard1()
    ensures Round1() == Standard(1, 0, [7, 12, 17, 22], TABLE1)
  {
    var rows, table := Standard(1, 0, [7, 12, 17, 22], TABLE1), Round1();
    forall i | 0 <= i < 16 ensures rows[i] == table[i] {
    }
  }

  lemma Places5(i: nat)
    requires i < 16
    ensures (5 * i + 1) % 16 == [1, 6, 11, 0, 5, 10, 15, 4, 9, 14, 3, 8, 13, 2, 7, 12][i]
  {
  }

  lemma Places3(i: nat)
    requires i < 16
    ensures (3 * i + 5) % 16 == [5, 8, 11, 14, 1, 4, 7, 10, 13, 0, 3, 6, 9, 12, 15, 2][i]
  {
  }

  lemma Places7(i: nat)
    requires i < 16
    ensures (7 * i + 0) % 16 == [0, 7, 14, 5, 12, 3, 10, 1, 8, 15, 6, 13, 4, 11, 2, 9][i]
  {
  }

  lemma Standard2()
    ensures Round2() == Standard(5, 1, [5, 9, 14, 20], TABLE2)
  {
    var rows, table := Standard(5, 1, [5, 9, 14, 20], TABLE2), Round2();
    forall i | 0 <= i < 8 ensures rows[i] == table[i] {
      Places5(i);
    }
    forall i | 8 <= i < 16 ensures rows[i] == table[i] {
      Places5(i);
    }
    assert forall i :: 0 <= i < 16 ==> rows[i] == table[i];
  }

  lemma Standard3()
    ensures Round3() == Standard(3, 5, [4, 11, 16, 23], TABLE3)
  {
    var rows, table := Standard(3, 5, [4, 11, 16, 23], TABLE3), Round3();
    forall i | 0 <= i < 8 ensures rows[i] == table[i] {
      Places3(i);
    }
    forall i | 8 <= i < 16 ensures rows[i] == table[i] {
      Places3(i);
    }
    assert forall i :: 0 <= i < 16 ==> rows[i] == table[i];
  }

  lemma Standard4()
    ensures Round4() == Standard(7, 0, [6, 10, 15, 21], TABLE4)
  {
    var rows, table := Standard(7, 0, [6, 10, 15, 21], TABLE4), Round4();
    forall i | 0 <= i < 8 ensures rows[i] == table[i] {
      Places7(i);
    }
    forall i | 8 <= i < 16 ensures rows[i] == table[i] {
      Places7(i);
    }
    assert forall i :: 0 <= i < 16 ==> rows[i] == table[i];
  }

  /** The four rounds written out in the code are those of the standard. */
  lemma RoundsAreStandard()
    ensures Round1() == Standard(1, 0, [7, 12, 17, 22], TABLE1)
    ensures Round2() == Standard(5, 1, [5, 9, 14, 20], TABLE2)
    ensures Round3() == Standard(3, 5, [4, 11, 16, 23], TABLE3)
    ensures Round4() == Standard(7, 0, [6, 10, 15, 21], TABLE4)
  {
    Standard1();
    Standard2();
    Standard3();
    Standard4();
  }

  /** A round: its step, and the arguments in turn. */
  datatype Stage = Stage(f: Step, rows: seq<Row>)

  /** A step: the new word takes the place of b, and the others move on. */
  function One(f: Step, r: Row, st: Hash, x: seq<Word>): Hash
    requires |x| == 16
  {
    Hash(st.d, f(st.a, st.b, st.c, st.d, x[r.k], r), st.b, st.c)
  }

  function Steps(f: Step, rows: seq<Row>, st: Hash, x: seq<Word>): Hash
    requires |x| == 16
  {
    if rows == [] then st else Steps(f, rows[1..], One(f, rows[0], st, x), x)
  }

  /** Four steps that take turns at updating a, d, c and b in place, as they are written in the
      code, are four steps that move the registers on. */
  lemma InPlace(f: Step, rows: seq<Row>, st: Hash, x: seq<Word>)
    requires |x| == 16 && |rows| == 4
    ensures var a := f(st.a, st.b, st.c, st.d, x[rows[0].k], rows[0]);
            var d := f(st.d, a, st.b, st.c, x[rows[1].k], rows[1]);
            var c := f(st.c, d, a, st.b, x[rows[2].k], rows[2]);
            var b := f(st.b, c, d, a, x[rows[3].k], rows[3]);
            Steps(f, rows, st, x) == Hash(a, b, c, d)
  {
    var one := One(f, rows[0], st, x);
    var two := One(f, rows[1], one, x);
    var three := One(f, rows[2], two, x);
    assert rows[1..][1..] == rows[2..] && rows[2..][1..] == rows[3..] && rows[3..][1..] == [];
    assert Steps(f, rows, st, x) == Steps(f, rows[1..], one, x) == Steps(f, rows[2..], two, x) ==
      Steps(f, rows[3..], three, x);
    assert Steps(f, rows[3..], three, x) == One(f, rows[3], three, x);
  }

  lemma {:induction false} StepsSplit(f: Step, rows: seq<Row>, k: nat, st: Hash, x: seq<Word>)
    requires |x| == 16 && k <= |rows|
    ensures Steps(f, rows, st, x) == Steps(f, rows[k..], Steps(f, rows[..k], st, x), x)
  {
    if k == 0 {
      assert rows[0..] == rows;
    } else {
      StepsSplit(f, rows[1..], k - 1, One(f, rows[0], st, x), x);
      assert rows[1..][k - 1..] == rows[k..] && rows[1..][..k - 1] == rows[..k][1..];
    }
  }

  /** Four steps as they are written: each updates one of a, d, c and b in place. */
  method Four(f: Step, rows: seq<Row>, st: Hash, x: seq<Word>) returns (r: Hash)
    requires |x| == 16 && |rows| == 4
    ensures r == Steps(f, rows, st, x)
  {
    var a, b, c, d := st.a, st.b, st.c, st.d;
    InPlace(f, rows, st, x);
    a := f(a, b, c, d, x[rows[0].k], rows[0]);
    d := f(d, a, b, c, x[rows[1].k], rows[1]);
    c := f(c, d, a, b, x[rows[2].k], rows[2]);
    b := f(b, c, d, a, x[rows[3].k], rows[3]);
    return Hash(a, b, c, d);
  }

  /** A round: four times four steps. */
  method Round(f: Step, rows: seq<Row>, st: Hash, x: seq<Word>) returns (r: Hash)
    requires |x| == 16 && |rows| == 16
    ensures r == Steps(f, rows, st, x)
  {
    StepsSplit(f, rows, 4, st, x);
    r := Four(f, rows[..4], st, x);
    StepsSplit(f, rows[4..], 4, r, x);
    r := Four(f, rows[4..][..4], r, x);
    StepsSplit(f, rows[4..][4..], 4, r, x);
    r := Four(f, rows[4..][4..][..4], r, x);
    r := Four(f, rows[4..][4..][4..], r, x);
  }

  // ----- words and bytes -----

  type Block = b: seq<Byte> | |b| == 64 witness seq(64, _ => 0)

  function ToWord(b0: Byte, b1: Byte, b2: Byte, b3: Byte): Word
  {
    b0 + 256 * b1 + 65536 * b2 + 16777216 * b3
  }

  /** Bytes shifted to their places have no bit in common, so that or is plus. */
  lemma OrIsPlus(b0: nat, b1: nat, b2: nat, b3: nat)
    requires b0 < 256 && b1 < 256 && b2 < 256 && b3 < 256
    ensures Or(Or(Or(b0, b1 * 256), b2 * 65536), b3 * 16777216) == ToWord(b0, b1, b2, b3)
  {
    assert Pow2(8) == 256;
    Pow2Sum(8, 8);
    Pow2Sum(8, 16);
    OrPlus(b0, b1, 8);
    OrPlus(b0 + b1 * 256, b2, 16);
    OrPlus(b0 + b1 * 256 + b2 * 65536, b3, 24);
  }

  function ToBytes(w: Word): (r: seq<Byte>)
    ensures |r| == 4
  {
    [w % 256, w / 256 % 256, w / 65536 % 256, w / 16777216 % 256]
  }

  lemma Split(q: nat, r: Byte)
    ensures (r + 256 * q) / 256 == q && (r + 256 * q) % 256 == r
  {
  }

  lemma Shifted(w: nat)
    ensures w / 65536 == w / 256 / 256 && w / 16777216 == w / 256 / 256 / 256
  {
  }

  lemma WordBytes(w: Word)
    ensures var b := ToBytes(w); ToWord(b[0], b[1], b[2], b[3]) == w
  {
    Shifted(w);
  }

  lemma BytesWord(b0: Byte, b1: Byte, b2: Byte, b3: Byte)
    ensures ToBytes(ToWord(b0, b1, b2, b3)) == [b0, b1, b2, b3]
  {
    var w := ToWord(b0, b1, b2, b3);
    Shifted(w);
    Split(b1 + 256 * (b2 + 256 * b3), b0);
    Split(b2 + 256 * b3, b1);
    Split(b3, b2);
    assert w / 256 == b1 + 256 * (b2 + 256 * b3);
    assert w / 65536 == b2 + 256 * b3;
    assert w / 16777216 == b3;
  }

  /** Words in order, the low-order byte of each first. */
  function Bytes(ws: seq<Word>): (r: seq<Byte>)
    ensures |r| == 4 * |ws|
  {
    if ws == [] then [] else ToBytes(ws[0]) + Bytes(ws[1..])
  }

  function Words(bs: seq<Byte>): (r: seq<Word>)
    requires |bs| % 4 == 0
    ensures |r| == |bs| / 4
  {
    if bs == [] then [] else [ToWord(bs[0], bs[1], bs[2], bs[3])] + Words(bs[4..])
  }

  lemma {:induction false} WordsBytes(ws: seq<Word>)
    ensures Words(Bytes(ws)) == ws
  {
    if ws != [] {
      WordBytes(ws[0]);
      WordsBytes(ws[1..]);
      assert Bytes(ws)[4..] == Bytes(ws[1..]);
    }
  }

  /** The 64 steps on a block, added to what was there. */
  function Mixed(one: Stage, two: Stage, three: Stage, four: Stage, st: Hash, x: seq<Word>): (r: Hash)
    requires |x| == 16
  {
    var h1 := Steps(one.f, one.rows, st, x);
    var h2 := Steps(two.f, two.rows, h1, x);
    var h3 := Steps(three.f, three.rows, h2, x);
    var h := Steps(four.f, four.rows, h3, x);
    Hash((st.a + h.a) % WRAP, (st.b + h.b) % WRAP, (st.c + h.c) % WRAP, (st.d + h.d) % WRAP)
  }

  /** What MD5Transform makes of a block: section 3.4 of RFC 1321. */
  function Transform(st: Hash, block: Block): (r: Hash)
  {
    Mixed(Stage(FF, Standard(1, 0, [7, 12, 17, 22], TABLE1)), Stage(GG, Standard(5, 1, [5, 9, 14, 20], TABLE2)),
          Stage(HH, Standard(3, 5, [4, 11, 16, 23], TABLE3)), Stage(II, Standard(7, 0, [6, 10, 15, 21], TABLE4)),
          st, Words(block))
  }

  lemma BytesNext(before: seq<Byte>, ws: seq<Word>, i: nat, next: nat)
    requires i < |ws| && next == i + 1
    ensures before + Bytes(ws[i..]) == (before + ToBytes(ws[i])) + Bytes(ws[next..])
  {
    assert ws[i..][1..] == ws[next..];
    assert before + (ToBytes(ws[i]) + Bytes(ws[next..])) == (before + ToBytes(ws[i])) + Bytes(ws[next..]);
  }

  /** Encode. */
  method Encode(input: seq<Word>) returns (output: seq<Byte>)
    ensures output == Bytes(input)
  {
    output := [];
    var i := 0;
    while i < |input|
      invariant 0 <= i <= |input|
      invariant output + Bytes(input[i..]) == Bytes(input)
    {
      var w, next := input[i], i + 1;
      BytesNext(output, input, i, next);
      output := output + [w % 256, w / 256 % 256, w / 65536 % 256, w / 16777216 % 256];
      i := next;
    }
    assert output + [] == output;
  }

  /** One word of Decode: the bytes shifted to their places, and or. */
  method Gather(b0: nat, b1: nat, b2: nat, b3: nat) returns (w: Word)
    requires b0 < 256 && b1 < 256 && b2 < 256 && b3 < 256
    ensures w == ToWord(b0, b1, b2, b3)
  {
    OrIsPlus(b0, b1, b2, b3);
    w := Or(Or(Or(b0, b1 * 256), b2 * 65536), b3 * 16777216);
  }

  /** Decode. */
  method Decode(input: seq<Byte>) returns (output: seq<Word>)
    requires |input| % 4 == 0
    ensures output == Words(input)
  {
    output := [];
    var j := 0;
    while j < |input|
      invariant 0 <= j <= |input| && j % 4 == 0
      invariant output + Words(input[j..]) == Words(input)
    {
      var w := Gather(input[j], input[j + 1], input[j + 2], input[j + 3]);
      output := output + [w];
      assert input[j..][4..] == input[j + 4..];
      j := j + 4;
    }
    assert output + [] == output;
  }

  /** The four rounds of MD5Transform. */
  method Rounds(one: Stage, two: Stage, three: Stage, four: Stage, st: Hash, x: seq<Word>) returns (r: Hash)
    requires |x| == 16 && |one.rows| == 16 && |two.rows| == 16 && |three.rows| == 16 && |four.rows| == 16
    ensures r == Mixed(one, two, three, four, st, x)
  {
    var h := Round(one.f, one.rows, st, x);
    h := Round(two.f, two.rows, h, x);
    h := Round(three.f, three.rows, h, x);
    h := Round(four.f, four.rows, h, x);
    return Hash((st.a + h.a) % WRAP, (st.b + h.b) % WRAP, (st.c + h.c) % WRAP, (st.d + h.d) % WRAP);
  }

  /** MD5Transform. */
  method TransformBlock(st: Hash, block: Block) returns (r: Hash)
    ensures r == Transform(st, block)
  {
    var x := Decode(block);
    RoundsAreStandard();
    r := Rounds(Stage(FF, Round1()), Stage(GG, Round2()), Stage(HH, Round3()), Stage(II, Round4()), st, x);
  }

  // ----- the digest of a message: sections 3.1 to 3.5 of RFC 1321 -----

  /** What is done to a block; MD5 is the case of Transform. */
  type Compress = (Hash, Block) -> Hash

  const INITIAL: Hash := Hash(0x67452301, 0xefcdab89, 0x98badcfe, 0x10325476)

  /** The initial words, by their bytes, the low-order byte first: section 3.3 of RFC 1321. */
  lemma InitialBytes()
    ensures ToBytes(INITIAL.a) == [0x01, 0x23, 0x45, 0x67] && ToBytes(INITIAL.b) == [0x89, 0xab, 0xcd, 0xef]
    ensures ToBytes(INITIAL.c) == [0xfe, 0xdc, 0xba, 0x98] && ToBytes(INITIAL.d) == [0x76, 0x54, 0x32, 0x10]
  {
  }

  /** The state after all the blocks of the data. */
  ghost function Fold(f: Compress, data: seq<Byte>): (r: Hash)
  {
    if |data| < 64 then INITIAL else f(Fold(f, data[..|data| - 64]), data[|data| - 64..])
  }

  lemma FoldNext(f: Compress, data: seq<Byte>, n: nat)
    requires n + 64 <= |data|
    ensures Fold(f, data[..n + 64]) == f(Fold(f, data[..n]), data[n..n + 64])
  {
    assert data[..n + 64][..n] == data[..n] && data[..n + 64][n..] == data[n..n + 64];
  }

  /** The number of padding bytes: at least one, so that 8 are missing from a whole block. */
  ghost predicate IsPadLen(n: nat, p: nat)
  {
    1 <= p <= 64 && (n + p) % 64 == 56
  }

  function PadLen(n: nat): (p: nat)
    ensures IsPadLen(n, p) && forall q: nat :: IsPadLen(n, q) ==> q == p
  {
    if n % 64 < 56 then 56 - n % 64 else 120 - n % 64
  }

  function Zeros(n: nat): (r: seq<Byte>)
    ensures |r| == n
  {
    seq(n, _ => 0)
  }

  /** The two words of the bit length mod 2^64, low-order word first. */
  function LowBits(n: nat): Word
  {
    8 * n % WRAP
  }

  function HighBits(n: nat): Word
  {
    8 * n / WRAP % WRAP
  }

  lemma WholeBlocks(n: nat, p: nat)
    requires IsPadLen(n, p)
    ensures (n + p + 8) % 64 == 0
  {
  }

  /** The message, a 1 bit and 0 bits, and the length in bits. */
  ghost function Padded(msg: seq<Byte>): (r: seq<Byte>)
    ensures |r| % 64 == 0
  {
    WholeBlocks(|msg|, PadLen(|msg|));
    msg + ([0x80] + Zeros(PadLen(|msg|) - 1)) + Bytes([LowBits(|msg|), HighBits(|msg|)])
  }

  ghost function Digest(f: Compress, msg: seq<Byte>): (r: seq<Byte>)
    ensures |r| == 16
  {
    var h := Fold(f, Padded(msg));
    Bytes([h.a, h.b, h.c, h.d])
  }

  // ----- counting bits in two words -----

  lemma IndexOfCount(n: nat)
    ensures LowBits(n) / 8 % 64 == n % 64
  {
    var q, r := n / 536870912, n % 536870912;
    assert 8 * n == q * WRAP + 8 * r;
    assert LowBits(n) == 8 * r;
    assert n == 64 * (8388608 * q) + r;
  }

  lemma ModSum(q: nat, k: nat)
    ensures (q % WRAP + k) % WRAP == (q + k) % WRAP
  {
    var m := q / WRAP;
    assert q + k == m * WRAP + (q % WRAP + k);
    var s := q % WRAP + k;
    assert q + k == (m + s / WRAP) * WRAP + s % WRAP;
    Parts(q + k, m + s / WRAP, s % WRAP);
  }

  lemma CountAdded(n: nat, len: nat)
    requires len < WRAP
    ensures var bits := 8 * len % WRAP;
            var low := (LowBits(n) + bits) % WRAP;
            && low == LowBits(n + len)
            && (HighBits(n) + (if low < bits then 1 else 0) + len / 536870912) % WRAP == HighBits(n + len)
  {
    var bits, high := 8 * len % WRAP, len / 536870912;
    assert 8 * len == high * WRAP + bits;
    var q := 8 * n / WRAP;
    assert 8 * n == q * WRAP + LowBits(n);
    var sum := LowBits(n) + bits;
    var carry := if sum >= WRAP then 1 else 0;
    assert 8 * (n + len) == (q + high + carry) * WRAP + (sum - carry * WRAP);
    Parts(8 * (n + len), q + high + carry, sum - carry * WRAP);
    Parts(sum, carry, sum - carry * WRAP);
    ModSum(q, high + carry);
  }

  // ----- the context -----

  /** Does the loop of MD5Update end where it should, when len bytes follow n?  Its test adds 63
      to an unsigned 32-bit position. */
  predicate LoopEnds(n: nat, len: nat)
  {
    var part := 64 - n % 64;
    len >= part ==> len - (len - part) % 64 + 63 < WRAP
  }

  /** The position of the block that turn k of the loop reads, when it starts at part; None
      once it has ended. */
  ghost function BlockAt(part: nat, len: nat, k: nat): (r: Option<nat>)
    requires part <= 64 && len < WRAP
    ensures r.Some? ==> r.value < WRAP
  {
    if k == 0 then
      if (part + 63) % WRAP < len then Some(part) else None
    else
      var before := BlockAt(part, len, k - 1);
      if before.Some? && ((before.value + 64) % WRAP + 63) % WRAP < len then Some((before.value + 64) % WRAP) else None
  }

  /** The last of the positions part, part + 64, ... in the input is the one after q turns. */
  ghost predicate Boundary(part: nat, len: nat, last: nat, q: nat)
  {
    1 <= part <= 64 && part <= last <= len < last + 64 && len < WRAP && last == part + 64 * q
  }

  lemma BoundaryOf(n: nat, part: nat, len: nat) returns (last: nat, q: nat)
    requires part == 64 - n % 64 && part <= len < WRAP
    ensures Boundary(part, len, last, q)
    ensures LoopEnds(n, len) <==> last + 63 < WRAP
  {
    q := (len - part) / 64;
    last := part + 64 * q;
    assert len - part == 64 * q + (len - part) % 64;
  }

  lemma NoWrap(x: nat)
    requires x < WRAP
    ensures x % WRAP == x
  {
  }

  /** The turns before it. */
  lemma {:induction false} TurnsBefore(part: nat, len: nat, last: nat, q: nat, k: nat)
    requires Boundary(part, len, last, q) && k < q
    ensures BlockAt(part, len, k) == Some(part + 64 * k)
  {
    if k == 0 {
      NoWrap(part + 63);
    } else {
      TurnsBefore(part, len, last, q, k - 1);
      NoWrap(part + 64 * k);
      NoWrap(part + 64 * k + 63);
    }
  }

  lemma NextTest(p: nat, len: nat, last: nat, i: nat) returns (j: nat)
    requires p + 64 * i == last && last <= len < last + 64 && WRAP <= last + 63 && len < WRAP
    ensures ((p + 64) % WRAP + 63) % WRAP < len && (p + 64) % WRAP + 64 * j == last
  {
    if i == 0 {
      var next := last + 64 - WRAP;
      assert (p + 64) % WRAP == next;
      assert (next + 63) % WRAP == next + 63;
      j := 0x3ff_ffff;
    } else {
      j := i - 1;
      var next := p + 64;
      assert next <= last;
      assert next % WRAP == next;
    }
  }

  /** Where the test wraps there, no test of the loop fails. */
  lemma {:induction false} AlwaysTurns(part: nat, len: nat, last: nat, q: nat, k: nat) returns (j: nat)
    requires Boundary(part, len, last, q) && last + 63 >= WRAP
    ensures BlockAt(part, len, k).Some? && BlockAt(part, len, k).value + 64 * j == last
  {
    if k == 0 {
      j := q;
    } else {
      var i := AlwaysTurns(part, len, last, q, k - 1);
      j := NextTest(BlockAt(part, len, k - 1).value, len, last, i);
    }
  }

  /** Where it does not, the test fails there and the loop has ended. */
  lemma {:induction false} EndsAt(part: nat, len: nat, last: nat, q: nat, k: nat)
    requires Boundary(part, len, last, q) && last + 63 < WRAP && k >= q
    ensures BlockAt(part, len, k).None?
  {
    if k > q {
      EndsAt(part, len, last, q, k - 1);
    } else if k > 0 {
      TurnsBefore(part, len, last, q, k - 1);
      NoWrap(last);
      NoWrap(last + 63);
    } else {
      NoWrap(part + 63);
    }
  }

  /** Does turn k take a block that is not all input? */
  ghost predicate Overreads(part: nat, len: nat, k: nat)
    requires part <= 64 && len < WRAP
  {
    BlockAt(part, len, k).Some? && BlockAt(part, len, k).value + 64 > len
  }

  /** The loop of MD5Update ends exactly when LoopEnds holds, and otherwise takes a block that
      reaches beyond the input. */
  lemma UpdateEnds(n: nat, part: nat, len: nat)
    requires part == 64 - n % 64 && part <= len < WRAP
    ensures (exists k: nat :: BlockAt(part, len, k).None?) <==> LoopEnds(n, len)
    ensures (exists k: nat :: Overreads(part, len, k)) <==> !LoopEnds(n, len)
  {
    var last, q := BoundaryOf(n, part, len);
    if LoopEnds(n, len) {
      EndsAt(part, len, last, q, q);
      forall k: nat ensures !Overreads(part, len, k) {
        if k >= q {
          EndsAt(part, len, last, q, k);
        } else {
          TurnsBefore(part, len, last, q, k);
        }
      }
    } else {
      forall k: nat ensures BlockAt(part, len, k).Some? {
        var j := AlwaysTurns(part, len, last, q, k);
      }
      if q > 0 {
        TurnsBefore(part, len, last, q, q - 1);
      }
      assert BlockAt(part, len, q) == Some(last);
      assert Overreads(part, len, q);
    }
  }

  /** One byte, then 2^32 - 1 of them: MD5Update does not return. */
  lemma UpdateHangs(k: nat)
    ensures BlockAt(63, 0xffff_ffff, k).Some?
  {
    UpdateEnds(1, 63, 0xffff_ffff);
  }

  ghost function Joined(pieces: seq<seq<Byte>>): seq<Byte>
  {
    if pieces == [] then [] else Joined(pieces[..|pieces| - 1]) + pieces[|pieces| - 1]
  }

  lemma WholeGiven(pieces: seq<seq<Byte>>)
    ensures Joined(pieces[..|pieces|]) == Joined(pieces)
  {
    assert pieces[..|pieces|] == pieces;
  }

  /** Does MD5Update end on this piece, after the ones before it? */
  ghost predicate EndsOn(pieces: seq<seq<Byte>>, i: int)
    requires 0 <= i < |pieces|
  {
    |pieces[i]| < WRAP && LoopEnds(|Joined(pieces[..i])|, |pieces[i]|)
  }

  ghost predicate AllEnd(pieces: seq<seq<Byte>>)
  {
    forall i :: 0 <= i < |pieces| ==> EndsOn(pieces, i)
  }

  /** A message in pieces, on each of which MD5Update ends. */
  type Pieces = pieces: seq<seq<Byte>> | AllEnd(pieces)

  lemma JoinedNext(pieces: seq<seq<Byte>>, i: nat, next: nat)
    requires i < |pieces| && next == i + 1
    ensures Joined(pieces[..next]) == Joined(pieces[..i]) + pieces[i]
  {
    assert pieces[..next][..i] == pieces[..i];
  }

  /** Where the loop is after k blocks: the position plus 63 has not wrapped. */
  lemma Position(n: nat, len: nat, k: nat)
    requires LoopEnds(n, len) && 64 - n % 64 + 64 * k <= len < WRAP
    ensures (n + (64 - n % 64 + 64 * k)) % 64 == 0 && (64 - n % 64 + 64 * k + 63) % WRAP == 64 - n % 64 + 64 * k + 63
  {
    var part := 64 - n % 64;
    assert len - part == 64 * ((len - part) / 64) + (len - part) % 64;
    assert n + part == 64 * (n / 64 + 1);
  }

  /** The state is that of the whole blocks, and the buffer begins with the rest. */
  ghost predicate Holds(f: Compress, msg: seq<Byte>, state: Hash, buffer: seq<Byte>)
  {
    var n := |msg| - |msg| % 64;
    |buffer| == 64 && state == Fold(f, msg[..n]) && buffer[..|msg| % 64] == msg[n..]
  }

  /** x in place of the bytes of c from i on. */
  function Put(c: seq<Byte>, i: nat, x: seq<Byte>): (r: seq<Byte>)
    requires i + |x| <= |c|
    ensures |r| == |c|
  {
    c[..i] + x + c[i + |x|..]
  }

  lemma FirstBlock(f: Compress, msg: seq<Byte>, input: seq<Byte>, state: Hash, buffer: seq<Byte>, index: nat, part: nat)
    requires Holds(f, msg, state, buffer) && index == |msg| % 64 && part == 64 - index && |input| >= part
    ensures f(state, Put(buffer, index, input[..part])) == Fold(f, (msg + input)[..|msg| + part])
  {
    var n, all := |msg| - index, msg + input;
    var block := Put(buffer, index, input[..part]);
    assert all[..n] == msg[..n];
    assert block == msg[n..] + input[..part];
    assert all[n..] == msg[n..] + input;
    assert all[n..n + 64] == all[n..][..64] == block;
    FoldNext(f, all, n);
  }

  lemma NextBlock(f: Compress, msg: seq<Byte>, input: seq<Byte>, i: nat)
    requires i + 64 <= |input|
    ensures Fold(f, (msg + input)[..|msg| + i + 64]) == f(Fold(f, (msg + input)[..|msg| + i]), input[i..i + 64])
  {
    var all := msg + input;
    assert all[|msg| + i..|msg| + i + 64] == input[i..i + 64];
    FoldNext(f, all, |msg| + i);
  }

  lemma Remainder(m: nat, n: nat)
    requires m % 64 == 0 && m <= n < m + 64
    ensures n % 64 == n - m
  {
  }

  lemma HoldsAt(f: Compress, all: seq<Byte>, m: nat, state: Hash, buffer: seq<Byte>)
    requires m % 64 == 0 && m <= |all| < m + 64 && |buffer| == 64 && state == Fold(f, all[..m])
      && buffer[..|all| - m] == all[m..]
    ensures Holds(f, all, state, buffer)
  {
    Remainder(m, |all|);
  }

  lemma HoldsParts(f: Compress, msg: seq<Byte>, state: Hash, buffer: seq<Byte>, m: nat, r: nat)
    requires Holds(f, msg, state, buffer) && r == |msg| % 64 && m == |msg| - r
    ensures m % 64 == 0 && state == Fold(f, msg[..m]) && buffer[..r] == msg[m..]
  {
    assert m == 64 * (|msg| / 64);
  }

  /** What is left of the input goes to the buffer: after the bytes it holds, or at its start. */
  lemma BufferedMore(f: Compress, msg: seq<Byte>, input: seq<Byte>, state: Hash, buffer: seq<Byte>, m: nat, r: nat)
    requires |buffer| == 64 && |msg| == m + r && r + |input| < 64
    requires m % 64 == 0 && state == Fold(f, msg[..m]) && buffer[..r] == msg[m..]
    ensures Holds(f, msg + input, state, Put(buffer, r, input))
  {
    var all, n, buffer' := msg + input, r + |input|, Put(buffer, r, input);
    assert all[..m] == msg[..m];
    assert all[m..] == msg[m..] + input;
    assert buffer'[..n] == buffer[..r] + input;
    assert |all| - m == n;
    HoldsAt(f, all, m, state, buffer');
  }

  lemma BufferedRest(f: Compress, msg: seq<Byte>, input: seq<Byte>, i: nat, rest: seq<Byte>, state: Hash,
                     buffer: seq<Byte>)
    requires |buffer| == 64 && i <= |input| < i + 64 && (|msg| + i) % 64 == 0
      && state == Fold(f, (msg + input)[..|msg| + i])
    requires rest == input[i..]
    ensures Holds(f, msg + input, state, Put(buffer, 0, rest))
  {
    var all, m, buffer' := msg + input, |msg| + i, Put(buffer, 0, rest);
    assert all[m..] == rest;
    assert buffer'[..|rest|] == rest;
    assert |all| - m == |rest|;
    HoldsAt(f, all, m, state, buffer');
  }

  class Context {
    const compress: Compress
    const buffer: array<Byte>
    var state: Hash
    var low: Word                    // count[0]
    var high: Word                   // count[1]
    ghost var msg: seq<Byte>         // all that has been given to MD5Update

    ghost predicate Valid()
      reads this, buffer
    {
      && buffer.Length == 64 && low == LowBits(|msg|) && high == HighBits(|msg|)
      && Holds(compress, msg, state, buffer[..])
    }

    /** MD5Init. */
    constructor (f: Compress)
      ensures Valid() && msg == [] && compress == f && fresh(buffer)
    {
      compress := f;
      buffer := new Byte[64](_ => 0);
      state := INITIAL;
      low, high := 0, 0;
      msg := [];
    }

    /** MD5_memcpy into the buffer. */
    method Copy(index: nat, input: seq<Byte>)
      requires index + |input| <= buffer.Length
      modifies buffer
      ensures buffer[..] == Put(old(buffer[..]), index, input)
    {
      var i := 0;
      ghost var before := buffer[..];
      while i < |input|
        invariant 0 <= i <= |input|
        invariant buffer[..] == before[..index] + input[..i] + before[index + i..]
      {
        buffer[index + i] := input[i];
        assert buffer[..] == before[..index] + input[..i + 1] + before[index + (i + 1)..];
        i := i + 1;
      }
      assert input[..i] == input;
    }

    /** The bit counter of MD5Update. */
    method Count(len: nat)
      requires len < WRAP && low == LowBits(|msg|) && high == HighBits(|msg|)
      modifies this`low, this`high
      ensures low == LowBits(|msg| + len) && high == HighBits(|msg| + len)
    {
      CountAdded(|msg|, len);
      var bits := 8 * len % WRAP;
      low := (low + bits) % WRAP;
      ModSum(high + (if low < bits then 1 else 0), len / 536870912);
      if low < bits {
        high := (high + 1) % WRAP;
      }
      high := (high + len / 536870912) % WRAP;
    }

    /** The block that MD5Update completes in the buffer. */
    method Complete(index: nat, input: seq<Byte>)
      requires Holds(compress, msg, state, buffer[..])
      requires index == |msg| % 64 && 64 - index <= |input|
      modifies this`state, buffer
      ensures buffer.Length == 64 && state == Fold(compress, (msg + input)[..|msg| + (64 - |msg| % 64)])
    {
      var part := 64 - index;
      FirstBlock(compress, msg, input, state, buffer[..], index, part);
      Copy(index, input[..part]);
      state := compress(state, buffer[..]);
    }

    /** All the blocks that MD5Update completes. */
    method Blocks(index: nat, input: seq<Byte>) returns (i: nat)
      requires Holds(compress, msg, state, buffer[..])
      requires index == |msg| % 64 && 64 - index <= |input| < WRAP && LoopEnds(|msg|, |input|)
      modifies this`state, buffer
      ensures buffer.Length == 64 && 0 < i <= |input| < i + 64 && (|msg| + i) % 64 == 0
        && state == Fold(compress, (msg + input)[..|msg| + i])
    {
      var part := 64 - index;
      Complete(index, input);
      i := part;
      ghost var k := 0;
      Position(|msg|, |input|, 0);
      while (i + 63) % WRAP < |input|
        invariant i == part + 64 * k && i <= |input| && (i + 63) % WRAP == i + 63
        invariant state == Fold(compress, (msg + input)[..|msg| + i])
        decreases |input| - i
      {
        NextBlock(compress, msg, input, i);
        state := compress(state, input[i..i + 64]);
        i := i + 64;
        k := k + 1;
        Position(|msg|, |input|, k);
      }
      Position(|msg|, |input|, k);
    }

    /** The rest of the input, after the last whole block. */
    method KeepRest(input: seq<Byte>, i: nat)
      requires buffer.Length == 64 && i <= |input| < i + 64 && (|msg| + i) % 64 == 0
        && state == Fold(compress, (msg + input)[..|msg| + i])
      modifies buffer
      ensures Holds(compress, msg + input, state, buffer[..])
    {
      var rest := input[i..];
      BufferedRest(compress, msg, input, i, rest, state, buffer[..]);
      Copy(0, rest);
    }

    /** Input that completes no block. */
    method KeepAll(index: nat, input: seq<Byte>)
      requires Holds(compress, msg, state, buffer[..]) && index == |msg| % 64 && index + |input| < 64
      modifies buffer
      ensures Holds(compress, msg + input, state, buffer[..])
    {
      ghost var m: nat := |msg| - index;
      HoldsParts(compress, msg, state, buffer[..], m, index);
      BufferedMore(compress, msg, input, state, buffer[..], m, index);
      Copy(index, input);
    }

    /** The part of MD5Update after the counting. */
    method Take(index: nat, input: seq<Byte>)
      requires Holds(compress, msg, state, buffer[..]) && buffer.Length == 64 && index == |msg| % 64
      requires |input| < WRAP && LoopEnds(|msg|, |input|)
      modifies this`state, buffer
      ensures Holds(compress, msg + input, state, buffer[..])
    {
      if |input| >= 64 - index {
        var i := Blocks(index, input);
        KeepRest(input, i);
      } else {
        KeepAll(index, input);
      }
    }

    /** MD5Update. */
    method Update(input: seq<Byte>)
      requires Valid() && |input| < WRAP && LoopEnds(|msg|, |input|)
      modifies this`state, this`low, this`high, this`msg, buffer
      ensures Valid() && msg == old(msg) + input
    {
      IndexOfCount(|msg|);
      var index := low / 8 % 64;
      Count(|input|);
      Take(index, input);
      msg := msg + input;
    }

    /** The first i pieces have been given to MD5Update. */
    ghost predicate Given(pieces: seq<seq<Byte>>, i: nat)
      reads this, buffer
      requires i <= |pieces|
    {
      Valid() && msg == Joined(pieces[..i])
    }

    method UpdateNext(pieces: Pieces, i: nat, ghost next: nat)
      requires i < |pieces| && next == i + 1 && Given(pieces, i)
      modifies this`state, this`low, this`high, this`msg, buffer
      ensures Given(pieces, next)
    {
      JoinedNext(pieces, i, next);
      assert EndsOn(pieces, i);
      Update(pieces[i]);
    }

    method UpdateAll(pieces: Pieces)
      requires Given(pieces, 0)
      modifies this`state, this`low, this`high, this`msg, buffer
      ensures Given(pieces, |pieces|)
    {
      var i := 0;
      while i < |pieces|
        invariant 0 <= i <= |pieces| && Given(pieces, i)
      {
        var next := i + 1;
        UpdateNext(pieces, i, next);
        i := next;
      }
    }

    /** MD5Final: whatever the pieces the message came in, this is its digest. */
    method Final() returns (digest: seq<Byte>)
      requires Valid()
      modifies this`state, this`low, this`high, this`msg, buffer
      ensures digest == Digest(compress, old(msg))
    {
      ghost var m := msg;
      var bits := Encode([low, high]);
      IndexOfCount(|msg|);
      var index := low / 8 % 64;
      var padLen := if index < 56 then 56 - index else 120 - index;
      Update([0x80] + Zeros(padLen - 1));
      Update(bits);
      assert msg == Padded(m);
      assert msg[..|msg| - |msg| % 64] == msg;
      digest := Encode([state.a, state.b, state.c, state.d]);
    }
  }

  /** A message in pieces has the digest of the whole. */
  method InPieces(f: Compress, pieces: Pieces) returns (digest: seq<Byte>)
    ensures digest == Digest(f, Joined(pieces))
  {
    var context := new Context(f);
    context.UpdateAll(pieces);
    WholeGiven(pieces);
    digest := context.Final();
  }

  /** MD5 itself. */
  method Md5(pieces: Pieces) returns (digest: seq<Byte>)
    ensures digest == Digest(Transform, Joined(pieces))
  {
    digest := InPieces(Transform, pieces);
  }
}
