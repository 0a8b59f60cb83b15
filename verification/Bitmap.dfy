/** The free bit map of kern/fs.c: one bit per block, eight to a byte, BPB to a block. */
module Bitmap {
  import opened BitArithmetic
  import opened Blocks

  const BPB: nat := 8192

  /** The byte with bit k set to v: |= m or &= ~m. */
  function PutByteBit(x: nat, k: nat, v: bool): (r: nat)
  {
    if k == 0 then x - x % 2 + if v then 1 else 0 else 2 * PutByteBit(x / 2, k - 1, v) + x % 2
  }

  lemma {:induction false} PutByteBitFits(x: nat, k: nat, v: bool, m: nat)
    requires x < Pow2(m) && k < m
    ensures PutByteBit(x, k, v) < Pow2(m)
  {
    if k > 0 {
      PutByteBitFits(x / 2, k - 1, v, m - 1);
    }
  }

  lemma {:induction false} ByteBitPut(x: nat, k: nat, v: bool, j: nat)
    ensures BitArithmetic.Bit(PutByteBit(x, k, v), j) == if j == k then v else BitArithmetic.Bit(x, j)
  {
    if k == 0 {
      assert PutByteBit(x, k, v) / 2 == x / 2;
    } else if j > 0 {
      assert PutByteBit(x, k, v) / 2 == PutByteBit(x / 2, k - 1, v);
      ByteBitPut(x / 2, k - 1, v, j - 1);
    }
  }

  /** data[bi / 8] & (1 << (bi % 8)). */
  predicate BlockBit(b: Block, bi: nat)
    requires bi < BPB
  {
    BitArithmetic.Bit(b[bi / 8], bi % 8)
  }

  function PutBlockBit(b: Block, bi: nat, v: bool): (r: Block)
    requires bi < BPB
  {
    PutByteBitFits(b[bi / 8], bi % 8, v, 8);
    b[bi / 8 := PutByteBit(b[bi / 8], bi % 8, v)]
  }

  lemma BlockBitPut(b: Block, bi: nat, v: bool, bj: nat)
    requires bi < BPB && bj < BPB
    ensures BlockBit(PutBlockBit(b, bi, v), bj) == if bi == bj then v else BlockBit(b, bj)
  {
    ByteBitPut(b[bi / 8], bi % 8, v, bj % 8);
  }

  /** Where the bit of block b lives: BBLOCK(b, sb) and b % BPB. */
  predicate Bit(blk: seq<Block>, start: nat, b: nat)
    requires start + b / BPB < |blk|
  {
    BlockBit(blk[start + b / BPB], b % BPB)
  }

  /** Bit b of the map is bit b % 8 of byte b / 8, counted from the first block of the map on. */
  lemma BitPlace(blk: seq<Block>, start: nat, b: nat)
    requires start + b / BPB < |blk|
    ensures Bit(blk, start, b) <==> blk[start + b / BPB][b % BPB / 8] / Pow2(b % 8) % 2 == 1
  {
    var bi, k := b % BPB, b % 8;
    assert bi % 8 == k;
    var block := blk[start + b / BPB];
    BitIs(block[bi / 8], k);
  }

  function PutBit(blk: seq<Block>, start: nat, b: nat, v: bool): (r: seq<Block>)
    requires start + b / BPB < |blk|
  {
    blk[start + b / BPB := PutBlockBit(blk[start + b / BPB], b % BPB, v)]
  }

  /** Changing one block's bit leaves every other block's bit alone. */
  lemma BitPut(blk: seq<Block>, start: nat, b: nat, v: bool, c: nat)
    requires start + b / BPB < |blk| && start + c / BPB < |blk|
    ensures Bit(PutBit(blk, start, b, v), start, c) == if b == c then v else Bit(blk, start, c)
  {
    BlockBitPut(blk[start + b / BPB], b % BPB, v, c % BPB);
  }
}
