/**
  Fixed-width integers on the wire: big-endian two's complement.
 */
module Integers {
  import opened Words
  import opened Cursor

  lemma ReadBytes(s: seq<byte>, c: Cursor, v: nat, n: nat)
    requires StandsAt(s, c, BEBytes(v, n)) && v < Pow2(8 * n)
    ensures UInt(s, c, n) == Got(v, c.(pos := c.pos + n))
  {
    hide BE, BEBytes, Low, Pow2;
    BEOfBytes(v, n);
    LowOfSmall(v, 8 * n);
  }

  lemma Halves(n: nat)
    requires n > 0
    ensures Pow2(n) == 2 * Pow2(n - 1)
  {
  }

  lemma WrapAround(value: int, p: nat)
    requires 0 < p && 0 <= value + p && value < p
    ensures value % p == if value < 0 then value + p else value
  {
  }

  /** The weight of the sign bit of a word of `width` bytes. */
  function SignBit(width: nat): (n: int)
    requires width > 0
    ensures n > 0
  {
    Pow2(8 * width - 1)
  }

  /** Every value that a signed word of the width can have is read back. */
  lemma IntegerIsRead(s: seq<byte>, c: Cursor, value: int, width: nat)
    requires width in {1, 2, 4, 6, 8} && -SignBit(width) <= value < SignBit(width)
    requires StandsAt(s, c, BEBytes(value % Pow2(8 * width), width))
    ensures ReadLeaf(s, c, Int(width)) == Got(Number(value), c.(pos := c.pos + width))
  {
    hide Pow2, BE, BEBytes;
    var p := Pow2(8 * width);
    Halves(8 * width);
    WrapAround(value, p);
    ReadBytes(s, c, value % p, width);
  }

  /** The bytes of the lowest value: its sign bit and nothing else. */
  function Lowest(width: nat): (bytes: seq<byte>)
    requires width > 0
    ensures |bytes| == width
  {
    [0x80] + seq(width - 1, _ => 0)
  }

  lemma {:induction false} LowestIsSignBit(k: nat)
    ensures BEBytes(Pow2(8 * k + 7), k + 1) == Lowest(k + 1)
  {
    if k == 0 {
      assert Pow2(7) == 128;
      assert BEBytes(128, 1) == BEBytes(128 / 256, 0) + [128 % 256];
    } else {
      Pow2By8(8 * (k - 1) + 7);
      LowestIsSignBit(k - 1);
      assert Lowest(k + 1) == Lowest(k) + [0];
    }
  }

  /** Past the end of the content an integer reads as the lowest value does. */
  lemma EndIsLowest(s: seq<byte>, c: Cursor, d: Cursor, width: nat)
    requires width in {1, 2, 4, 6, 8} && c.AtEnd() && StandsAt(s, d, Lowest(width))
    ensures ReadLeaf(s, c, Int(width)) == Got(Number(-SignBit(width)), c)
    ensures ReadLeaf(s, d, Int(width)) == Got(Number(-SignBit(width)), d.(pos := d.pos + width))
  {
    hide Pow2, BE, BEBytes, Lowest;
    var p := Pow2(8 * width);
    Halves(8 * width);
    WrapAround(-SignBit(width), p);
    LowestIsSignBit(width - 1);
    assert 8 * (width - 1) + 7 == 8 * width - 1;
    IntegerIsRead(s, d, -SignBit(width), width);
  }

  /** The values that stand for NULL, by width. */
  lemma LowestValues()
    ensures EndValue(Int(1)) == Number(-0x80) && EndValue(Int(2)) == Number(-0x8000)
    ensures EndValue(Int(4)) == Number(-0x8000_0000) && EndValue(Int(6)) == Number(-0x8000_0000_0000)
    ensures EndValue(Int(8)) == Number(-0x8000_0000_0000_0000)
  {
    hide Pow2;
    BytePowers();
    Pow2By8(40);
    Pow2By8(56);
    Pow2By8(32);
  }
}
