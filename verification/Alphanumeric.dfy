/**
  The six-bit alphanumeric codec.

  A field that may hold up to `size` characters starts with a length of `Bsr(size + 1)` bits, then
  six bits a character; the length `size + 1` stands for NULL.  `Bits` of module Words is the
  independent reading every decoder below is compared with.
 */
module Alphanumeric {
  import opened Words

  const SPACE := 0x20
  // The largest field the reader accepts: its incremented size must not pass the read buffer.
  const READ_BUFFER_SIZE := 0x4000 - 16

  // Value shared by ALPHANUMERIC_NULL and INT64_NULL, as an unsigned word, and its 32-bit counterpart.
  const ALPHANUMERIC_NULL: nat := 0x8000_0000_0000_0000
  const ALPHANUMERIC_NULL32: nat := 0x8000_0000

  /** Position of the highest set bit, counted from 1; 0 for 0. */
  function Bsr(x: nat): (n: nat)
  {
    if x == 0 then 0 else 1 + Bsr(x / 2)
  }

  lemma {:induction false} BsrBounds(x: nat)
    requires x > 0
    ensures 1 <= Bsr(x)
    ensures Pow2(Bsr(x) - 1) <= x < Pow2(Bsr(x))
  {
    if x > 1 {
      BsrBounds(x / 2);
    }
  }

  lemma BsrOfReadable(size: nat)
    requires size + 1 <= READ_BUFFER_SIZE
    ensures 1 <= Bsr(size + 1) <= 14
  {
    hide Bsr;
    assert Pow2(14) == 0x4000 by {
      Pow2By8(6);
    }
    BsrBounds(size + 1);
    if Bsr(size + 1) > 14 {
      Pow2Monotone(14, Bsr(size + 1) - 1);
    }
  }

  /** The sizes that a 32-bit word can count, incremented. */
  lemma BsrOfWord(size: nat)
    requires size + 1 < 0x1_0000_0000
    ensures 1 <= Bsr(size + 1) <= 32
  {
    BytePowers();
    BsrBounds(size + 1);
    if Bsr(size + 1) > 32 {
      Pow2Monotone(32, Bsr(size + 1) - 1);
    }
  }

  /** Fields that may be read as an integer have a length of at most four bits. */
  lemma BsrOfShort(size: nat)
    requires size <= 10
    ensures 1 <= Bsr(size + 1) <= 4
  {
    assert Pow2(4) == 16;
    BsrBounds(size + 1);
    if Bsr(size + 1) > 4 {
      Pow2Monotone(4, Bsr(size + 1) - 1);
    }
  }

  /** Bytes that hold a length of `sizeBits` bits and `len` characters. */
  function FieldBytes(sizeBits: nat, len: nat): nat
  {
    (sizeBits + 6 * len + 7) / 8
  }

  lemma ShortField(size: nat, len: nat)
    requires len <= size <= 10
    ensures 1 <= FieldBytes(Bsr(size + 1), len) <= 8
  {
    BsrOfShort(size);
  }

  /** Character `i` of an encoded field: the six-bit slice after the length and `i` characters. */
  function CharAt(field: seq<byte>, sizeBits: nat, i: nat): (c: nat)
    requires sizeBits + 6 * i + 6 <= 8 * |field|
    ensures SPACE <= c < SPACE + 64
  {
    BitsBound(field, sizeBits + 6 * i, 6);
    assert Pow2(6) == 64;
    Bits(field, sizeBits + 6 * i, 6) + SPACE
  }

  /** The characters of a field, each read at its own place. */
  function Chars(field: seq<byte>, sizeBits: nat, len: nat): (chars: seq<nat>)
    requires sizeBits + 6 * len <= 8 * |field|
    ensures |chars| == len
    ensures forall i :: 0 <= i < len ==> chars[i] == CharAt(field, sizeBits, i)
  {
    if len == 0 then [] else Chars(field, sizeBits, len - 1) + [CharAt(field, sizeBits, len - 1)]
  }

  // ---- The accumulator loop ----

  /** The low `b` bits of the accumulator are the `b` bits of `mem` from bit `pos` on. */
  ghost predicate Holds(mem: seq<byte>, pos: nat, b: nat, acc: nat)
  {
    && pos + b <= 8 * |mem|
    && Low(acc, b) == Bits(mem, pos, b)
  }

  /** The accumulator of the loop, shifted left by three bytes within 32 bits, with fresh ones below. */
  function Refilled(acc: nat, load: seq<byte>): nat
  {
    acc * 0x100_0000 % 0x1_0000_0000 + BE(load) / 256
  }

  /**
    Decodes `len` characters from the field at the start of `mem`, through 32-bit loads that may
    read up to four bytes past it.  The result is the bit slices of the field's own bytes, whatever
    stands behind them.
   */
  method DecodeChars(mem: seq<byte>, sizeBits: nat, len: nat) returns (out: seq<nat>)
    requires 1 <= sizeBits <= 26
    requires FieldBytes(sizeBits, len) + 4 <= |mem|
    ensures out == Chars(mem[..FieldBytes(sizeBits, len)], sizeBits, len)
  {
    hide Low, Shr, BE, Bits, Chars, FieldBytes, Refilled, Holds;
    ghost var field := mem[..FieldBytes(sizeBits, len)];
    FieldHolds(sizeBits, len, 0);
    NoChars(field, sizeBits);
    ghost var pos := sizeBits;
    var accumulator: nat := BE(mem[..4]);
    var readPtr := 4;
    var bitIndex: int := 32 - sizeBits - 6;
    FirstLoad(mem, sizeBits);

    out := [];
    var i := 0;
    while i != len
      invariant 0 <= i <= len && 0 <= bitIndex <= 26
      invariant pos == sizeBits + 6 * i && 8 * readPtr == pos + bitIndex + 6
      invariant Holds(mem, pos, bitIndex + 6, accumulator)
      invariant pos <= 8 * |field| && out == Chars(field, sizeBits, i)
    {
      FieldHolds(sizeBits, len, i + 1);
      NextChar(field, mem, sizeBits, i, pos, accumulator, bitIndex);
      out := out + [Low(Shr(accumulator, bitIndex), 6) + SPACE];
      bitIndex := bitIndex - 6;
      pos := pos + 6;
      if bitIndex < 0 {
        RefillBits(mem, readPtr, pos, bitIndex + 6, accumulator);
        bitIndex := bitIndex + 24;
        accumulator := Refilled(accumulator, mem[readPtr..readPtr + 4]);
        readPtr := readPtr + 3;
      }
      i := i + 1;
    }
  }

  lemma NoChars(field: seq<byte>, sizeBits: nat)
    requires sizeBits <= 8 * |field|
    ensures Chars(field, sizeBits, 0) == []
  {
  }

  lemma FieldHolds(sizeBits: nat, len: nat, i: nat)
    requires i <= len
    ensures sizeBits + 6 * i <= 8 * FieldBytes(sizeBits, len)
  {
  }

  /** What the length test reads, and what the loop starts from. */
  lemma FirstLoad(mem: seq<byte>, sizeBits: nat)
    requires 4 <= |mem| && sizeBits <= 32
    ensures Holds(mem, sizeBits, 32 - sizeBits, BE(mem[..4]))
    ensures Shr(BE(mem[..4]), 32 - sizeBits) == Bits(mem, 0, sizeBits)
  {
    hide Low, Shr, Bits, Shl, Pow2, BE;
    var b := 32 - sizeBits;
    BEIsBits(mem, 4);
    BitsConcat(mem, 0, sizeBits, b);
    BitsBound(mem, sizeBits, b);
    CutUnique(Bits(mem, 0, sizeBits), Bits(mem, sizeBits, b), b);
  }

  lemma NextChar(field: seq<byte>, mem: seq<byte>, sizeBits: nat, i: nat, pos: nat, acc: nat, b: nat)
    requires pos == sizeBits + 6 * i
    requires field <= mem && pos + 6 <= 8 * |field|
    requires Holds(mem, pos, b + 6, acc)
    ensures Chars(field, sizeBits, i + 1) == Chars(field, sizeBits, i) + [Low(Shr(acc, b), 6) + SPACE]
    ensures Holds(mem, pos + 6, b, acc)
  {
    hide Low, Shr, Bits;
    SplitHeld(mem, pos, acc, b);
    BitsPrefix(field, mem, pos, 6);
  }

  lemma SplitHeld(mem: seq<byte>, pos: nat, acc: nat, b: nat)
    requires Holds(mem, pos, b + 6, acc)
    ensures Low(Shr(acc, b), 6) == Bits(mem, pos, 6)
    ensures Holds(mem, pos + 6, b, acc)
  {
    hide Low, Shr, Bits, Shl, Pow2;
    assert 6 + b == b + 6;
    BitsConcat(mem, pos, 6, b);
    LowSplit(acc, b, 6);
    BitsBound(mem, pos + 6, b);
    CutUnique(Bits(mem, pos, 6), Bits(mem, pos + 6, b), b);
    LowBound(acc, b);
    CutUnique(Low(Shr(acc, b), 6), Low(acc, b), b);
  }

  lemma LowIgnoresHighByte(x: nat, b: nat)
    requires b <= 8
    ensures Low(x % 256, b) == Low(x, b)
  {
    hide Low, Shr, Pow2;
    var q, r := x / 256, x % 256;
    ShlBy8(q, 0);
    ShlShl(q, 8 - b, b);
    CutWord(r, b);
    LowBound(r, b);
    ShlSum(Shl(q, 8 - b), Shr(r, b), b);
    CutUnique(Shl(q, 8 - b) + Shr(r, b), Low(r, b), b);
  }

  lemma RefillBits(mem: seq<byte>, readPtr: nat, pos: nat, b: nat, acc: nat)
    requires readPtr + 4 <= |mem| && pos + b == 8 * readPtr && b <= 5
    requires Holds(mem, pos, b, acc)
    ensures Holds(mem, pos, b + 24, Refilled(acc, mem[readPtr..readPtr + 4]))
  {
    hide Low, Shr, Bits, Shl, BE;
    var load := mem[readPtr..readPtr + 4];
    var t := BE(load) / 256;
    assert t == Bits(mem, 8 * readPtr, 24) by {
      BEWithoutLast(load);
      assert load[..3] == mem[readPtr..readPtr + 3];
      BEInsideIsBits(mem, readPtr, 3);
    }
    var y := Refilled(acc, load);
    RefillSplit(acc, load);
    LowSplit(y, 24, b);
    LowIgnoresHighByte(acc, b);
    BitsConcat(mem, pos, b, 24);
  }

  lemma BEWithoutLast(s: seq<byte>)
    requires s != []
    ensures BE(s) / 256 == BE(s[..|s| - 1])
  {
  }

  lemma LowByteShifted(x: nat)
    ensures x * 0x100_0000 % 0x1_0000_0000 == x % 256 * 0x100_0000
  {
  }

  lemma ShlBy24(x: nat)
    ensures Shl(x, 24) == x * 0x100_0000
  {
    ShlBy8(x, 16);
    ShlBy8(x, 8);
    ShlBy8(x, 0);
  }

  lemma RefillSplit(acc: nat, load: seq<byte>)
    requires |load| == 4
    ensures Shr(Refilled(acc, load), 24) == acc % 256
    ensures Low(Refilled(acc, load), 24) == BE(load) / 256
  {
    hide Shr, Low, BE, Shl, Pow2;
    BEWithoutLast(load);
    BEBound(load[..3]);
    BytePowers();
    LowByteShifted(acc);
    ShlBy24(acc % 256);
    CutUnique(acc % 256, BE(load) / 256, 24);
  }

  // ---- The NULL field ----

  /** A length of `size + 1` at the top of a 32-bit word, cut to the bytes that hold a length. */
  function NullField(size: nat): (field: seq<byte>)
    requires size + 1 < 0x1_0000_0000
    ensures |field| == (Bsr(size + 1) + 7) / 8
  {
    BsrOfWord(size);
    BEBytes(Shl(size + 1, 32 - Bsr(size + 1)), 4)[..(Bsr(size + 1) + 7) / 8]
  }

  lemma NullFieldBits(size: nat, sizeBits: nat)
    requires size + 1 < 0x1_0000_0000 && sizeBits == Bsr(size + 1)
    ensures sizeBits <= 8 * |NullField(size)| && Bits(NullField(size), 0, sizeBits) == size + 1
  {
    hide Bits, Shl, Shr, Low, Pow2, BE, BEBytes, Bsr;
    BsrOfWord(size);
    BsrBounds(size + 1);
    TopOfWord(size + 1, sizeBits, 32 - sizeBits);
    BitsPrefix(NullField(size), BEBytes(Shl(size + 1, 32 - sizeBits), 4), 0, sizeBits);
  }

  /** A value shifted to the top of a 32-bit word stands in its first bits. */
  lemma TopOfWord(x: nat, n: nat, rest: nat)
    requires n + rest == 32 && x < Pow2(n)
    ensures Bits(BEBytes(Shl(x, rest), 4), 0, n) == x
  {
    hide Bits, Shl, Shr, Low, Pow2, BE, BEBytes;
    var word := BEBytes(Shl(x, rest), 4);
    ShlBound(x, n, rest);
    LowOfSmall(Shl(x, rest), 32);
    BEOfBytes(Shl(x, rest), 4);
    BitsOfValue(word, 0, n, rest);
    CutUnique(x, 0, rest);
    LowOfSmall(x, n);
  }

  // ---- A field as an integer ----

  /** `highbytemask64LUT[n] & x`: the high `n` bytes of a 64-bit word. */
  function HighBytes(x: nat, n: nat): nat
    requires n <= 8
  {
    Shl(Shr(x, 64 - 8 * n), 64 - 8 * n)
  }

  /** The word that a field of at most eight bytes stands for: its leading bytes, from the top down. */
  function FieldWord(field: seq<byte>, width: nat): nat
  {
    if width <= |field| then BE(field[..width]) else Shl(BE(field), 8 * (width - |field|))
  }

  /** What `getAlphanumericAs<uint32>` makes of a field, whose first four bytes meet the low half of
      the 64-bit mask: nothing of up to four bytes, and of longer fields all but their last four. */
  function NarrowWord(field: seq<byte>): nat
    requires |field| <= 8
  {
    if |field| <= 4 then 0 else FieldWord(field[..|field| - 4], 4)
  }

  /** The masked 64-bit load holds the field in its top bytes and nothing of what follows it. */
  lemma WideLoadIsField(mem: seq<byte>, n: nat, rest: nat)
    requires n <= 8 == |mem| && rest == 64 - 8 * n
    ensures HighBytes(BE(mem), n) == FieldWord(mem[..n], 8)
  {
    ShiftedLoad(mem, n, rest);
    ShlNone(BE(mem[..n]));
    assert mem[..n][..n] == mem[..n];
  }

  /** The 32-bit load meets a mask that is 64 bits wide. */
  lemma NarrowLoad(mem: seq<byte>, n: nat, rest: nat)
    requires n <= 8 == |mem| && rest == 64 - 8 * n
    ensures HighBytes(BE(mem[..4]), n) == NarrowWord(mem[..n])
  {
    hide BE, Shl, Shr, Pow2;
    var load := mem[..4];
    if n <= 4 {
      BEBound(load);
      ShrOfSmall(BE(load), 32, rest);
      ShlOfZero(rest);
    } else {
      var top := mem[..n][..n - 4];
      assert top == load[..n - 4];
      ShiftedLoad(load, n - 4, rest);
      ShlNone(BE(top));
      assert |top| == 4 ==> top[..4] == top;
      assert 8 * (4 - |top|) == rest;
    }
  }

  /** The 32-bit instance is right exactly when the bytes that its mask clears are zero: those from the
      fourth last of the field up to its fourth. */
  lemma NarrowWordExactDomain(field: seq<byte>, from: nat, to: nat)
    requires |field| <= 8
    requires from == (if |field| <= 4 then 0 else |field| - 4) && to == Min(|field|, 4)
    ensures NarrowWord(field) == FieldWord(field, 4) <==> BE(field[from..to]) == 0
  {
    hide BE, Shl, Shr, Low, Bits, Pow2;
    var n := |field|;
    if n <= 4 {
      assert field[0..n] == field[..n] == field;
      ShlIsZero(BE(field), 8 * (4 - n));
    } else {
      var load, rest := field[..4], 8 * (8 - n);
      ShiftedLoad(load, n - 4, rest);
      CutWord(BE(load), rest);
      ShlNone(BE(load));
      BitsOfValue(load, 32 - rest, rest, 0);
      ShrNone(BE(load));
      BEInsideIsBits(load, n - 4, 8 - n);
      assert load[n - 4..n - 4 + (8 - n)] == field[from..to];
      assert load[..n - 4] == field[..n - 4];
    }
  }

  /** Two concrete fields that come out wrong, one of a single byte and one of five. */
  lemma NarrowWordFails()
    ensures NarrowWord([0x21]) != FieldWord([0x21], 4)
    ensures NarrowWord([0x41, 0x20, 0, 0, 0]) != FieldWord([0x41, 0x20, 0, 0, 0], 4)
  {
    NarrowWordExactDomain([0x21], 0, 1);
    var five: seq<byte> := [0x41, 0x20, 0, 0, 0];
    NarrowWordExactDomain(five, 1, 4);
    assert five[1..4] == [0x20, 0, 0];
    assert [0x20, 0, 0][..2] == [0x20, 0] && [0x20, 0][..1] == [0x20];
    assert BE([0x20]) == 0x20;
  }
}
