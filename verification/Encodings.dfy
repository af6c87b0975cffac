/**
  Fields, containers and messages as they are meant to be encoded, and what reading them gives.

  The encodings are stated without the reader: numbers, lengths and characters as the writer lays them
  out, a container as its packed length and its content.
 */
module Encodings {
  import opened Words
  import opened Cursor
  import opened PackedIntegers
  import AlphanumericWriter
  import Containers
  import Integers
  import SixBits = Alphanumeric

  // ---- Single fields ----

  /** Header and mantissa of a decimal: a special value, eight raw bytes, or sign, length and exponent. */
  predicate IsDecimal(header: nat, mantissa: seq<byte>)
  {
    if header in {0x1F, 0x2F, 0x3F} then mantissa == []
    else if header == 0x0F then |mantissa| == 8
    else header < 256 && |mantissa| <= 7 && header == 128 * (header / 128) + 16 * |mantissa| + header % 16
  }

  predicate IsText(size: nat, chars: seq<nat>)
  {
    && size + 1 < 0x1_0000_0000 && |chars| <= size && AlphanumericWriter.AreCharacters(chars)
    && SixBits.Bsr(size + 1) <= 58
    && AlphanumericWriter.AllSurvive(AlphanumericWriter.Codes(chars), SixBits.Bsr(size + 1))
  }

  /** The values that a field of this kind can carry. */
  predicate IsLeaf(leaf: Leaf, v: Value)
  {
    match leaf
    case Int(width) =>
      width in {1, 2, 4, 6, 8} && v.Number? && -Integers.SignBit(width) <= v.n < Integers.SignBit(width)
    case PUInt30 => v.Number? && v.n >= 0 && (v.n == UINT30_NULL || v.n <= MAX_UINT30 - 2)
    case PUInt61 => v.Number? && v.n >= 0 && (v.n == UINT61_NULL || v.n <= MAX_UINT61 - 2)
    case Interval => v.Number? && 0 <= v.n < 0x8000_0000
    case Decimal => v.DecimalBits? && IsDecimal(v.header, v.mantissa)
    case Utf8 => v.Null? || (v.Bytes? && |v.bytes| < 0xFFFF)
    case Alphanumeric(size) => size + 1 < 0x1_0000_0000 && (v.Null? || (v.Chars? && IsText(size, v.chars)))
    case Binary => v.Null? || (v.Bytes? && |v.bytes| < MAX_UINT30)
  }

  function LeafBytes(leaf: Leaf, v: Value): (bytes: seq<byte>)
    requires IsLeaf(leaf, v)
    ensures bytes != []
  {
    match leaf
    case Int(width) => BEBytes(v.n % Pow2(8 * width), width)
    case PUInt30 => PackedNullable30(v.n)
    case PUInt61 => PackedNullable61(v.n)
    case Interval => IntendedInterval(v.n)
    case Decimal => DecimalBytes(v.header, v.mantissa)
    case Utf8 => if v.Null? then [0xFF, 0xFF] else BEBytes(|v.bytes|, 2) + v.bytes
    case Alphanumeric(size) => TextBytes(size, v)
    case Binary => if v.Null? then [1] else [0] + (Packed(|v.bytes|, 64) + v.bytes)
  }

  function DecimalBytes(header: nat, mantissa: seq<byte>): seq<byte>
    requires IsDecimal(header, mantissa)
  {
    [header] + mantissa
  }

  function TextBytes(size: nat, v: Value): (bytes: seq<byte>)
    requires IsLeaf(Leaf.Alphanumeric(size), v)
    ensures bytes != []
  {
    SixBits.BsrOfWord(size);
    AlphanumericWriter.Written(size, if v.Null? then None else Some(v.chars))
  }

  lemma TextIsRead(s: seq<byte>, c: Cursor, size: nat, v: Value)
    requires IsLeaf(Leaf.Alphanumeric(size), v) && StandsAt(s, c, TextBytes(size, v))
    ensures ReadAlphanumeric(s, c, size) == Got(v, c.(pos := c.pos + |TextBytes(size, v)|))
  {
    hide ReadAlphanumeric;
    AlphanumericWriter.AlphanumericRoundTrip(s, c, size, if v.Null? then None else Some(v.chars));
  }

  lemma DecimalIsRead(s: seq<byte>, c: Cursor, header: nat, mantissa: seq<byte>)
    requires IsDecimal(header, mantissa) && StandsAt(s, c, DecimalBytes(header, mantissa))
    ensures ReadDecimal(s, c) == Got(DecimalBits(header, mantissa), c.(pos := c.pos + 1 + |mantissa|))
  {
    hide BE;
    TakeTwice(s, c, header, mantissa);
  }

  lemma StringIsRead(s: seq<byte>, c: Cursor, v: Value)
    requires IsLeaf(Utf8, v) && StandsAt(s, c, LeafBytes(Utf8, v))
    ensures ReadText(s, c) == Got(v, c.(pos := c.pos + |LeafBytes(Utf8, v)|))
  {
    hide BE, BEBytes, Pow2;
    BytePowers();
    if v.Null? {
      TwoSet();
      Integers.ReadBytes(s, c, 0xFFFF, 2);
    } else {
      InParts(s, c, BEBytes(|v.bytes|, 2), v.bytes);
      Integers.ReadBytes(s, c, |v.bytes|, 2);
    }
  }

  lemma TwoSet()
    ensures BEBytes(0xFFFF, 2) == [0xFF, 0xFF]
  {
    assert BEBytes(0xFFFF, 2) == (BEBytes(0, 0) + [0xFF]) + [0xFF];
  }

  lemma InParts(s: seq<byte>, c: Cursor, a: seq<byte>, b: seq<byte>)
    requires StandsAt(s, c, a + b)
    ensures StandsAt(s, c, a) && StandsAt(s, c.(pos := c.pos + |a|), b)
  {
    var all := s[c.pos..c.pos + |a + b|];
    assert all[..|a|] == a && all[|a|..] == b;
  }

  lemma BinaryIsRead(s: seq<byte>, c: Cursor, v: Value)
    requires IsLeaf(Binary, v) && StandsAt(s, c, LeafBytes(Binary, v))
    ensures ReadBinary(s, c) == Got(v, c.(pos := c.pos + |LeafBytes(Binary, v)|))
  {
    hide BE, Packed, PackedUInt30;
    if v.Null? {
      assert [1] + [] == [1];
      TakeTwice(s, c, 1, []);
    } else {
      var length := Packed(|v.bytes|, 64);
      TakeTwice(s, c, 0, length + v.bytes);
      InParts(s, c, [0], length + v.bytes);
      InParts(s, c.(pos := c.pos + 1), length, v.bytes);
      PackedRoundTrip30(s, c.(pos := c.pos + 1), |v.bytes|);
    }
  }

  /** Every value of every kind of field is read back, and the cursor ends behind it. */
  lemma LeafIsRead(s: seq<byte>, c: Cursor, leaf: Leaf, v: Value)
    requires IsLeaf(leaf, v) && StandsAt(s, c, LeafBytes(leaf, v))
    ensures ReadLeaf(s, c, leaf) == Got(v, c.(pos := c.pos + |LeafBytes(leaf, v)|))
  {
    hide BE, LE, Pow2, Signed, IntNull, ReadAlphanumeric, ReadText, ReadDecimal, ReadBinary, ReadInterval,
      PackedUInt30, PackedUInt61, TextBytes, PackedNullable30, PackedNullable61, IntendedInterval, IsText, IsDecimal;
    match leaf
    case Int(width) => Integers.IntegerIsRead(s, c, v.n, width);
    case PUInt30 => NullableRoundTrip30(s, c, v.n);
    case PUInt61 => NullableRoundTrip61(s, c, v.n);
    case Interval => IntendedIntervalIsRead(s, c, v.n);
    case Decimal => DecimalIsRead(s, c, v.header, v.mantissa);
    case Utf8 => StringIsRead(s, c, v);
    case Alphanumeric(size) => TextIsRead(s, c, size, v);
    case Binary => BinaryIsRead(s, c, v);
  }

  // ---- NULL, and the end of the content ----

  /** The bytes that mean NULL. */
  function NullBytes(leaf: Leaf): (bytes: seq<byte>)
    requires leaf.Int? ==> leaf.width > 0
    requires leaf.Alphanumeric? ==> leaf.size + 1 < 0x1_0000_0000
  {
    match leaf
    case Int(width) => Integers.Lowest(width)
    case Decimal => [0x1F]
    case Utf8 => [0xFF, 0xFF]
    case Alphanumeric(size) => SixBits.NullField(size)
    case Binary => [1]
    case _ => [0]
  }

  /** Past the end of the content every field but a binary one reads as its NULL bytes do. */
  lemma EndIsNull(s: seq<byte>, c: Cursor, d: Cursor, leaf: Leaf)
    requires !leaf.Binary? && (leaf.Int? ==> leaf.width in {1, 2, 4, 6, 8})
    requires leaf.Alphanumeric? ==> leaf.size + 1 < 0x1_0000_0000
    requires c.AtEnd() && StandsAt(s, d, NullBytes(leaf))
    ensures ReadLeaf(s, c, leaf) == Got(EndValue(leaf), c)
    ensures ReadLeaf(s, d, leaf) == Got(EndValue(leaf), d.(pos := d.pos + |NullBytes(leaf)|))
  {
    hide BE, LE, Pow2, Signed, ReadAlphanumeric, Packed, SixBits.NullField;
    match leaf
    case Int(width) => Integers.EndIsLowest(s, c, d, width);
    case PUInt30 => NullableRoundTrip30(s, d, UINT30_NULL);
    case PUInt61 => NullableRoundTrip61(s, d, UINT61_NULL);
    case Interval =>
      assert IntendedInterval(0) == [0];
      IntendedIntervalIsRead(s, d, 0);
    case Decimal => DecimalIsRead(s, d, 0x1F, []);
    case Utf8 => StringIsRead(s, d, Null);
    case Alphanumeric(size) => NullTextIsRead(s, d, size);
  }

  lemma NullTextIsRead(s: seq<byte>, c: Cursor, size: nat)
    requires size + 1 < 0x1_0000_0000 && StandsAt(s, c, SixBits.NullField(size))
    ensures ReadAlphanumeric(s, c, size) == Got(Null, c.(pos := c.pos + |SixBits.NullField(size)|))
    ensures |SixBits.NullField(size)| > 0
  {
    hide ReadAlphanumeric;
    SixBits.BsrOfWord(size);
    TextIsRead(s, c, size, Null);
  }

  /** The values that stand for NULL, where they are numbers. */
  lemma NullNumbers()
    ensures EndValue(PUInt30) == Number(0x7FFF_FFFF) && EndValue(PUInt61) == Number(0x7FFF_FFFF_FFFF_FFFF)
    ensures EndValue(Interval) == Number(0)
    ensures EndValue(Int(1)) == Number(-0x80) && EndValue(Int(2)) == Number(-0x8000)
    ensures EndValue(Int(4)) == Number(-0x8000_0000) && EndValue(Int(6)) == Number(-0x8000_0000_0000)
    ensures EndValue(Int(8)) == Number(-0x8000_0000_0000_0000)
  {
    hide Pow2;
    Integers.LowestValues();
  }

  // ---- Containers ----

  /** A container with some content: its packed length in front. */
  function ContainerBytes(content: seq<byte>): (bytes: seq<byte>)
    requires |content| < 0x40_0000
  {
    Packed22(|content|) + content
  }

  /** Inside a container whose content starts at `at` and is `n` bytes long. */
  function Inside(c: Cursor, at: nat, n: nat, isArray: bool): Cursor
    requires at + n <= c.end
  {
    Cursor(at, at + n, c.ofs + [c.end - (at + n)], c.kinds + [isArray])
  }

  /** Opening a container stands in front of its content, with its end behind it. */
  lemma ContentIsOpened(s: seq<byte>, c: Cursor, content: seq<byte>, isArray: bool)
    requires c.Valid() && |c.ofs| < MAX_NESTED && 0 < |content| < 0x40_0000
    requires StandsAt(s, c, ContainerBytes(content))
    ensures var at := c.pos + |Packed22(|content|)|;
      && at + |content| <= c.end
      && Open(s, c, isArray) == Got(true, Inside(c, at, |content|, isArray))
      && StandsAt(s, Inside(c, at, |content|, isArray), content)
  {
    hide Packed22, PackedUInt22;
    InParts(s, c, Packed22(|content|), content);
    PackedRoundTrip22(s, c, |content|);
  }

  /** The start of an array answers the number of its items, and stands in front of them. */
  lemma ArrayStartIsRead(s: seq<byte>, c: Cursor, n: nat, items: seq<byte>)
    requires c.Valid() && |c.ofs| < MAX_NESTED && n < 0x40_0000 && |Packed22(n) + items| < 0x40_0000
    requires StandsAt(s, c, ContainerBytes(Packed22(n) + items))
    ensures var content := Packed22(n) + items; var at := c.pos + |Packed22(|content|)|;
      && at + |content| <= c.end
      && var inside := Inside(c, at, |content|, true).(pos := at + |Packed22(n)|);
         ReadStart(s, c, true) == Got(Some(n), inside) && StandsAt(s, inside, items)
  {
    hide Packed22, PackedUInt22, Open;
    var content := Packed22(n) + items;
    ContentIsOpened(s, c, content, true);
    var inside := Inside(c, c.pos + |Packed22(|content|)|, |content|, true);
    InParts(s, inside, Packed22(n), items);
    PackedRoundTrip22(s, inside, n);
  }

  /** The start of an object answers its type, and stands in front of its fields. */
  lemma ObjectStartIsRead(s: seq<byte>, c: Cursor, typeIndex: byte, items: seq<byte>)
    requires c.Valid() && |c.ofs| < MAX_NESTED && |[typeIndex] + items| < 0x40_0000
    requires StandsAt(s, c, ContainerBytes([typeIndex] + items))
    ensures var content := [typeIndex] + items; var at := c.pos + |Packed22(|content|)|;
      && at + |content| <= c.end
      && var inside := Inside(c, at, |content|, false).(pos := at + 1);
         ReadStart(s, c, false) == Got(Some(typeIndex as nat), inside) && StandsAt(s, inside, items)
  {
    hide Packed22, PackedUInt22, Open, BE;
    var content := [typeIndex] + items;
    ContentIsOpened(s, c, content, false);
    var inside := Inside(c, c.pos + |Packed22(|content|)|, |content|, false);
    InParts(s, inside, [typeIndex], items);
    TakeTwice(s, inside, typeIndex, items);
  }

  /** A zero in the place of a container is NULL, at any depth. */
  lemma NullStartIsRead(s: seq<byte>, c: Cursor, isArray: bool)
    requires c.Valid() && StandsAt(s, c, [0])
    ensures ReadStart(s, c, isArray) == Got(None, c.(pos := c.pos + 1))
  {
    assert Packed22(0) == [0];
    PackedRoundTrip22(s, c, 0);
    hide PackedUInt22;
  }

  /** Containers are nested sixteen deep at most: at that depth only NULL can be opened. */
  lemma TooDeep(s: seq<byte>, c: Cursor, isArray: bool)
    requires c.Valid() && |c.ofs| == 16
    ensures Open(s, c, isArray).Got? <==> PackedUInt22(s, c).Got? && PackedUInt22(s, c).value == 0
  {
    hide PackedUInt22;
  }

  /** A container that claims more than its parent has left ends with its parent. */
  lemma LongClaimIsClipped(s: seq<byte>, c: Cursor, isArray: bool)
    requires c.Valid() && |c.ofs| < MAX_NESTED && PackedUInt22(s, c).Got? && PackedUInt22(s, c).value > 0
    requires PackedUInt22(s, c).cursor.pos + PackedUInt22(s, c).value > c.end >= PackedUInt22(s, c).cursor.pos
    ensures var at := PackedUInt22(s, c).cursor.pos;
      Open(s, c, isArray) == Got(true, Inside(c, at, c.end - at, isArray))
  {
    PackedUInt22Moves(s, c);
    hide PackedUInt22;
  }

  /** A container is closed exactly by the call of its kind, when the stream reaches its end. */
  lemma CloseExactDomain(s: seq<byte>, c: Cursor, isArray: bool)
    requires c.Valid()
    ensures Close(s, c, isArray).Got? <==>
      |c.ofs| > 0 && c.kinds[|c.ofs| - 1] == isArray && c.end <= |s|
  {
  }
}
