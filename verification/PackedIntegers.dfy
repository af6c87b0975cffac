/**
  Variable-length integers: the writer's encodings, the reader's decodings, and intervals.
 */
module PackedIntegers {
  import opened Words
  import opened Alphanumeric
  import opened Cursor

  const MAX_UINT30 := 0x4000_0000
  const MAX_UINT61 := 0x2000_0000_0000_0000

  // ---- The writer ----

  /** The branchless count of a value's bytes. */
  function ByteCount(value: nat): nat
  {
    (Bsr(value) + 7) / 8
  }

  /** `writeVariableLengthInt`: the bytes of a value, least significant first, without leading zeros. */
  function VariableLength(value: nat): (bytes: seq<byte>)
  {
    LEBytes(value, ByteCount(value))
  }

  /** `writePackedUInt`: `radix` is 64 for 32-bit values and 32 for 64-bit ones. */
  function Packed(value: nat, radix: nat): (bytes: seq<byte>)
    requires (radix == 64 && value < MAX_UINT30) || (radix == 32 && value < MAX_UINT61)
    ensures bytes != []
  {
    var body := VariableLength(value / radix);
    BodyLength(value, radix);
    [value % radix + |body| * radix] + body
  }

  /** `writePackedUInt22`. */
  function Packed22(value: nat): (bytes: seq<byte>)
    requires value < 0x40_0000
    ensures bytes != []
  {
    if value < 0x80 then [value]
    else
      var body := VariableLength(value / 64);
      BodyLength22(value);
      [value % 64 + 0x40 + |body| * 64] + body
  }

  lemma NoBits()
    ensures Bsr(0) == 0
  {
  }

  lemma LengthOfSmall(value: nat, n: nat)
    requires value < Pow2(8 * n)
    ensures |VariableLength(value)| <= n
  {
    hide Pow2, LEBytes, Bsr;
    NoBits();
    if value > 0 {
      BsrBounds(value);
      if Bsr(value) > 8 * n {
        Pow2Monotone(8 * n, Bsr(value) - 1);
      }
    }
  }

  lemma BodyLength(value: nat, radix: nat)
    requires (radix == 64 && value < MAX_UINT30) || (radix == 32 && value < MAX_UINT61)
    ensures |VariableLength(value / radix)| <= if radix == 64 then 3 else 7
  {
    BytePowers();
    LengthOfSmall(value / radix, if radix == 64 then 3 else 7);
  }

  lemma BodyLength22(value: nat)
    requires 0x80 <= value < 0x40_0000
    ensures 1 <= |VariableLength(value / 64)| <= 2
  {
    BytePowers();
    BsrBounds(value / 64);
    LengthOfSmall(value / 64, 2);
  }

  lemma VariableLengthBack(value: nat)
    ensures LE(VariableLength(value)) == value
  {
    var n := ByteCount(value);
    LEOfBytes(value, n);
    if value > 0 {
      BsrBounds(value);
      Pow2Monotone(Bsr(value), 8 * n);
    }
    LowOfSmall(value, 8 * n);
  }

  // ---- Writing and reading back ----

  lemma TakeTwice(s: seq<byte>, c: Cursor, header: byte, body: seq<byte>)
    requires StandsAt(s, c, [header] + body)
    ensures UInt(s, c, 1) == Got(header, c.(pos := c.pos + 1))
    ensures Take(s, c.(pos := c.pos + 1), |body|) == Got(body, c.(pos := c.pos + 1 + |body|))
  {
    var all := s[c.pos..c.pos + 1 + |body|];
    assert all[..1] == [header] == s[c.pos..c.pos + 1];
    assert all[1..] == body;
    assert BE([header]) == header by {
      assert [header][..0] == [];
    }
  }

  lemma HeaderDigits(low: nat, n: nat, radix: nat)
    requires (radix == 64 || radix == 32) && low < radix
    ensures (low + n * radix) % radix == low && (low + n * radix) / radix == n
  {
  }

  /** Every value is read back, at every cursor, and the cursor ends behind its encoding. */
  lemma PackedRoundTrip30(s: seq<byte>, c: Cursor, value: nat)
    requires value < MAX_UINT30 && StandsAt(s, c, Packed(value, 64))
    ensures PackedUInt30(s, c) == Got(value, c.(pos := c.pos + |Packed(value, 64)|))
  {
    hide BE, LE, LEBytes, VariableLength;
    var body := VariableLength(value / 64);
    BodyLength(value, 64);
    HeaderDigits(value % 64, |body|, 64);
    TakeTwice(s, c, value % 64 + |body| * 64, body);
    VariableLengthBack(value / 64);
  }

  lemma PackedRoundTrip61(s: seq<byte>, c: Cursor, value: nat)
    requires value < MAX_UINT61 && StandsAt(s, c, Packed(value, 32))
    ensures PackedUInt61(s, c) == Got(value, c.(pos := c.pos + |Packed(value, 32)|))
  {
    hide BE, LE, LEBytes, VariableLength;
    var body := VariableLength(value / 32);
    BodyLength(value, 32);
    HeaderDigits(value % 32, |body|, 32);
    TakeTwice(s, c, value % 32 + |body| * 32, body);
    VariableLengthBack(value / 32);
  }

  lemma PackedRoundTrip22(s: seq<byte>, c: Cursor, value: nat)
    requires value < 0x40_0000 && StandsAt(s, c, Packed22(value))
    ensures PackedUInt22(s, c) == Got(value, c.(pos := c.pos + |Packed22(value)|))
  {
    hide BE, LE, LEBytes, VariableLength;
    if value < 0x80 {
      assert [value] + [] == [value];
      TakeTwice(s, c, value, []);
    } else {
      var body := VariableLength(value / 64);
      BodyLength22(value);
      HeaderDigits(value % 64, |body| + 1, 64);
      TakeTwice(s, c, value % 64 + 0x40 + |body| * 64, body);
      VariableLengthBack(value / 64);
    }
  }

  /** Whatever bytes are read, the value stays within the format. */
  lemma DecodedWithinBounds(s: seq<byte>, c: Cursor)
    ensures PackedUInt30(s, c).Got? ==> PackedUInt30(s, c).value < MAX_UINT30
    ensures PackedUInt61(s, c).Got? ==> PackedUInt61(s, c).value < MAX_UINT61
    ensures PackedUInt22(s, c).Got? ==> PackedUInt22(s, c).value < 0x40_0000
  {
    hide BE, LE, Pow2;
    var header := UInt(s, c, 1);
    if header.Got? {
      BEBound(s[c.pos..c.pos + 1]);
      BytePowers();
      var h, c1 := header.value, header.cursor;
      BodyBound(s, c1, h / 64);
      BodyBound(s, c1, h / 32);
      if h >= 0x80 {
        BodyBound(s, c1, h / 64 - 1);
      }
    }
  }

  lemma BodyBound(s: seq<byte>, c: Cursor, n: nat)
    requires n <= 7
    ensures Take(s, c, n).Got? ==> LE(Take(s, c, n).value) < 0x100_0000_0000_0000
    ensures Take(s, c, n).Got? && n <= 3 ==> LE(Take(s, c, n).value) < 0x100_0000
    ensures Take(s, c, n).Got? && n <= 2 ==> LE(Take(s, c, n).value) < 0x1_0000
  {
    BytePowers();
    if Take(s, c, n).Got? {
      LEBound(Take(s, c, n).value);
      Pow2Monotone(8 * n, 56);
      if n <= 3 {
        Pow2Monotone(8 * n, 24);
      }
      if n <= 2 {
        Pow2Monotone(8 * n, 16);
      }
    }
  }

  /** The writer's form is the shortest one that is read as its value. */
  lemma PackedIsShortest30(s: seq<byte>, c: Cursor)
    requires PackedUInt30(s, c).Got?
    ensures var r := PackedUInt30(s, c);
      r.value < MAX_UINT30 && |Packed(r.value, 64)| <= r.cursor.pos - c.pos
  {
    DecodedWithinBounds(s, c);
    var h := UInt(s, c, 1);
    var body := Take(s, h.cursor, h.value / 64).value;
    LEBound(body);
    assert PackedUInt30(s, c).value / 64 == LE(body);
    LengthOfSmall(LE(body), |body|);
  }

  lemma PackedIsShortest61(s: seq<byte>, c: Cursor)
    requires PackedUInt61(s, c).Got?
    ensures var r := PackedUInt61(s, c);
      r.value < MAX_UINT61 && |Packed(r.value, 32)| <= r.cursor.pos - c.pos
  {
    DecodedWithinBounds(s, c);
    var h := UInt(s, c, 1);
    var body := Take(s, h.cursor, h.value / 32).value;
    LEBound(body);
    assert PackedUInt61(s, c).value / 32 == LE(body);
    LengthOfSmall(LE(body), |body|);
  }

  lemma PackedIsShortest22(s: seq<byte>, c: Cursor)
    requires PackedUInt22(s, c).Got?
    ensures var r := PackedUInt22(s, c);
      r.value < 0x40_0000 && |Packed22(r.value)| <= r.cursor.pos - c.pos
  {
    DecodedWithinBounds(s, c);
    var h := UInt(s, c, 1);
    if h.value >= 0x80 {
      var body := Take(s, h.cursor, h.value / 64 - 1).value;
      LEBound(body);
      assert PackedUInt22(s, c).value / 64 == LE(body);
      LengthOfSmall(LE(body), |body|);
    }
  }

  // ---- Nullable fields ----

  /** `writePUInt30` and `writePUInt61`: 0 stands for NULL, and values are shifted up by one. */
  function PackedNullable30(value: nat): seq<byte>
    requires value == UINT30_NULL || value <= MAX_UINT30 - 2
  {
    if value == UINT30_NULL then [0] else Packed(value + 1, 64)
  }

  function PackedNullable61(value: nat): seq<byte>
    requires value == UINT61_NULL || value <= MAX_UINT61 - 2
  {
    if value == UINT61_NULL then [0] else Packed(value + 1, 32)
  }

  lemma ZeroIsRead(s: seq<byte>, c: Cursor)
    requires StandsAt(s, c, [0])
    ensures PackedUInt30(s, c) == Got(0, c.(pos := c.pos + 1))
    ensures PackedUInt61(s, c) == Got(0, c.(pos := c.pos + 1))
  {
    assert [0] + [] == [0];
    TakeTwice(s, c, 0, []);
  }

  /** NULL and every value survive writing and reading, and only NULL reads as NULL. */
  lemma NullableRoundTrip30(s: seq<byte>, c: Cursor, value: nat)
    requires value == UINT30_NULL || value <= MAX_UINT30 - 2
    requires StandsAt(s, c, PackedNullable30(value))
    ensures ReadLeaf(s, c, PUInt30) == Got(Number(value), c.(pos := c.pos + |PackedNullable30(value)|))
  {
    hide PackedUInt30, Packed;
    if value == UINT30_NULL {
      ZeroIsRead(s, c);
    } else {
      PackedRoundTrip30(s, c, value + 1);
    }
  }

  lemma NullableRoundTrip61(s: seq<byte>, c: Cursor, value: nat)
    requires value == UINT61_NULL || value <= MAX_UINT61 - 2
    requires StandsAt(s, c, PackedNullable61(value))
    ensures ReadLeaf(s, c, PUInt61) == Got(Number(value), c.(pos := c.pos + |PackedNullable61(value)|))
  {
    hide PackedUInt61, Packed;
    if value == UINT61_NULL {
      ZeroIsRead(s, c);
    } else {
      PackedRoundTrip61(s, c, value + 1);
    }
  }

  // ---- Skipping a 22-bit integer ----

  const SIZE: int := 0x1_0000_0000_0000_0000

  /** The amount `skipPackedUInt22` skips after the header, in unsigned 64-bit arithmetic. */
  function Skipped22(header: byte): (n: nat)
  {
    (header / 64 - 1) % SIZE
  }

  /** It is the amount the reader takes exactly for headers from 0x40 up. */
  lemma Skip22ExactDomain(s: seq<byte>, c: Cursor, header: byte)
    requires StandsAt(s, c, [header])
    requires PackedUInt22(s, c).Got?
    ensures Skipped22(header) == PackedUInt22(s, c).cursor.pos - (c.pos + 1) <==> header >= 0x40
  {
    assert [header] + [] == [header];
    TakeTwice(s, c, header, []);
  }

  lemma Skip22Fails()
    ensures Skipped22(0x3F) == SIZE - 1
  {
  }

  // ---- Intervals ----

  /**
    `putInterval`: hours, minutes or seconds that fit six bits are written as that number alone, in
    one byte; the granularity is computed but never stored.
   */
  function WrittenInterval(value: nat): seq<byte>
    requires value < 0x8000_0000
  {
    if value == INTERVAL_NULL then [0]
    else
      var unit := if value % 60000 == 0 then (if value % 3600000 == 0 then 3600000 else 60000) else 1000;
      if value % unit == 0 && value / unit < 64 then [value / unit]
      else [0xC0] + BEBytes(value, 4)
  }

  /** What `putInterval` is meant to write: a count of the largest unit that divides the value, with the
      unit in the top two bits, or four bytes behind a byte with both of them set. */
  function IntendedInterval(value: nat): (bytes: seq<byte>)
    requires value < 0x8000_0000
    ensures bytes != []
  {
    if value % 3600000 == 0 && value / 3600000 < 64 && value != 0 then [0x80 + value / 3600000]
    else if value % 60000 == 0 && value % 3600000 != 0 && value / 60000 < 64 then [0x40 + value / 60000]
    else if value % 1000 == 0 && value % 60000 != 0 && value / 1000 < 64 then [value / 1000]
    else if value == 0 then [0]
    else [0xC0] + BEBytes(value, 4)
  }

  /** Every interval is read back from the encoding that is meant. */
  lemma IntendedIntervalIsRead(s: seq<byte>, c: Cursor, value: nat)
    requires value < 0x8000_0000 && StandsAt(s, c, IntendedInterval(value))
    ensures var behind := c.(pos := c.pos + |IntendedInterval(value)|);
      ReadInterval(s, c) == Got(value, behind) && ReadLeaf(s, c, Interval) == Got(Number(value), behind)
  {
    hide BE, LE, Pow2, Low, BEBytes;
    var bytes := IntendedInterval(value);
    if |bytes| == 1 {
      assert [bytes[0]] + [] == bytes;
      TakeTwice(s, c, bytes[0], []);
    } else {
      TakeTwice(s, c, 0xC0, BEBytes(value, 4));
      BEOfBytes(value, 4);
      BytePowers();
      LowOfSmall(value, 32);
    }
  }

  /** Each unit by itself, and the values it stands for. */
  lemma UnitsOfInterval(s: seq<byte>, c: Cursor, x: nat)
    requires x < 64
    ensures StandsAt(s, c, [x]) ==> ReadInterval(s, c) == Got(x * 1000, c.(pos := c.pos + 1))
    ensures StandsAt(s, c, [0x40 + x]) ==> ReadInterval(s, c) == Got(x * 60000, c.(pos := c.pos + 1))
    ensures StandsAt(s, c, [0x80 + x]) ==> ReadInterval(s, c) == Got(x * 3600000, c.(pos := c.pos + 1))
  {
    hide BE, LE;
    forall b: byte | StandsAt(s, c, [b])
      ensures UInt(s, c, 1) == Got(b as nat, c.(pos := c.pos + 1))
    {
      assert [b] + [] == [b];
      TakeTwice(s, c, b, []);
    }
  }

  /** An interval survives exactly when it is not a whole number of minutes, or not a short one. */
  lemma IntervalExactDomain(s: seq<byte>, c: Cursor, value: nat)
    requires value < 0x8000_0000 && StandsAt(s, c, WrittenInterval(value))
    ensures ReadInterval(s, c).Got? && ReadInterval(s, c).cursor.pos == c.pos + |WrittenInterval(value)|
    ensures ReadInterval(s, c).value == value <==>
      value == 0 || value % 60000 != 0
      || value / (if value % 3600000 == 0 then 3600000 else 60000) >= 64
  {
    hide BE, LE, Pow2, Low, BEBytes;
    var bytes := WrittenInterval(value);
    if |bytes| == 1 {
      assert [bytes[0]] + [] == bytes;
      TakeTwice(s, c, bytes[0], []);
    } else {
      var body := BEBytes(value, 4);
      TakeTwice(s, c, 0xC0, body);
      BEOfBytes(value, 4);
      BytePowers();
      LowOfSmall(value, 32);
    }
  }

  /** Two minutes are read back as two seconds. */
  lemma IntervalFails(s: seq<byte>, c: Cursor)
    requires StandsAt(s, c, WrittenInterval(120000))
    ensures ReadInterval(s, c).value == 2000
  {
    assert WrittenInterval(120000) == [2] + [];
    TakeTwice(s, c, 2, []);
  }
}
