/**
  Bytes, machine words and bit strings.

  A machine word is a natural number below a power of two; a buffer is a sequence of bytes.
  Bit positions count from the most significant bit of the first byte, as on the wire.
 */
module Words {
  type byte = b: int | 0 <= b < 256

  datatype Option<+T> = None | Some(value: T)

  function Min(a: nat, b: nat): (m: nat)
    ensures m <= a && m <= b && (m == a || m == b)
  {
    if a <= b then a else b
  }

  lemma Associate<T>(a: seq<T>, b: seq<T>, c: seq<T>)
    ensures (a + b) + c == a + (b + c)
  {
  }

  function Pow2(n: nat): (p: nat)
    ensures p >= 1
  {
    if n == 0 then 1 else 2 * Pow2(n - 1)
  }

  /** `x << n`, before truncation to a word. */
  function Shl(x: nat, n: nat): (y: nat)
  {
    if n == 0 then x else 2 * Shl(x, n - 1)
  }

  /** `x >> n`. */
  function Shr(x: nat, n: nat): (y: nat)
  {
    if n == 0 then x else Shr(x / 2, n - 1)
  }

  /** `x & (2^n - 1)`. */
  function Low(x: nat, n: nat): (y: nat)
  {
    if n == 0 then 0 else 2 * Low(x / 2, n - 1) + x % 2
  }

  lemma {:induction false} Pow2Monotone(a: nat, b: nat)
    requires a <= b
    ensures Pow2(a) <= Pow2(b)
  {
    if a < b {
      Pow2Monotone(a, b - 1);
    }
  }

  lemma Pow2By8(n: nat)
    ensures Pow2(n + 8) == 256 * Pow2(n)
  {
    assert Pow2(n + 2) == 4 * Pow2(n);
    assert Pow2(n + 4) == 4 * Pow2(n + 2);
    assert Pow2(n + 6) == 4 * Pow2(n + 4);
    assert Pow2(n + 8) == 4 * Pow2(n + 6);
  }

  lemma Pow2None()
    ensures Pow2(0) == 1
  {
  }

  lemma BytePowers()
    ensures Pow2(8) == 0x100 && Pow2(16) == 0x1_0000 && Pow2(24) == 0x100_0000
    ensures Pow2(32) == 0x1_0000_0000 && Pow2(56) == 0x100_0000_0000_0000
  {
    hide Pow2;
    Pow2None();
    Pow2By8(0);
    Pow2By8(8);
    Pow2By8(16);
    Pow2By8(24);
    Pow2By8(32);
    Pow2By8(40);
    Pow2By8(48);
  }

  lemma ShlBy8(x: nat, n: nat)
    ensures Shl(x, n + 8) == 256 * Shl(x, n)
  {
    assert Shl(x, n + 2) == 4 * Shl(x, n);
    assert Shl(x, n + 4) == 4 * Shl(x, n + 2);
    assert Shl(x, n + 6) == 4 * Shl(x, n + 4);
    assert Shl(x, n + 8) == 4 * Shl(x, n + 6);
  }

  lemma ShrBy8(x: nat, n: nat)
    ensures Shr(x, n + 8) == Shr(x / 256, n)
  {
    assert Shr(x, n + 8) == Shr(x / 4, n + 6);
    assert Shr(x / 4, n + 6) == Shr(x / 16, n + 4);
    assert Shr(x / 16, n + 4) == Shr(x / 64, n + 2);
    assert Shr(x / 64, n + 2) == Shr(x / 256, n);
  }

  lemma LowBy2(x: nat, n: nat)
    ensures Low(x, n + 2) == 4 * Low(x / 4, n) + x % 4
  {
    assert Low(x, n + 2) == 2 * Low(x / 2, n + 1) + x % 2;
    assert Low(x / 2, n + 1) == 2 * Low(x / 2 / 2, n) + x / 2 % 2;
    assert x / 2 / 2 == x / 4 && 2 * (x / 2 % 2) + x % 2 == x % 4;
  }

  lemma LowBy4(x: nat, n: nat)
    ensures Low(x, n + 4) == 16 * Low(x / 16, n) + x % 16
  {
    hide Low;
    LowBy2(x, n + 2);
    LowBy2(x / 4, n);
  }

  lemma LowBy8(x: nat, n: nat)
    ensures Low(x, n + 8) == 256 * Low(x / 256, n) + x % 256
  {
    hide Low;
    LowBy4(x, n + 4);
    LowBy4(x / 16, n);
  }

  lemma ShlNone(x: nat)
    ensures Shl(x, 0) == x
  {
  }

  lemma ShrNone(x: nat)
    ensures Shr(x, 0) == x
  {
  }

  lemma {:induction false} ShlOfZero(n: nat)
    ensures Shl(0, n) == 0
  {
    if n > 0 {
      ShlOfZero(n - 1);
    }
  }

  lemma {:induction false} ShlIsZero(x: nat, n: nat)
    ensures Shl(x, n) == 0 <==> x == 0
  {
    if n > 0 {
      ShlIsZero(x, n - 1);
    }
  }

  lemma {:induction false} ShlBound(x: nat, a: nat, n: nat)
    requires x < Pow2(a)
    ensures Shl(x + 1, n) <= Pow2(a + n) && Shl(x, n) + Pow2(n) == Shl(x + 1, n)
  {
    if n > 0 {
      ShlBound(x, a, n - 1);
    }
  }

  lemma {:induction false} ShlSum(x: nat, y: nat, n: nat)
    ensures Shl(x + y, n) == Shl(x, n) + Shl(y, n)
  {
    if n > 0 {
      ShlSum(x, y, n - 1);
    }
  }

  lemma {:induction false} ShlShl(x: nat, a: nat, b: nat)
    ensures Shl(Shl(x, a), b) == Shl(x, a + b)
  {
    if b > 0 {
      ShlShl(x, a, b - 1);
    }
  }

  lemma {:induction false} LowBound(x: nat, n: nat)
    ensures Low(x, n) < Pow2(n)
  {
    if n > 0 {
      LowBound(x / 2, n - 1);
    }
  }

  /** A word cut at bit `n`: the parts above and below the cut give the word back. */
  lemma {:induction false} CutWord(x: nat, n: nat)
    ensures x == Shl(Shr(x, n), n) + Low(x, n)
  {
    if n > 0 {
      CutWord(x / 2, n - 1);
    }
  }

  /** Any high part above a low part that fits is exactly that cut. */
  lemma {:induction false} CutUnique(h: nat, l: nat, n: nat)
    requires l < Pow2(n)
    ensures Shr(Shl(h, n) + l, n) == h && Low(Shl(h, n) + l, n) == l
  {
    if n > 0 {
      CutUnique(h, l / 2, n - 1);
      assert (Shl(h, n) + l) / 2 == Shl(h, n - 1) + l / 2;
    }
  }

  lemma {:induction false} LowSplit(x: nat, a: nat, b: nat)
    ensures Low(x, a + b) == Shl(Low(Shr(x, a), b), a) + Low(x, a)
  {
    if a > 0 {
      LowSplit(x / 2, a - 1, b);
    }
  }

  lemma {:induction false} ShrShr(x: nat, a: nat, b: nat)
    ensures Shr(x, a + b) == Shr(Shr(x, a), b)
  {
    if a > 0 {
      ShrShr(x / 2, a - 1, b);
    }
  }

  lemma ShrOfSmall(x: nat, a: nat, n: nat)
    requires a <= n && x < Pow2(a)
    ensures Shr(x, n) == 0
  {
    Pow2Monotone(a, n);
    ShlOfZero(n);
    CutUnique(0, x, n);
  }

  lemma {:induction false} LowOfSmall(x: nat, n: nat)
    requires x < Pow2(n)
    ensures Low(x, n) == x
  {
    if n > 0 {
      LowOfSmall(x / 2, n - 1);
    }
  }

  /** The part above a cut fits what is left of the word. */
  lemma HighPartFits(x: nat, n: nat, rest: nat)
    requires x < Pow2(n + rest)
    ensures Shr(x, rest) < Pow2(n)
  {
    hide Shr, Shl, Low, Pow2;
    assert n + rest == rest + n;
    LowOfSmall(x, rest + n);
    LowSplit(x, rest, n);
    LowBound(Shr(x, rest), n);
    LowBound(x, rest);
    CutUnique(Low(Shr(x, rest), n), Low(x, rest), rest);
  }

  /** Bits pushed in from below, within a word. */
  lemma LowOfPushed(x: nat, t: nat, u: nat, f: nat)
    requires t < Pow2(f)
    ensures Low(Shl(x, f) + t, u + f) == Shl(Low(x, u), f) + t
  {
    hide Shr, Shl, Low, Pow2;
    CutUnique(x, t, f);
    LowSplit(Shl(x, f) + t, f, u);
    assert f + u == u + f;
  }

  /** A narrower mask after a wider one. */
  lemma LowOfLow(x: nat, u: nat, v: nat)
    ensures Low(Low(x, u + v), u) == Low(x, u)
  {
    hide Shr, Shl, Low, Pow2;
    LowSplit(x, u, v);
    LowBound(x, u);
    CutUnique(Low(Shr(x, u), v), Low(x, u), u);
  }

  lemma ShrOfShl(x: nat, a: nat, b: nat)
    ensures Shr(Shl(x, a + b), b) == Shl(x, a)
  {
    hide Shr, Shl, Low, Pow2;
    ShlShl(x, a, b);
    CutUnique(Shl(x, a), 0, b);
  }

  // Big-endian and little-endian readings of a byte sequence.

  function BE(s: seq<byte>): (v: nat)
  {
    if s == [] then 0 else BE(s[..|s| - 1]) * 256 + s[|s| - 1]
  }

  function LE(s: seq<byte>): (v: nat)
  {
    if s == [] then 0 else s[0] + 256 * LE(s[1..])
  }

  /** The low `n` bytes of `v`, most significant first. */
  function BEBytes(v: nat, n: nat): (s: seq<byte>)
    ensures |s| == n
  {
    if n == 0 then [] else BEBytes(v / 256, n - 1) + [v % 256]
  }

  /** The low `n` bytes of `v`, least significant first. */
  function LEBytes(v: nat, n: nat): (s: seq<byte>)
    ensures |s| == n
  {
    if n == 0 then [] else [v % 256] + LEBytes(v / 256, n - 1)
  }

  lemma {:induction false} LEBytesPrefix(v: nat, n: nat, k: nat)
    requires k <= n
    ensures LEBytes(v, n)[..k] == LEBytes(v, k)
  {
    if k > 0 {
      LEBytesPrefix(v / 256, n - 1, k - 1);
    }
  }

  lemma {:induction false} BEBound(s: seq<byte>)
    ensures BE(s) < Pow2(8 * |s|)
  {
    if s != [] {
      BEBound(s[..|s| - 1]);
      Pow2By8(8 * (|s| - 1));
    }
  }

  lemma {:induction false} LEBound(s: seq<byte>)
    ensures LE(s) < Pow2(8 * |s|)
  {
    if s != [] {
      LEBound(s[1..]);
      Pow2By8(8 * (|s| - 1));
    }
  }

  lemma {:induction false} BEOfBytes(v: nat, n: nat)
    ensures BE(BEBytes(v, n)) == Low(v, 8 * n)
  {
    hide Pow2;
    if n > 0 {
      LowBy8(v, 8 * (n - 1));
      BEOfBytes(v / 256, n - 1);
      assert BEBytes(v, n)[..n - 1] == BEBytes(v / 256, n - 1);
    }
  }

  lemma {:induction false} BytesOfBE(s: seq<byte>)
    ensures BEBytes(BE(s), |s|) == s
  {
    if s != [] {
      BytesOfBE(s[..|s| - 1]);
      assert s == s[..|s| - 1] + [s[|s| - 1]];
    }
  }

  lemma {:induction false} BEConcat(a: seq<byte>, b: seq<byte>)
    ensures BE(a + b) == Shl(BE(a), 8 * |b|) + BE(b)
  {
    if b == [] {
      assert a + b == a;
    } else {
      var h := b[..|b| - 1];
      BEConcat(a, h);
      ShlBy8(BE(a), 8 * |h|);
      assert (a + b)[..|a + b| - 1] == a + h;
    }
  }

  lemma {:induction false} LEOfBytes(v: nat, n: nat)
    ensures LE(LEBytes(v, n)) == Low(v, 8 * n)
  {
    if n > 0 {
      LowBy8(v, 8 * (n - 1));
      LEOfBytes(v / 256, n - 1);
      assert LEBytes(v, n)[1..] == LEBytes(v / 256, n - 1);
    }
  }

  /** A wide big-endian load shifted right keeps exactly its first bytes. */
  lemma {:induction false} ShiftedLoad(s: seq<byte>, n: nat, rest: nat)
    requires n <= |s| && rest == 8 * (|s| - n)
    ensures Shr(BE(s), rest) == BE(s[..n])
    decreases |s|
  {
    if n == |s| {
      assert s[..n] == s;
    } else {
      ShrBy8(BE(s), rest - 8);
      var h := s[..|s| - 1];
      assert BE(s) / 256 == BE(h);
      ShiftedLoad(h, n, rest - 8);
      assert h[..n] == s[..n];
    }
  }

  /** Masking a wide little-endian load keeps exactly the low bytes. */
  lemma {:induction false} MaskedLoad(s: seq<byte>, n: nat)
    requires n <= |s|
    ensures Low(LE(s), 8 * n) == LE(s[..n])
  {
    if n > 0 {
      MaskedLoad(s[1..], n - 1);
      LowBy8(LE(s), 8 * (n - 1));
      assert LE(s) / 256 == LE(s[1..]) && LE(s) % 256 == s[0];
      assert s[..n][1..] == s[1..][..n - 1];
    }
  }

  // Bit strings.

  function Bit(s: seq<byte>, i: nat): (b: nat)
    requires i < 8 * |s|
    ensures b < 2
  {
    Shr(s[i / 8], 7 - i % 8) % 2
  }

  /** The number spelled by the `n` bits of `s` that start at bit `off`, read one bit at a time. */
  function Bits(s: seq<byte>, off: nat, n: nat): (v: nat)
    requires off + n <= 8 * |s|
  {
    if n == 0 then 0 else 2 * Bits(s, off, n - 1) + Bit(s, off + n - 1)
  }

  lemma {:induction false} BitsBound(s: seq<byte>, off: nat, n: nat)
    requires off + n <= 8 * |s|
    ensures Bits(s, off, n) < Pow2(n)
  {
    if n > 0 {
      BitsBound(s, off, n - 1);
    }
  }

  lemma {:induction false} BitsConcat(s: seq<byte>, off: nat, a: nat, b: nat)
    requires off + a + b <= 8 * |s|
    ensures Bits(s, off, a + b) == Shl(Bits(s, off, a), b) + Bits(s, off + a, b)
  {
    hide Bit, Shr;
    if b > 0 {
      BitsConcat(s, off, a, b - 1);
    }
  }

  /** A bit string does not depend on the bytes after it. */
  lemma {:induction false} BitsPrefix(s: seq<byte>, t: seq<byte>, off: nat, n: nat)
    requires off + n <= 8 * |s| && s <= t
    ensures Bits(t, off, n) == Bits(s, off, n)
  {
    if n > 0 {
      BitsPrefix(s, t, off, n - 1);
    }
  }

  lemma {:induction false} BitsShift(s: seq<byte>, k: nat, off: nat, n: nat)
    requires k <= |s| && off + n <= 8 * (|s| - k)
    ensures Bits(s, 8 * k + off, n) == Bits(s[k..], off, n)
  {
    hide Shr;
    if n > 0 {
      BitsShift(s, k, off, n - 1);
      var i := off + n - 1;
      assert (8 * k + i) / 8 == k + i / 8 && (8 * k + i) % 8 == i % 8;
    }
  }

  lemma {:induction false} BitsOfBytePrefix(s: seq<byte>, k: nat, j: nat)
    requires k < |s| && j <= 8
    ensures Bits(s, 8 * k, j) == Shr(s[k], 8 - j)
  {
    if j == 0 {
      ShrBy8(s[k], 0);
    } else {
      BitsOfBytePrefix(s, k, j - 1);
      ShrShr(s[k], 8 - j, 1);
      assert (8 * k + j - 1) / 8 == k && (8 * k + j - 1) % 8 == j - 1;
    }
  }

  lemma BitsOfByte(s: seq<byte>, k: nat)
    requires k < |s|
    ensures Bits(s, 8 * k, 8) == s[k]
  {
    BitsOfBytePrefix(s, k, 8);
  }

  /** A big-endian load is the bit string it covers. */
  lemma {:induction false} BEIsBits(s: seq<byte>, n: nat)
    requires n <= |s|
    ensures BE(s[..n]) == Bits(s, 0, 8 * n)
  {
    hide Bit, Shr, Pow2;
    if n > 0 {
      var m := 8 * (n - 1);
      BEIsBits(s, n - 1);
      BitsOfByte(s, n - 1);
      BitsConcat(s, 0, m, 8);
      ShlBy8(Bits(s, 0, m), 0);
      assert s[..n][..n - 1] == s[..n - 1];
    }
  }

  lemma BEInsideIsBits(s: seq<byte>, k: nat, n: nat)
    requires k + n <= |s|
    ensures BE(s[k..k + n]) == Bits(s, 8 * k, 8 * n)
  {
    BEIsBits(s[k..], n);
    BitsShift(s, k, 0, 8 * n);
    assert s[k..][..n] == s[k..k + n];
  }

  /** Any slice of a big-endian value, by shift and mask. */
  lemma BitsOfValue(s: seq<byte>, off: nat, n: nat, rest: nat)
    requires off + n + rest == 8 * |s|
    ensures Low(Shr(BE(s), rest), n) == Bits(s, off, n)
  {
    hide Bits, Shr, Shl, Low, BE, Pow2;
    WholeIsBits(s);
    BitsConcat(s, 0, off + n, rest);
    BitsBound(s, off + n, rest);
    CutUnique(Bits(s, 0, off + n), Bits(s, off + n, rest), rest);
    SliceOfPrefix(s, off, n);
  }

  lemma WholeIsBits(s: seq<byte>)
    ensures BE(s) == Bits(s, 0, 8 * |s|)
  {
    BEIsBits(s, |s|);
    assert s[..|s|] == s;
  }

  lemma SliceOfPrefix(s: seq<byte>, off: nat, n: nat)
    requires off + n <= 8 * |s|
    ensures Low(Bits(s, 0, off + n), n) == Bits(s, off, n)
  {
    hide Bits, Shr, Shl, Low, Pow2;
    BitsConcat(s, 0, off, n);
    BitsBound(s, off, n);
    CutUnique(Bits(s, 0, off), Bits(s, off, n), n);
  }
}
