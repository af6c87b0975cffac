/**
  The table-driven CRC-32 and its bit-at-a-time definition.
 */
module Crc32 {
  import opened Words

  const POLYNOMIAL: nat := 0xEDB8_8320
  const WORD: nat := 0x1_0000_0000

  // ---- Exclusive or ----

  function Xor(a: nat, b: nat): (c: nat)
  {
    if a == 0 && b == 0 then 0 else 2 * Xor(a / 2, b / 2) + (a % 2 + b % 2) % 2
  }

  lemma {:induction false} XorCommutes(a: nat, b: nat)
    ensures Xor(a, b) == Xor(b, a)
  {
    if a != 0 || b != 0 {
      XorCommutes(a / 2, b / 2);
    }
  }

  function Parity(p: nat, q: nat): nat
  {
    (p + q) % 2
  }

  lemma ParityAssociates(p: nat, q: nat, r: nat)
    ensures Parity(Parity(p, q), r) == Parity(p, Parity(q, r))
  {
  }

  lemma {:induction false} XorAssociates(a: nat, b: nat, c: nat)
    ensures Xor(Xor(a, b), c) == Xor(a, Xor(b, c))
  {
    if a != 0 || b != 0 || c != 0 {
      XorAssociates(a / 2, b / 2, c / 2);
      XorAssociatesAbove(a, b, c);
    }
  }

  lemma XorAssociatesAbove(a: nat, b: nat, c: nat)
    requires Xor(Xor(a / 2, b / 2), c / 2) == Xor(a / 2, Xor(b / 2, c / 2))
    ensures Xor(Xor(a, b), c) == Xor(a, Xor(b, c))
  {
    hide Xor, Parity;
    XorByHalves(a, b);
    XorByHalves(b, c);
    XorByHalves(Xor(a, b), c);
    XorByHalves(a, Xor(b, c));
    ParityAssociates(a % 2, b % 2, c % 2);
    SameHalves(Xor(Xor(a, b), c), Xor(a, Xor(b, c)));
  }

  lemma SameHalves(x: nat, y: nat)
    requires x / 2 == y / 2 && x % 2 == y % 2
    ensures x == y
  {
  }

  lemma XorHalves(a: nat, b: nat)
    ensures Xor(a, b) / 2 == Xor(a / 2, b / 2)
    ensures Xor(a, b) % 2 == (a % 2 + b % 2) % 2
  {
  }

  lemma XorByHalves(a: nat, b: nat)
    ensures Xor(a, b) / 2 == Xor(a / 2, b / 2)
    ensures Xor(a, b) % 2 == Parity(a % 2, b % 2)
  {
    XorHalves(a, b);
    hide Xor;
  }

  lemma {:induction false} XorZero(a: nat)
    ensures Xor(a, 0) == a
  {
    if a != 0 {
      XorZero(a / 2);
    }
  }

  lemma {:induction false} XorSelf(a: nat)
    ensures Xor(a, a) == 0
  {
    if a != 0 {
      XorSelf(a / 2);
    }
  }

  /** Swapping the middle two of four operands. */
  lemma XorSwap(a: nat, p: nat, b: nat, q: nat)
    ensures Xor(Xor(a, p), Xor(b, q)) == Xor(Xor(a, b), Xor(p, q))
  {
    hide Xor;
    XorAssociates(a, p, Xor(b, q));
    XorAssociates(p, b, q);
    XorCommutes(p, b);
    XorAssociates(b, p, q);
    XorAssociates(a, b, Xor(p, q));
  }

  lemma XorCancels(a: nat, b: nat, p: nat)
    requires Xor(a, p) == Xor(b, p)
    ensures a == b
  {
    hide Xor;
    XorAssociates(a, p, p);
    XorAssociates(b, p, p);
    XorSelf(p);
    XorZero(a);
    XorZero(b);
  }

  lemma {:induction false} XorBound(a: nat, b: nat, n: nat)
    requires a < Pow2(n) && b < Pow2(n)
    ensures Xor(a, b) < Pow2(n)
  {
    if n > 0 {
      XorHalves(a, b);
      XorBound(a / 2, b / 2, n - 1);
    }
  }

  /** A number is the exclusive or of its bits above position `n` and those below. */
  lemma {:induction false} XorOfParts(h: nat, l: nat, n: nat)
    requires l < Pow2(n)
    ensures Xor(Shl(h, n), l) == Shl(h, n) + l
  {
    if n == 0 {
      XorZero(h);
    } else {
      XorHalves(Shl(h, n), l);
      XorOfParts(h, l / 2, n - 1);
    }
  }

  // ---- The checksum, one bit at a time ----

  /** One bit of the division: shift right, and subtract the polynomial when a one falls out. */
  function Step(crc: nat): nat
  {
    Xor(crc / 2, Mask(crc % 2, POLYNOMIAL))
  }

  function Mask(bit: nat, poly: nat): nat
  {
    if bit == 1 then poly else 0
  }

  function Steps(crc: nat, n: nat): nat
  {
    if n == 0 then crc else Step(Steps(crc, n - 1))
  }

  /** Feeding one byte: exclusive or into the low bits, then eight steps. */
  function FeedByte(crc: nat, b: byte): nat
  {
    Steps(Xor(crc, b), 8)
  }

  function Feed(crc: nat, data: seq<byte>): nat
  {
    if data == [] then crc else FeedByte(Feed(crc, data[..|data| - 1]), data[|data| - 1])
  }

  function Complement(crc: nat): nat
    requires crc < WORD
  {
    WORD - 1 - crc
  }

  function Checksum(data: seq<byte>): nat
  {
    FeedBound(WORD - 1, data);
    Complement(Feed(WORD - 1, data))
  }

  lemma WordIsPow2()
    ensures Pow2(32) == WORD && Pow2(31) == 0x8000_0000
  {
    BytePowers();
    assert Pow2(32) == 2 * Pow2(31);
  }

  lemma StepBound(crc: nat)
    requires crc < WORD
    ensures Step(crc) < WORD
  {
    hide Xor, Pow2;
    WordIsPow2();
    XorBound(crc / 2, Mask(crc % 2, POLYNOMIAL), 32);
  }

  lemma {:induction false} StepsBound(crc: nat, n: nat)
    requires crc < WORD
    ensures Steps(crc, n) < WORD
  {
    hide Xor, Step;
    if n > 0 {
      StepsBound(crc, n - 1);
      StepBound(Steps(crc, n - 1));
    }
  }

  lemma {:induction false} FeedBound(crc: nat, data: seq<byte>)
    requires crc < WORD
    ensures Feed(crc, data) < WORD
  {
    hide Xor, Steps, Pow2;
    if data != [] {
      var c, b := Feed(crc, data[..|data| - 1]), data[|data| - 1];
      FeedBound(crc, data[..|data| - 1]);
      WordIsPow2();
      XorBound(c, b, 32);
      StepsBound(Xor(c, b), 8);
    }
  }

  // ---- Why a table of 256 entries is enough ----

  lemma MaskIsLinear(p: nat, q: nat, poly: nat)
    requires p < 2 && q < 2
    ensures Mask((p + q) % 2, poly) == Xor(Mask(p, poly), Mask(q, poly))
  {
    XorSelf(poly);
    XorZero(poly);
    XorCommutes(poly, 0);
  }

  lemma PartsAreLinear(h: nat, p: nat, k: nat, q: nat, poly: nat)
    requires p < 2 && q < 2
    ensures Xor(Xor(h, k), Mask((p + q) % 2, poly)) == Xor(Xor(h, Mask(p, poly)), Xor(k, Mask(q, poly)))
  {
    hide Xor;
    MaskIsLinear(p, q, poly);
    XorSwap(h, Mask(p, poly), k, Mask(q, poly));
  }

  lemma StepIsLinear(x: nat, y: nat)
    ensures Step(Xor(x, y)) == Xor(Step(x), Step(y))
  {
    hide Xor;
    XorHalves(x, y);
    PartsAreLinear(x / 2, x % 2, y / 2, y % 2, POLYNOMIAL);
  }

  lemma {:induction false} StepsAreLinear(x: nat, y: nat, n: nat)
    ensures Steps(Xor(x, y), n) == Xor(Steps(x, n), Steps(y, n))
  {
    hide Xor, Step;
    if n > 0 {
      StepsAreLinear(x, y, n - 1);
      StepIsLinear(Steps(x, n - 1), Steps(y, n - 1));
    }
  }

  /** Bits that stay above the low end only shift. */
  lemma {:induction false} StepsShift(x: nat, n: nat, k: nat)
    ensures Steps(Shl(x, n + k), n) == Shl(x, k)
  {
    hide Xor;
    if n > 0 {
      StepsShift(x, n - 1, k + 1);
      XorZero(Shl(x, k));
    }
  }

  lemma SplitLowByte(crc: nat, b: byte)
    ensures Xor(crc, b) == Xor(Shl(crc / 256, 8), Xor(b, crc % 256))
    ensures Xor(b, crc % 256) < 256
  {
    hide Xor;
    var h, l := crc / 256, crc % 256;
    Pow2By8(0);
    ShlBy8(h, 0);
    XorOfParts(h, l, 8);
    XorAssociates(Shl(h, 8), l, b);
    XorCommutes(l, b);
    XorBound(b, l, 8);
  }

  /** Eight bit steps equal one shift and one lookup. */
  lemma LookupIsEightSteps(crc: nat, b: byte)
    ensures Xor(b, crc % 256) < 256
    ensures FeedByte(crc, b) == Xor(crc / 256, Steps(Xor(b, crc % 256), 8))
  {
    hide Xor, Step, Steps, Shl;
    SplitLowByte(crc, b);
    StepsAreLinear(Shl(crc / 256, 8), Xor(b, crc % 256), 8);
    StepsShift(crc / 256, 8, 0);
    ShlNone(crc / 256);
  }

  /** Entry `i` is what eight steps make of the byte `i`. */
  function Lookup(n: nat): (table: seq<nat>)
    ensures |table| == n
  {
    if n == 0 then [] else Lookup(n - 1) + [Steps(n - 1, 8)]
  }

  lemma {:induction false} LookupAt(n: nat, i: nat)
    requires i < n
    ensures Lookup(n)[i] == Steps(i, 8)
  {
    if i < n - 1 {
      LookupAt(n - 1, i);
    }
  }

  lemma FeedOneByLookup(data: seq<byte>, i: nat, crc: nat, table: seq<nat>)
    requires i < |data| && crc == Feed(WORD - 1, data[..i])
    requires |table| == 256 && table == Lookup(|table|)
    ensures Xor(data[i], crc % 256) < |table|
    ensures Feed(WORD - 1, data[..i + 1]) == Xor(crc / 256, table[Xor(data[i], crc % 256)])
  {
    hide FeedByte, Steps, Xor;
    assert data[..i + 1][..i] == data[..i];
    LookupIsEightSteps(crc, data[i]);
    LookupAt(|table|, Xor(data[i], crc % 256));
  }

  /** The lookup table, static in the source and zero until the first call. */
  class Table {
    const entries: array<nat>

    /** A table whose entry 1 is not zero has been filled. */
    ghost predicate Valid()
      reads this, entries
    {
      entries.Length == 256 && (entries[1] != 0 ==> entries[..] == Lookup(entries.Length))
    }

    constructor ()
      ensures Valid() && fresh(entries)
    {
      entries := new nat[256](_ => 0);
    }

    method Fill()
      requires Valid()
      modifies entries
      ensures Valid() && entries[..] == Lookup(entries.Length)
    {
      if entries[1] == 0 {
        for i := 0 to entries.Length
          invariant entries[..i] == Lookup(i)
        {
          var c := EightSteps(i);
          entries[i] := c;
        }
        assert entries[..entries.Length] == entries[..];
      }
    }

    static method EightSteps(i: nat) returns (c: nat)
      ensures c == Steps(i, 8)
    {
      c := i;
      for j := 0 to 8
        invariant c == Steps(i, j)
      {
        c := Xor(c / 2, Mask(c % 2, POLYNOMIAL));
      }
    }

    method Crc(buffer: seq<byte>) returns (checksum: nat)
      requires Valid()
      modifies entries
      ensures Valid() && entries[..] == Lookup(entries.Length)
      ensures checksum == Checksum(buffer)
    {
      Fill();
      ghost var table := entries[..];
      var crc: nat := WORD - 1;
      for i := 0 to |buffer|
        invariant entries[..] == table
        invariant crc == Feed(WORD - 1, buffer[..i])
      {
        FeedOneByLookup(buffer, i, crc, table);
        var index := Xor(buffer[i], crc % 256);
        assert entries[index] == table[index];
        crc := Xor(crc / 256, entries[index]);
      }
      assert buffer[..|buffer|] == buffer;
      FeedBound(WORD - 1, buffer);
      checksum := Complement(crc);
    }
  }

  // ---- Error detection ----

  /** The step can be undone: the polynomial's top bit records whether a one fell out. */
  lemma StepInjective(x: nat, y: nat)
    requires x < WORD && y < WORD && Step(x) == Step(y)
    ensures x == y
  {
    hide Xor, Pow2;
    TopBitOfStep(x);
    TopBitOfStep(y);
    XorCancels(x / 2, y / 2, Mask(x % 2, POLYNOMIAL));
  }

  lemma TopBitOfStep(x: nat)
    requires x < WORD
    ensures Step(x) >= 0x8000_0000 <==> x % 2 == 1
  {
    WordIsPow2();
    var h := x / 2;
    if x % 2 == 1 {
      var low := POLYNOMIAL - 0x8000_0000;
      assert Shl(1, 31) == 0x8000_0000 by {
        ShlBy8(1, 0);
        ShlBy8(1, 8);
        ShlBy8(1, 16);
        assert Shl(1, 31) == 128 * Shl(1, 24) by {
          assert Shl(1, 26) == 4 * Shl(1, 24);
          assert Shl(1, 28) == 4 * Shl(1, 26);
          assert Shl(1, 30) == 4 * Shl(1, 28);
        }
      }
      XorOfParts(1, low, 31);
      XorCommutes(h, POLYNOMIAL);
      XorAssociates(Shl(1, 31), low, h);
      XorBound(low, h, 31);
      XorOfParts(1, Xor(low, h), 31);
    } else {
      XorZero(h);
    }
  }

  lemma {:induction false} StepsInjective(x: nat, y: nat, n: nat)
    requires x < WORD && y < WORD && Steps(x, n) == Steps(y, n)
    ensures x == y
  {
    hide Step;
    if n > 0 {
      StepsBound(x, n - 1);
      StepsBound(y, n - 1);
      StepInjective(Steps(x, n - 1), Steps(y, n - 1));
      StepsInjective(x, y, n - 1);
    }
  }

  lemma {:induction false} FeedInjective(x: nat, y: nat, data: seq<byte>)
    requires x < WORD && y < WORD && Feed(x, data) == Feed(y, data)
    ensures x == y
  {
    hide Xor, Steps, Pow2;
    if data != [] {
      var init, b := data[..|data| - 1], data[|data| - 1];
      FeedBound(x, init);
      FeedBound(y, init);
      WordIsPow2();
      XorBound(Feed(x, init), b, 32);
      XorBound(Feed(y, init), b, 32);
      StepsInjective(Xor(Feed(x, init), b), Xor(Feed(y, init), b), 8);
      XorCancels(Feed(x, init), Feed(y, init), b);
      FeedInjective(x, y, init);
    }
  }

  lemma {:induction false} FeedConcat(crc: nat, s: seq<byte>, t: seq<byte>)
    ensures Feed(crc, s + t) == Feed(Feed(crc, s), t)
  {
    if t == [] {
      assert s + t == s;
    } else {
      FeedConcat(crc, s, t[..|t| - 1]);
      assert (s + t)[..|s + t| - 1] == s + t[..|t| - 1];
    }
  }

  /** Changing any one byte of a buffer changes its checksum. */
  lemma OneByteChangeDetected(before: seq<byte>, b: byte, c: byte, after: seq<byte>)
    ensures Checksum(before + [b] + after) == Checksum(before + [c] + after) <==> b == c
  {
    var x := Feed(WORD - 1, before);
    FeedBound(WORD - 1, before);
    FeedConcat(WORD - 1, before + [b], after);
    FeedConcat(WORD - 1, before + [c], after);
    FeedConcat(WORD - 1, before, [b]);
    FeedConcat(WORD - 1, before, [c]);
    FeedBound(WORD - 1, before + [b] + after);
    FeedBound(WORD - 1, before + [c] + after);
    if Checksum(before + [b] + after) == Checksum(before + [c] + after) {
      FeedBound(x, [b]);
      FeedBound(x, [c]);
      FeedInjective(Feed(x, [b]), Feed(x, [c]), after);
      FeedOneInjective(x, b, c);
    }
  }

  lemma FeedOneInjective(x: nat, b: byte, c: byte)
    requires x < WORD && Feed(x, [b]) == Feed(x, [c])
    ensures b == c
  {
    hide Xor, Steps, Pow2;
    assert Feed(x, [b]) == FeedByte(x, b) && Feed(x, [c]) == FeedByte(x, c);
    WordIsPow2();
    XorBound(x, b, 32);
    XorBound(x, c, 32);
    StepsInjective(Xor(x, b), Xor(x, c), 8);
    XorCommutes(x, b);
    XorCommutes(x, c);
    XorCancels(b, c, x);
  }

  // ---- The standard's constants ----

  /** A polynomial with the coefficient of the highest power last, without that of the 32nd. */
  function Reflected(exponents: seq<nat>): nat
    requires forall i :: 0 <= i < |exponents| ==> exponents[i] < 32
  {
    if exponents == [] then 0 else Pow2(31 - exponents[0]) + Reflected(exponents[1..])
  }

  /** It is the polynomial of CRC-32 as IEEE 802.3 has it. */
  lemma PolynomialIsStandard()
    ensures POLYNOMIAL == Reflected([26, 23, 22, 16, 12, 11, 10, 8, 7, 5, 4, 2, 1, 0])
  {
    hide Pow2, Reflected;
    var p: seq<nat> := [26, 23, 22, 16, 12, 11, 10, 8, 7, 5, 4, 2, 1, 0];
    ReflectedSplit(p, 7);
    assert p[..7] == [26, 23, 22, 16, 12, 11, 10] && p[7..] == [8, 7, 5, 4, 2, 1, 0];
    SumOfSeven(26, 23, 22, 16, 12, 11, 10);
    SumOfSeven(8, 7, 5, 4, 2, 1, 0);
    LowPowers();
    HighPowers();
  }

  lemma LowPowers()
    ensures Pow2(5) == 0x20 && Pow2(8) == 0x100 && Pow2(9) == 0x200 && Pow2(15) == 0x8000
    ensures Pow2(19) == 0x8_0000 && Pow2(20) == 0x10_0000 && Pow2(21) == 0x20_0000
  {
    BytePowers();
    assert Pow2(5) == 32 && Pow2(9) == 2 * Pow2(8) && Pow2(16) == 2 * Pow2(15);
    assert Pow2(18) == 4 * Pow2(16);
    assert Pow2(20) == 4 * Pow2(18) && Pow2(20) == 2 * Pow2(19) && Pow2(21) == 2 * Pow2(20);
  }

  lemma HighPowers()
    ensures Pow2(23) == 0x80_0000 && Pow2(24) == 0x100_0000 && Pow2(26) == 0x400_0000 && Pow2(27) == 0x800_0000
    ensures Pow2(29) == 0x2000_0000 && Pow2(30) == 0x4000_0000 && Pow2(31) == 0x8000_0000
  {
    BytePowers();
    assert Pow2(24) == 2 * Pow2(23) && Pow2(26) == 4 * Pow2(24) && Pow2(27) == 2 * Pow2(26);
    assert Pow2(32) == 2 * Pow2(31) && Pow2(31) == 2 * Pow2(30) && Pow2(30) == 2 * Pow2(29);
  }

  lemma {:induction false} ReflectedSplit(exponents: seq<nat>, n: nat)
    requires n <= |exponents| && forall i :: 0 <= i < |exponents| ==> exponents[i] < 32
    ensures Reflected(exponents) == Reflected(exponents[..n]) + Reflected(exponents[n..])
  {
    if n > 0 {
      ReflectedSplit(exponents[1..], n - 1);
      assert exponents[..n][1..] == exponents[1..][..n - 1];
    }
  }

  lemma SumOfSeven(a: nat, b: nat, c: nat, d: nat, e: nat, f: nat, g: nat)
    requires a < 32 && b < 32 && c < 32 && d < 32 && e < 32 && f < 32 && g < 32
    ensures Reflected([a, b, c, d, e, f, g]) == Pow2(31 - a) + Pow2(31 - b) + Pow2(31 - c) + Pow2(31 - d)
      + Pow2(31 - e) + Pow2(31 - f) + Pow2(31 - g)
  {
    hide Pow2;
    assert [a, b, c, d, e, f, g][1..] == [b, c, d, e, f, g] && [b, c, d, e, f, g][1..] == [c, d, e, f, g];
    assert [c, d, e, f, g][1..] == [d, e, f, g] && [d, e, f, g][1..] == [e, f, g];
    assert [e, f, g][1..] == [f, g] && [f, g][1..] == [g] && [g][1..] == [];
    assert Reflected([g]) == Pow2(31 - g) && Reflected([f, g]) == Pow2(31 - f) + Pow2(31 - g);
    assert Reflected([e, f, g]) == Pow2(31 - e) + Reflected([f, g]);
    assert Reflected([d, e, f, g]) == Pow2(31 - d) + Reflected([e, f, g]);
    assert Reflected([c, d, e, f, g]) == Pow2(31 - c) + Reflected([d, e, f, g]);
  }

  /** The checksums of no bytes and of one byte with all bits set: the register starts with all bits set
      and is complemented at the end. */
  lemma KnownChecksums()
    ensures Checksum([]) == 0 && Checksum([0xFF]) == 0xFF00_0000
  {
    var ones: byte := 0xFF;
    assert [ones][..0] == [];
    assert Feed(WORD - 1, []) == WORD - 1;
    assert Feed(WORD - 1, [ones]) == FeedByte(WORD - 1, ones);
    AllOnesCancel();
  }

  lemma AllOnesCancel()
    ensures FeedByte(WORD - 1, 0xFF) == 0xFF_FFFF
  {
    hide Xor;
    LookupIsEightSteps(WORD - 1, 0xFF);
    SplitLowByte(WORD - 1, 0xFF);
    XorSelf(0xFF);
    XorZero(0xFF_FFFF);
    ZeroStays(8);
  }

  lemma {:induction false} ZeroStays(n: nat)
    ensures Steps(0, n) == 0
  {
    if n > 0 {
      ZeroStays(n - 1);
    }
  }
}
