/**
  Container headers: written as one byte each, and expanded in place when a message is finished.

  `Encoding` is what a reader expects of nested containers, `Raw` what the writer has in its buffer
  before the expansion.
 */
module HeaderExpansion {
  import opened Words
  import PackedIntegers
  import Cursor

  const LONG := 0x80
  const MAX_LENGTH := 0x40_0000
  const LOADER_MAX_NESTED := 16
  const GUARD := 8

  /** The content of a message, as far as headers and trimming are concerned: containers of content,
      and bytes, of which some end a field that is reported not to be NULL. */
  datatype Item = Byte(b: byte, notNull: bool) | Container(items: seq<Item>)

  // ---- Headers ----

  /** How many bytes the header of a container of this length has besides the first. */
  function Extra(length: nat): (n: nat)
  {
    if length < LONG then 0 else if length < 0x4000 then 1 else 2
  }

  function Header(length: nat): (bytes: seq<byte>)
    ensures |bytes| == 1 + Extra(length)
  {
    if length < LONG then [length]
    else [length % 64 + 64 * (Extra(length) + 1)] + LEBytes(length / 64, Extra(length))
  }

  /** It is the variable-length integer that the reader of containers decodes. */
  lemma HeaderIsPacked22(length: nat)
    requires length < MAX_LENGTH
    ensures Header(length) == PackedIntegers.Packed22(length)
  {
    if length >= LONG {
      BodyOfLength(length);
    }
  }

  lemma BodyOfLength(length: nat)
    requires LONG <= length < MAX_LENGTH
    ensures PackedIntegers.VariableLength(length / 64) == LEBytes(length / 64, Extra(length))
  {
    BytePowers();
    PackedIntegers.LengthOfSmall(length / 64, Extra(length));
    PackedIntegers.BodyLength22(length);
    if length >= 0x4000 && |PackedIntegers.VariableLength(length / 64)| == 1 {
      PackedIntegers.VariableLengthBack(length / 64);
      LEBound(PackedIntegers.VariableLength(length / 64));
      assert false;
    }
  }

  // ---- What a reader expects ----

  function Encoding(items: seq<Item>): seq<byte>
    decreases items, 0
  {
    if items == [] then [] else EncodingOf(items[0]) + Encoding(items[1..])
  }

  function EncodingOf(item: Item): seq<byte>
    decreases item, 0
  {
    match item
    case Byte(b, _) => [b]
    case Container(items) => Header(|Encoding(items)|) + Encoding(items)
  }

  /** The reader's container is the content that was written, no more and no less. */
  lemma OpenedAsWritten(s: seq<byte>, c: Cursor.Cursor, items: seq<Item>, isArray: bool)
    requires c.Valid() && |c.ofs| < Cursor.MAX_NESTED && 0 < |Encoding(items)| < MAX_LENGTH
    requires Cursor.StandsAt(s, c, EncodingOf(Container(items)))
    ensures var r := Cursor.Open(s, c, isArray);
      && r.Got? && r.value && r.cursor.pos == c.pos + |Header(|Encoding(items)|)|
      && r.cursor.end == c.pos + |EncodingOf(Container(items))|
      && s[r.cursor.pos..r.cursor.end] == Encoding(items)
  {
    hide Header, Encoding, Cursor.PackedUInt22, PackedIntegers.Packed22;
    var content := Encoding(items);
    var header, all := Header(|content|), s[c.pos..c.pos + |EncodingOf(Container(items))|];
    HeaderIsPacked22(|content|);
    assert all[..|header|] == header && all[|header|..] == content;
    PackedIntegers.PackedRoundTrip22(s, c, |content|);
  }

  // ---- What the writer has before the expansion ----

  /** The length the writer computes when it closes a container: what it wrote, and the bytes by which
      the headers directly inside will grow. */
  function Length(items: seq<Item>): nat
    decreases items, 1
  {
    |Raw(items)| + Extras(items)
  }

  function Raw(items: seq<Item>): seq<byte>
    decreases items, 0
  {
    if items == [] then [] else RawOf(items[0]) + Raw(items[1..])
  }

  function RawOf(item: Item): (bytes: seq<byte>)
    ensures |bytes| > 0
    decreases item, 0
  {
    match item
    case Byte(b, _) => [b]
    case Container(items) => [Length(items) % 256] + Raw(items)
  }

  function Extras(items: seq<Item>): nat
    decreases items, 0
  {
    if items == [] then 0 else ExtraOf(items[0]) + Extras(items[1..])
  }

  function ExtraOf(item: Item): nat
    decreases item, 0
  {
    if item.Byte? then 0 else Extra(Length(item.items))
  }

  /** Where content has to move right, and the bytes to put in front of it with their number on top. */
  datatype Point = Point(blockOffset: nat, headerLength: nat) {
    function Diff(): nat {
      headerLength / 0x100_0000
    }

    function Bytes(): (bytes: seq<byte>) {
      LEBytes(headerLength % 0x100_0000, Diff() + 1)
    }

    predicate Proper() {
      Diff() in {1, 2} && headerLength % 0x100_0000 < (if Diff() == 1 then 0x1_0000 else 0x100_0000)
    }
  }

  /** The word that closing a long container records. */
  function PackedLength(length: nat): nat
  {
    length % 64 + length / 64 * 256 + Extra(length) * 0x100_0000 + Extra(length) * 64 + 0x40
  }

  lemma PackedLengthIsHeader(length: nat, at: nat)
    requires LONG <= length < MAX_LENGTH
    ensures var p := Point(at, PackedLength(length));
      p.Proper() && p.Diff() == Extra(length) && p.Bytes() == Header(length)
  {
    var n, low, high := Extra(length), length % 64 + 64 * (Extra(length) + 1), length / 64;
    assert low < 256 && high < (if n == 1 then 0x100 else 0x1_0000);
    assert PackedLength(length) == low + 256 * high + n * 0x100_0000;
    LowDigits(low, high, n);
    FirstByte(low, high, n);
  }

  lemma LowDigits(low: nat, high: nat, n: nat)
    requires low < 256 && high < 0x1_0000
    ensures (low + 256 * high + n * 0x100_0000) % 0x100_0000 == low + 256 * high
    ensures (low + 256 * high + n * 0x100_0000) / 0x100_0000 == n
  {
  }

  lemma FirstByte(low: nat, high: nat, n: nat)
    requires low < 256
    ensures LEBytes(low + 256 * high, n + 1) == [low] + LEBytes(high, n)
  {
    assert (low + 256 * high) % 256 == low && (low + 256 * high) / 256 == high;
  }

  /** The points in the order in which the containers are closed: inner ones first. */
  function Points(items: seq<Item>, at: nat): seq<Point>
    decreases items, 0
  {
    if items == [] then [] else PointsOf(items[0], at) + Points(items[1..], at + |RawOf(items[0])|)
  }

  function PointsOf(item: Item, at: nat): seq<Point>
    decreases item, 0
  {
    match item
    case Byte(_, _) => []
    case Container(items) =>
      Points(items, at + 1) + if Length(items) < LONG then [] else [Point(at + 1, PackedLength(Length(items)))]
  }

  // ---- Long containers ----

  predicate HasLong(items: seq<Item>)
    decreases items, 0
  {
    items != [] && (HasLongIn(items[0]) || HasLong(items[1..]))
  }

  predicate HasLongIn(item: Item)
    decreases item, 0
  {
    item.Container? && (Length(item.items) >= LONG || HasLong(item.items))
  }

  /** No long container stands inside a container. */
  predicate Flat(items: seq<Item>)
  {
    items == [] || ((items[0].Container? ==> !HasLong(items[0].items)) && Flat(items[1..]))
  }

  /** Every container has a length that its header can hold. */
  predicate Fits(items: seq<Item>)
    decreases items, 0
  {
    items == [] || (FitsIn(items[0]) && Fits(items[1..]))
  }

  predicate FitsIn(item: Item)
    decreases item, 0
  {
    item.Container? ==> Length(item.items) < MAX_LENGTH && Fits(item.items)
  }

  lemma {:induction false} NothingLong(items: seq<Item>, at: nat)
    requires !HasLong(items)
    ensures Raw(items) == Encoding(items) && Extras(items) == 0 && Points(items, at) == []
    decreases items, 0
  {
    if items != [] {
      NothingLongIn(items[0], at);
      NothingLong(items[1..], at + |RawOf(items[0])|);
      hide RawOf, EncodingOf, ExtraOf, PointsOf, HasLongIn;
    }
  }

  lemma {:induction false} NothingLongIn(item: Item, at: nat)
    requires !HasLongIn(item)
    ensures RawOf(item) == EncodingOf(item) && ExtraOf(item) == 0 && PointsOf(item, at) == []
    decreases item, 0
  {
    match item
    case Byte(_, _) =>
    case Container(items) =>
      NothingLong(items, at + 1);
      hide Raw, Extras, Points, Encoding, HasLong;
  }

  /** What holds a long container is long itself. */
  lemma {:induction false} AroundLong(items: seq<Item>)
    requires HasLong(items)
    ensures |Raw(items)| > LONG
    decreases items
  {
    if HasLongIn(items[0]) {
      var inside := items[0].items;
      if HasLong(inside) {
        AroundLong(inside);
      } else {
        NothingLong(inside, 0);
      }
    } else {
      AroundLong(items[1..]);
    }
  }

  // ---- The order of the points ----

  /** Every point stands behind the one before it, with room for its header byte. */
  predicate Ascending(points: seq<Point>, from: nat, end: nat)
    decreases |points|
  {
    if points == [] then from <= end
    else from < points[0].blockOffset <= end && Ascending(points[1..], points[0].blockOffset, end)
  }

  function Sum(points: seq<Point>): nat
  {
    if points == [] then 0 else Sum(points[..|points| - 1]) + points[|points| - 1].Diff()
  }

  lemma {:induction false} AscendingOrder(points: seq<Point>, from: nat, end: nat, i: nat, j: nat)
    requires Ascending(points, from, end) && i < j < |points|
    ensures from < points[i].blockOffset < points[j].blockOffset
    decreases |points|
  {
    if i > 0 {
      AscendingOrder(points[1..], points[0].blockOffset, end, i - 1, j - 1);
    } else if j > 1 {
      AscendingOrder(points[1..], points[0].blockOffset, end, 0, j - 1);
    }
  }

  lemma {:induction false} SumConcat(a: seq<Point>, b: seq<Point>)
    ensures Sum(a + b) == Sum(a) + Sum(b)
    decreases |b|
  {
    if b == [] {
      assert a + b == a;
    } else {
      SumConcat(a, b[..|b| - 1]);
      assert (a + b)[..|a + b| - 1] == a + b[..|b| - 1];
    }
  }

  /** All points of some content lie inside it, and a long container makes at least one. */
  lemma {:induction false} PointsInside(items: seq<Item>, at: nat, i: nat)
    requires i < |Points(items, at)|
    ensures at < Points(items, at)[i].blockOffset
    decreases items, 0
  {
    var first := PointsOf(items[0], at);
    if i < |first| {
      if i < |Points(items[0].items, at + 1)| {
        PointsInside(items[0].items, at + 1, i);
      }
    } else {
      PointsInside(items[1..], at + |RawOf(items[0])|, i - |first|);
    }
  }

  lemma {:induction false} LongHasPoint(items: seq<Item>, at: nat)
    requires HasLong(items)
    ensures Points(items, at) != []
    decreases items
  {
    if HasLongIn(items[0]) {
      if Length(items[0].items) < LONG {
        LongHasPoint(items[0].items, at + 1);
      }
    } else {
      LongHasPoint(items[1..], at + |RawOf(items[0])|);
    }
  }

  /** Nested long containers record their points out of order. */
  lemma {:induction false} NestedIsUnordered(items: seq<Item>, at: nat, from: nat, end: nat)
    requires !Flat(items)
    ensures !Ascending(Points(items, at), from, end)
    decreases |items|
  {
    var first, rest := PointsOf(items[0], at), Points(items[1..], at + |RawOf(items[0])|);
    if items[0].Container? && HasLong(items[0].items) {
      var inside := Points(items[0].items, at + 1);
      AroundLong(items[0].items);
      LongHasPoint(items[0].items, at + 1);
      PointsInside(items[0].items, at + 1, |inside| - 1);
      if Ascending(first + rest, from, end) {
        AscendingOrder(first + rest, from, end, |inside| - 1, |inside|);
      }
    } else {
      NestedIsUnordered(items[1..], at + |RawOf(items[0])|,
        if first == [] then from else first[|first| - 1].blockOffset, end);
      if Ascending(first + rest, from, end) {
        AscendingTail(first, rest, from, end);
      }
    }
  }

  lemma {:induction false} AscendingTail(a: seq<Point>, b: seq<Point>, from: nat, end: nat)
    requires Ascending(a + b, from, end)
    ensures Ascending(b, if a == [] then from else a[|a| - 1].blockOffset, end)
    decreases |a|
  {
    if a == [] {
      assert a + b == b;
    } else {
      assert (a + b)[1..] == a[1..] + b;
      AscendingTail(a[1..], b, a[0].blockOffset, end);
    }
  }

  lemma {:induction false} PointsProper(items: seq<Item>, at: nat)
    requires Fits(items)
    ensures forall i :: 0 <= i < |Points(items, at)| ==> Points(items, at)[i].Proper()
    ensures forall i :: 0 <= i < |Points(items, at)| ==> Points(items, at)[i].blockOffset > at
    ensures Extras(items) == 0 <==> Points(items, at) == []
    decreases items, 0
  {
    if items != [] {
      PointsOfProper(items[0], at);
      PointsProper(items[1..], at + |RawOf(items[0])|);
      hide RawOf, ExtraOf, PointsOf, FitsIn, Point.Proper;
    }
  }

  lemma {:induction false} PointsOfProper(item: Item, at: nat)
    requires FitsIn(item)
    ensures forall i :: 0 <= i < |PointsOf(item, at)| ==> PointsOf(item, at)[i].Proper()
    ensures forall i :: 0 <= i < |PointsOf(item, at)| ==> PointsOf(item, at)[i].blockOffset > at
    ensures ExtraOf(item) == 0 <==> PointsOf(item, at) == []
    decreases item, 0
  {
    match item
    case Byte(_, _) =>
    case Container(items) =>
      PointsProper(items, at + 1);
      if Length(items) >= LONG {
        PackedLengthIsHeader(Length(items), at + 1);
      } else {
        ShortHoldsNone(items, at + 1);
      }
      hide Raw, Extras, Points, Point.Proper, PackedLength, Length, Fits;
  }

  lemma ShortHoldsNone(items: seq<Item>, at: nat)
    requires Length(items) < LONG
    ensures Points(items, at) == []
  {
    if HasLong(items) {
      AroundLong(items);
    } else {
      NothingLong(items, at);
    }
  }

  // ---- Expanding ----

  /** The bytes from `from` on, with the header byte before every point replaced by the point's bytes. */
  function Expanded(s: seq<byte>, points: seq<Point>, from: nat): seq<byte>
    requires Ascending(points, from, |s|)
    decreases |points|
  {
    if points == [] then s[from..]
    else
      var p := points[0];
      s[from..p.blockOffset - 1] + p.Bytes() + Expanded(s, points[1..], p.blockOffset)
  }

  lemma {:induction false} ExpandedFrom(s: seq<byte>, points: seq<Point>, from: nat, to: nat)
    requires from <= to && Ascending(points, to, |s|)
    ensures Ascending(points, from, |s|)
    ensures Expanded(s, points, from) == s[from..to] + Expanded(s, points, to)
  {
    if points != [] {
      var p := points[0];
      assert s[from..p.blockOffset - 1] == s[from..to] + s[to..p.blockOffset - 1];
    }
  }

  /** From `at` on, the points expand the bytes to `code`, growing them by `extra`. */
  ghost predicate Expands(s: seq<byte>, points: seq<Point>, at: nat, code: seq<byte>, extra: nat)
  {
    && Ascending(points, at, |s|) && Expanded(s, points, at) == code && Sum(points) == extra
    && forall i :: 0 <= i < |points| ==> points[i].Proper()
  }

  /** Expanding the raw bytes of flat content gives its encoding, and the growth is what the writer counted. */
  lemma {:induction false} FlatExpands(pre: seq<byte>, items: seq<Item>, s: seq<byte>, at: nat)
    requires Flat(items) && Fits(items) && s == pre + Raw(items) && at == |pre|
    ensures Expands(s, Points(items, at), at, Encoding(items), Extras(items))
    decreases |items|
  {
    hide RawOf, EncodingOf, ExtraOf, PointsOf, Expanded, Ascending, HasLong, Length;
    if items == [] {
      NothingExpands(s);
    } else {
      var x, raw, rest := items[0], RawOf(items[0]), items[1..];
      Associate(pre, raw, Raw(rest));
      FlatExpands(pre + raw, rest, s, at + |raw|);
      assert s[at..at + |raw|] == raw;
      FirstExpands(s, x, Points(rest, at + |raw|), at, Encoding(rest), Extras(rest));
    }
  }

  lemma NothingExpands(s: seq<byte>)
    ensures Expands(s, [], |s|, [], 0)
  {
  }

  lemma FirstExpands(s: seq<byte>, x: Item, later: seq<Point>, at: nat, code: seq<byte>, extra: nat)
    requires x.Container? ==> !HasLong(x.items)
    requires at + |RawOf(x)| <= |s| && s[at..at + |RawOf(x)|] == RawOf(x) && FitsIn(x)
    requires Expands(s, later, at + |RawOf(x)|, code, extra)
    ensures Expands(s, PointsOf(x, at) + later, at, EncodingOf(x) + code, ExtraOf(x) + extra)
  {
    hide Expands;
    if x.Container? && Length(x.items) >= LONG {
      LongShape(x, at);
      hide RawOf, EncodingOf, PointsOf, ExtraOf, HasLong, Length;
      LongExpands(s, x.items, Length(x.items), later, at, code, extra);
    } else {
      NothingLongIn(x, at);
      ShortExpands(s, later, at, |RawOf(x)|, code, extra);
      assert [] + later == later;
    }
  }

  lemma ShortExpands(s: seq<byte>, later: seq<Point>, at: nat, n: nat, code: seq<byte>, extra: nat)
    requires at + n <= |s| && Expands(s, later, at + n, code, extra)
    ensures Expands(s, later, at, s[at..at + n] + code, extra)
  {
    ExpandedFrom(s, later, at, at + n);
  }

  lemma LongShape(x: Item, at: nat)
    requires x.Container? && Length(x.items) >= LONG && !HasLong(x.items)
    ensures var n := Length(x.items);
      && n == |Raw(x.items)| && |RawOf(x)| == n + 1 && RawOf(x)[1..] == Raw(x.items)
      && EncodingOf(x) == Header(n) + Raw(x.items) && ExtraOf(x) == Extra(n)
      && PointsOf(x, at) == [Point(at + 1, PackedLength(n))]
  {
    NothingLong(x.items, at + 1);
  }

  lemma LongExpands(s: seq<byte>, inside: seq<Item>, n: nat, later: seq<Point>, at: nat, code: seq<byte>, extra: nat)
    requires LONG <= n == |Raw(inside)| < MAX_LENGTH && at + 1 + n <= |s|
    requires s[at + 1..at + 1 + n] == Raw(inside) && Expands(s, later, at + 1 + n, code, extra)
    ensures Expands(s, [Point(at + 1, PackedLength(n))] + later, at, (Header(n) + Raw(inside)) + code, Extra(n) + extra)
  {
    hide Raw, Header, PackedLength, Extra, Point.Proper, Point.Bytes, Point.Diff, Expanded, Ascending, Sum;
    var p := Point(at + 1, PackedLength(n));
    PackedLengthIsHeader(n, at + 1);
    ExpandedFrom(s, later, at + 1, at + 1 + n);
    OnePoint(p, later);
    ExpandedAt(s, p, later, at);
    Associate(p.Bytes(), Raw(inside), code);
  }

  lemma ExpandedAt(s: seq<byte>, p: Point, later: seq<Point>, at: nat)
    requires p.blockOffset == at + 1 <= |s| && Ascending(later, at + 1, |s|)
    ensures Ascending([p] + later, at, |s|)
    ensures Expanded(s, [p] + later, at) == p.Bytes() + Expanded(s, later, at + 1)
  {
    hide Point.Bytes;
    assert ([p] + later)[1..] == later;
    assert s[at..at] + p.Bytes() == p.Bytes();
  }

  lemma OnePoint(p: Point, later: seq<Point>)
    ensures ([p] + later)[1..] == later && Sum([p] + later) == p.Diff() + Sum(later)
  {
    SumConcat([p], later);
    assert [p][..0] == [];
  }

  // ---- The four-byte store of a header ----

  lemma {:induction false} BytesAbove(low: nat, high: nat, k: nat, n: nat)
    requires low < Pow2(8 * k)
    ensures LEBytes(low + Shl(high, 8 * k), k + n) == LEBytes(low, k) + LEBytes(high, n)
  {
    hide Shl, Pow2;
    if k == 0 {
      ShlNone(high);
      NoBits(low, k);
      assert [] + LEBytes(high, n) == LEBytes(high, n);
    } else {
      ShlBy8(high, 8 * (k - 1));
      Pow2By8(8 * (k - 1));
      var v := low + Shl(high, 8 * k);
      assert v % 256 == low % 256 && v / 256 == low / 256 + Shl(high, 8 * (k - 1));
      BytesAbove(low / 256, high, k - 1, n);
    }
  }

  lemma NoBits(v: nat, k: nat)
    requires k == 0 && v < Pow2(8 * k)
    ensures v == 0
  {
  }

  lemma {:induction false} BytesOfLE(s: seq<byte>)
    ensures LEBytes(LE(s), |s|) == s
  {
    if s != [] {
      BytesOfLE(s[1..]);
      LowAndHigh(LE(s[1..]), s[0]);
      assert s == [s[0]] + s[1..];
    }
  }

  lemma LowAndHigh(high: nat, low: byte)
    ensures (low + 256 * high) % 256 == low && (low + 256 * high) / 256 == high
  {
  }

  lemma {:induction false} LEInParts(s: seq<byte>, k: nat)
    requires k <= |s|
    ensures LE(s) == LE(s[..k]) + Shl(LE(s[k..]), 8 * k)
  {
    if k == 0 {
      ShlNone(LE(s));
      assert s[..0] == [] && s[0..] == s;
    } else {
      LEInParts(s[1..], k - 1);
      ShlBy8(LE(s[k..]), 8 * (k - 1));
      assert s[1..][..k - 1] == s[..k][1..] && s[1..][k - 1..] == s[k..];
    }
  }

  /** The store keeps the memory behind the header. */
  lemma MergedStore(memory: seq<byte>, p: Point, k: nat)
    requires |memory| == 4 && p.Proper() && k == p.Diff() + 1
    ensures LEBytes(p.headerLength % 0x100_0000 + Shl(Shr(LE(memory), 8 * k), 8 * k), 4) == p.Bytes() + memory[k..]
  {
    hide LE, LEBytes, Shl, Shr, Low, Pow2;
    var word := p.headerLength % 0x100_0000;
    BytePowers();
    LEInParts(memory, k);
    LEBound(memory[..k]);
    CutUnique(LE(memory[k..]), LE(memory[..k]), 8 * k);
    BytesAbove(word, LE(memory[k..]), k, 4 - k);
    BytesOfLE(memory[k..]);
  }

  // ---- Where expanding in place can go wrong ----

  lemma {:induction false} AscendingBound(points: seq<Point>, from: nat, end: nat, i: nat)
    requires Ascending(points, from, end) && i < |points|
    ensures from < points[i].blockOffset <= end
    decreases |points|
  {
    if i > 0 {
      AscendingBound(points[1..], points[0].blockOffset, end, i - 1);
    }
  }

  lemma SumSplit(points: seq<Point>, i: nat)
    requires i <= |points|
    ensures Sum(points) == Sum(points[..i]) + Sum(points[i..])
  {
    assert points == points[..i] + points[i..];
    SumConcat(points[..i], points[i..]);
  }

  /** One step of the backward loop: the next point fits exactly when all of them ascend and the growth suffices. */
  lemma StepFits(points: seq<Point>, from: nat, end: nat, i: nat, last: nat, offset: int)
    requires Ascending(points, from, end) && 0 < i <= |points|
    requires last == if i == |points| then end else points[i].blockOffset - 1
    requires offset + Sum(points[i..]) == Sum(points)
    ensures points[i - 1].blockOffset <= last && offset >= points[i - 1].Diff()
  {
    AscendingBound(points, from, end, i - 1);
    if i < |points| {
      AscendingOrder(points, from, end, i - 1, i);
    }
    SumSplit(points, i);
    assert points[..i][..i - 1] == points[..i - 1];
  }

  /** One more point in front of an expanded tail. */
  lemma StepExpands(s: seq<byte>, points: seq<Point>, i: nat, last: nat)
    requires 0 < i <= |points| && 0 < points[i - 1].blockOffset <= last
    requires Ascending(points[i..], last, |s|)
    ensures var p := points[i - 1]; var header := p.blockOffset - 1;
      && Ascending(points[i - 1..], header, |s|)
      && Expanded(s, points[i - 1..], header) == p.Bytes() + s[p.blockOffset..last] + Expanded(s, points[i..], last)
      && Sum(points[i - 1..]) == p.Diff() + Sum(points[i..])
  {
    hide Point.Bytes, Point.Diff;
    var p := points[i - 1];
    assert points[i - 1..] == [p] + points[i..];
    OnePoint(p, points[i..]);
    ExpandedFrom(s, points[i..], p.blockOffset, last);
    assert s[p.blockOffset - 1..p.blockOffset - 1] + p.Bytes() == p.Bytes();
    Associate(p.Bytes(), s[p.blockOffset..last], Expanded(s, points[i..], last));
  }

  // ---- One step in place ----

  function Moved(s: seq<byte>, to: nat, from: nat, n: nat): (r: seq<byte>)
    requires from <= to && to + n <= |s|
    ensures |r| == |s|
  {
    s[..to] + s[from..from + n] + s[to + n..]
  }

  function Stored(s: seq<byte>, at: nat, bytes: seq<byte>): (r: seq<byte>)
    requires at + |bytes| <= |s|
    ensures |r| == |s|
  {
    s[..at] + bytes + s[at + |bytes|..]
  }

  lemma MovedInParts(s: seq<byte>, r: seq<byte>, to: nat, from: nat, n: nat)
    requires from <= to && to + n <= |s| == |r|
    requires r[..to] == s[..to] && r[to..to + n] == s[from..from + n] && r[to + n..] == s[to + n..]
    ensures r == Moved(s, to, from, n)
  {
    assert r == r[..to] + r[to..to + n] + r[to + n..];
  }

  lemma MovedParts(s: seq<byte>, to: nat, from: nat, n: nat, limit: nat)
    requires from <= to && to + n <= limit <= |s|
    ensures Moved(s, to, from, n)[..to] == s[..to]
    ensures Moved(s, to, from, n)[to..limit] == s[from..from + n] + s[to + n..limit]
  {
    Spliced(s[..to], s[from..from + n], s[to + n..], limit);
    assert s[to + n..][..limit - (to + n)] == s[to + n..limit];
  }

  lemma Spliced(a: seq<byte>, b: seq<byte>, c: seq<byte>, limit: nat)
    requires |a| + |b| <= limit <= |a| + |b| + |c|
    ensures (a + b + c)[..|a|] == a
    ensures (a + b + c)[|a|..limit] == b + c[..limit - (|a| + |b|)]
  {
  }

  lemma StoredParts(s: seq<byte>, at: nat, bytes: seq<byte>, limit: nat)
    requires at + |bytes| <= limit <= |s|
    ensures Stored(s, at, bytes)[..at] == s[..at]
    ensures Stored(s, at, bytes)[at..limit] == bytes + s[at + |bytes|..limit]
  {
    Spliced(s[..at], bytes, s[at + |bytes|..], limit);
    assert s[at + |bytes|..][..limit - (at + |bytes|)] == s[at + |bytes|..limit];
  }

  /** The content between a point and `end` moved by `offset`, and the point's bytes in front of it. */
  function OneExpanded(s: seq<byte>, p: Point, end: nat, offset: nat): (r: seq<byte>)
    requires 0 < p.blockOffset <= end && p.Diff() <= offset && end + offset <= |s|
    ensures |r| == |s|
  {
    var moved := Moved(s, p.blockOffset + offset, p.blockOffset, end - p.blockOffset);
    Stored(moved, p.blockOffset - 1 + (offset - p.Diff()), p.Bytes())
  }

  lemma OneExpandedParts(s: seq<byte>, p: Point, end: nat, offset: nat, limit: nat)
    requires 0 < p.blockOffset <= end && p.Diff() <= offset && end + offset <= limit <= |s|
    ensures var header := p.blockOffset - 1; var r := OneExpanded(s, p, end, offset);
      && r[..header] == s[..header]
      && r[header + (offset - p.Diff())..limit] == p.Bytes() + (s[p.blockOffset..end] + s[end + offset..limit])
  {
    hide Moved, Stored, Point.Bytes, Point.Diff;
    var start, d := p.blockOffset, p.Diff();
    var at, moved := start - 1 + (offset - d), Moved(s, start + offset, start, end - start);
    SizeOfBytes(p);
    MovedParts(s, start + offset, start, end - start, limit);
    StoredParts(moved, at, p.Bytes(), limit);
    var r := Stored(moved, at, p.Bytes());
    assert moved[..start - 1] == moved[..start + offset][..start - 1];
    assert s[..start - 1] == s[..start + offset][..start - 1];
    assert r[..start - 1] == r[..at][..start - 1];
    assert moved[..start - 1] == moved[..at][..start - 1];
  }

  lemma SizeOfBytes(p: Point)
    ensures |p.Bytes()| == p.Diff() + 1
  {
  }

  /** The points from `i` on are expanded in `now`; the bytes before the last of them are those of `s`. */
  ghost predicate Progress(now: seq<byte>, s: seq<byte>, points: seq<Point>, i: nat, pEnd: nat, offset: nat,
      extraSize: nat)
  {
    && i <= |points| && pEnd <= |s| && |s| + extraSize <= |now| && pEnd + offset <= |s| + extraSize
    && pEnd == (if i == |points| then |s| else points[i].blockOffset - 1)
    && offset + Sum(points[i..]) == extraSize && now[..pEnd] == s[..pEnd]
    && Ascending(points[i..], pEnd, |s|)
    && now[pEnd + offset..|s| + extraSize] == Expanded(s, points[i..], pEnd)
  }

  lemma OneMoreExpanded(now: seq<byte>, s: seq<byte>, points: seq<Point>, i: nat, pEnd: nat, offset: nat,
      extraSize: nat)
    requires Progress(now, s, points, i, pEnd, offset, extraSize) && i > 0
    requires 0 < points[i - 1].blockOffset <= pEnd && offset >= points[i - 1].Diff()
    ensures pEnd + offset <= |now|
    ensures var p := points[i - 1];
      Progress(OneExpanded(now, p, pEnd, offset), s, points, i - 1, p.blockOffset - 1, offset - p.Diff(), extraSize)
  {
    hide Point.Bytes, Point.Diff, Expanded, Sum, Ascending, OneExpanded;
    var p, limit := points[i - 1], |s| + extraSize;
    StepExpands(s, points, i, pEnd);
    OneExpandedParts(now, p, pEnd, offset, limit);
    assert now[p.blockOffset..pEnd] == now[..pEnd][p.blockOffset..];
    assert s[p.blockOffset..pEnd] == s[..pEnd][p.blockOffset..];
    Associate(p.Bytes(), s[p.blockOffset..pEnd], Expanded(s, points[i..], pEnd));
    assert now[..p.blockOffset - 1] == now[..pEnd][..p.blockOffset - 1];
    assert s[..p.blockOffset - 1] == s[..pEnd][..p.blockOffset - 1];
  }

  lemma StartExpanding(now: seq<byte>, s: seq<byte>, points: seq<Point>, extraSize: nat)
    requires |s| + extraSize <= |now| && s == now[..|s|]
    ensures Progress(now, s, points, |points|, |s|, extraSize, extraSize)
  {
    var none := points[|points|..];
    assert none == [] && Expanded(s, none, |s|) == [];
  }

  lemma MayExpand(now: seq<byte>, s: seq<byte>, points: seq<Point>, i: nat, pEnd: nat, offset: nat,
      extraSize: nat, from: nat)
    requires i > 0 && Progress(now, s, points, i, pEnd, offset, extraSize)
    requires Ascending(points, from, |s|) && extraSize == Sum(points)
    ensures points[i - 1].blockOffset <= pEnd && offset >= points[i - 1].Diff()
  {
    hide Expanded, Sum, Point.Diff;
    StepFits(points, from, |s|, i, pEnd, offset);
  }

  lemma AllExpanded(now: seq<byte>, s: seq<byte>, points: seq<Point>, pEnd: nat, offset: nat, extraSize: nat,
      messageStart: nat)
    requires points != [] && Progress(now, s, points, 0, pEnd, offset, extraSize)
    ensures offset == 0 <==> extraSize == Sum(points)
    ensures Ascending(points, messageStart + 1, |s|) <==> pEnd > messageStart
    ensures Ascending(points, 0, |s|)
    ensures offset == 0 ==> now[..|s| + extraSize] == Expanded(s, points, 0)
  {
    assert points[0..] == points;
    ExpandedFrom(s, points, 0, pEnd);
    hide Sum, Point.Bytes, Point.Diff, Expanded;
    assert s[0..pEnd] == now[..pEnd];
    if offset == 0 {
      assert now[..|s| + extraSize] == now[..pEnd] + now[pEnd..|s| + extraSize];
    }
  }

  // ---- What trimming keeps ----

  /** With this item the end of the known non-NULL data moves behind it; the end of a container does that. */
  predicate Marks(item: Item)
  {
    item.Container? || item.notNull
  }

  /** How many items a cut leaves: those up to the last that marks. */
  function Kept(items: seq<Item>): (k: nat)
    ensures k <= |items| && (k > 0 ==> Marks(items[k - 1]))
    ensures forall i :: k <= i < |items| ==> !Marks(items[i])
  {
    if items == [] then 0
    else if Kept(items[1..]) > 0 then Kept(items[1..]) + 1
    else if Marks(items[0]) then 1
    else 0
  }

  /** Where the mark stands behind some items that start at `at`. */
  function MarkAfter(items: seq<Item>, at: nat, mark: nat): nat
  {
    if Kept(items) == 0 then mark else at + |Raw(items[..Kept(items)])|
  }

  lemma MarkInOrder(items: seq<Item>, at: nat, mark: nat)
    requires items != []
    ensures var behind := at + |RawOf(items[0])|;
      MarkAfter(items, at, mark) == MarkAfter(items[1..], behind, if Marks(items[0]) then behind else mark)
  {
    hide RawOf;
    var k := Kept(items);
    if k > 0 {
      assert items[..k][0] == items[0] && items[..k][1..] == items[1..][..k - 1];
      assert k == 1 ==> Raw(items[1..][..0]) == [];
    }
  }

  lemma {:induction false} BytesAlone(items: seq<Item>, at: nat)
    requires forall i :: 0 <= i < |items| ==> items[i].Byte?
    ensures |Raw(items)| == |items| && Extras(items) == 0 && Points(items, at) == []
    ensures Flat(items) && Fits(items) && Height(items) == 0
  {
    if items != [] {
      BytesAlone(items[1..], at + 1);
    }
  }

  /** What is cut off holds no container, so nothing about the headers changes. */
  lemma {:induction false} CutItems(items: seq<Item>, k: nat, at: nat)
    requires k <= |items| && forall i :: k <= i < |items| ==> items[i].Byte?
    ensures Points(items, at) == Points(items[..k], at) && Extras(items) == Extras(items[..k])
    ensures Raw(items[..k]) <= Raw(items)
    ensures Flat(items) == Flat(items[..k]) && Fits(items) == Fits(items[..k])
    ensures Height(items) == Height(items[..k])
    decreases |items|
  {
    hide RawOf, ExtraOf, PointsOf, HeightOf, FitsIn, HasLong;
    if k == 0 {
      BytesAlone(items, at);
    } else {
      assert items[..k][0] == items[0] && items[..k][1..] == items[1..][..k - 1];
      CutItems(items[1..], k - 1, at + |RawOf(items[0])|);
    }
  }

  /** What of some content a finished message has: all of it, or what trimming leaves. */
  function Left(items: seq<Item>, trims: bool): seq<Item>
  {
    if trims then items[..Kept(items)] else items
  }

  lemma LeftOver(items: seq<Item>, trims: bool, at: nat)
    ensures var left := Left(items, trims);
      && Points(items, at) == Points(left, at) && Extras(items) == Extras(left)
      && Raw(left) <= Raw(items) && Fits(items) == Fits(left)
      && Flat(items) == Flat(left) && Height(items) == Height(left)
  {
    hide Raw, Extras, Points, Flat, Fits, Height;
    CutItems(items, if trims then Kept(items) else |items|, at);
    assert items[..|items|] == items;
  }

  /** Where the cut stands in the bytes behind `pre`. */
  lemma CutBody(pre: seq<byte>, items: seq<Item>, trims: bool, mark: nat, s: seq<byte>, end: nat)
    requires s == pre + Raw(items) && mark <= |pre|
    requires end == if trims then Min(|s|, MarkAfter(items, |pre|, mark)) else |s|
    ensures !trims || Kept(items) > 0 ==> s[..end] == pre + Raw(Left(items, trims))
    ensures trims && Kept(items) == 0 ==> end == mark && s[..end] == pre[..mark]
  {
    hide Raw, Extras, Points, Flat, Fits, Height, Kept;
    LeftOver(items, trims, 0);
  }

  /** How deep containers are nested. */
  function Height(items: seq<Item>): nat
    decreases items, 0
  {
    if items == [] then 0
    else if HeightOf(items[0]) >= Height(items[1..]) then HeightOf(items[0])
    else Height(items[1..])
  }

  function HeightOf(item: Item): nat
    decreases item, 0
  {
    if item.Byte? then 0 else 1 + Height(item.items)
  }

  // ---- What writing content does ----

  /** The writer's state: the bytes so far, and for every open container where its header is and how
      much the headers directly inside it will grow; `extras` starts with the message itself, and
      `mark` is the end of the data known not to be NULL. */
  datatype State = State(data: seq<byte>, headers: seq<nat>, extras: seq<nat>, points: seq<Point>, mark: nat) {
    ghost predicate Valid() {
      |extras| == |headers| + 1 && forall i :: 0 <= i < |headers| ==> headers[i] < |data|
    }
  }

  function Grown(extras: seq<nat>, n: nat): (r: seq<nat>)
    requires extras != []
    ensures |r| == |extras|
  {
    extras[..|extras| - 1] + [extras[|extras| - 1] + n]
  }

  function Opened(st: State): State
  {
    State(st.data + [0], st.headers + [|st.data|], st.extras + [0], st.points, st.mark)
  }

  function Closed(st: State): State
    requires st.Valid() && st.headers != []
  {
    var d := |st.headers|;
    var at := st.headers[d - 1];
    var length := |st.data| - (at + 1) + st.extras[d];
    State(st.data[at := length % 256], st.headers[..d - 1], Grown(st.extras[..d], Extra(length)),
      st.points + (if length < LONG then [] else [Point(at + 1, PackedLength(length))]), |st.data|)
  }

  /** Some bytes more, which will grow by `n`. */
  function Extended(st: State, raw: seq<byte>, n: nat, points: seq<Point>, mark: nat): State
    requires st.Valid()
  {
    State(st.data + raw, st.headers, Grown(st.extras, n), st.points + points, mark)
  }

  function Written(st: State, items: seq<Item>): State
    requires st.Valid()
  {
    Extended(st, Raw(items), Extras(items), Points(items, |st.data|), MarkAfter(items, |st.data|, st.mark))
  }

  function WrittenOne(st: State, item: Item): State
    requires st.Valid()
  {
    Extended(st, RawOf(item), ExtraOf(item), PointsOf(item, |st.data|),
      if Marks(item) then |st.data| + |RawOf(item)| else st.mark)
  }

  lemma ExtendedTwice(st: State, a: seq<byte>, m: nat, p: seq<Point>, x: nat, b: seq<byte>, n: nat, q: seq<Point>,
      y: nat)
    requires st.Valid()
    ensures Extended(st, a, m, p, x).Valid()
    ensures Extended(Extended(st, a, m, p, x), b, n, q, y) == Extended(st, a + b, m + n, p + q, y)
  {
    Associate(st.data, a, b);
    Associate(st.points, p, q);
  }

  lemma NothingWritten(st: State)
    requires st.Valid()
    ensures Written(st, []) == st
  {
  }

  lemma WrittenInOrder(st: State, items: seq<Item>)
    requires st.Valid() && items != []
    ensures WrittenOne(st, items[0]).Valid()
    ensures Written(WrittenOne(st, items[0]), items[1..]) == Written(st, items)
  {
    hide RawOf, ExtraOf, PointsOf, Grown, MarkAfter;
    var x, rest, at := items[0], items[1..], |st.data|;
    var behind := at + |RawOf(x)|;
    var mark := if Marks(x) then behind else st.mark;
    MarkInOrder(items, at, st.mark);
    ExtendedTwice(st, RawOf(x), ExtraOf(x), PointsOf(x, at), mark, Raw(rest), Extras(rest), Points(rest, behind),
      MarkAfter(rest, behind, mark));
    assert Raw(items) == RawOf(x) + Raw(rest) && Extras(items) == ExtraOf(x) + Extras(rest);
    assert Points(items, at) == PointsOf(x, at) + Points(rest, at + |RawOf(x)|);
  }

  /** Opening, writing and closing writes a container. */
  lemma ContainerWritten(st: State, items: seq<Item>)
    requires st.Valid()
    ensures Opened(st).Valid() && Written(Opened(st), items).Valid()
    ensures Closed(Written(Opened(st), items)) == WrittenOne(st, Container(items))
  {
    hide Raw, Extras, Points, PackedLength, Extra, MarkAfter;
    var inner, d, at := Written(Opened(st), items), |st.headers|, |st.data|;
    var n := |Raw(items)| + Extras(items);
    assert inner.headers[..d] == st.headers && inner.headers[d] == at;
    assert inner.extras[d + 1] == Extras(items) && inner.extras[..d + 1] == st.extras;
    assert inner.data[at := n % 256] == st.data + ([n % 256] + Raw(items));
    Associate(st.points, Points(items, at + 1), if n < LONG then [] else [Point(at + 1, PackedLength(n))]);
  }

  // ---- The writer ----

  datatype Outcome = Done | TooBig | LogicError | Corrupted

  class ContainerWriter {
    const buffer: array<byte>
    const dataEnd: nat
    // LOADER_TRIM_NULL_FIELDS.
    const trims: bool
    var dataPtr: nat
    var dataEndNotNull: nat
    var depth: nat
    var containerHeader: seq<nat>
    var containerContentsExtraSize: seq<nat>
    var expansionPoints: seq<Point>

    ghost predicate Valid()
      reads this
    {
      && dataPtr <= dataEnd && buffer.Length == dataEnd + GUARD
      && depth <= LOADER_MAX_NESTED == |containerHeader| && |containerContentsExtraSize| == LOADER_MAX_NESTED + 1
    }

    // ---- Expanding in place ----

    /** `memmove` within the buffer, upwards. */
    method MemMove(to: nat, from: nat, n: nat)
      requires from <= to && to + n <= buffer.Length
      modifies buffer
      ensures buffer[..] == Moved(old(buffer[..]), to, from, n)
    {
      ghost var before := buffer[..];
      forall i | 0 <= i < n {
        buffer[to + i] := buffer[from + i];
      }
      hide Moved;
      ghost var after := buffer[..];
      assert after[..to] == before[..to];
      assert after[to..to + n] == before[from..from + n];
      assert after[to + n..] == before[to + n..];
      MovedInParts(before, after, to, from, n);
    }

    /** Stores a header of two or three bytes by a four-byte word that keeps the memory behind it. */
    method StoreHeader(at: nat, p: Point)
      requires at + 4 <= buffer.Length && p.Proper()
      modifies buffer
      ensures at + |p.Bytes()| <= |old(buffer[..])| && buffer[..] == Stored(old(buffer[..]), at, p.Bytes())
    {
      hide LE, LEBytes, Shl, Shr, Low, Pow2;
      var k, memory := p.Diff() + 1, buffer[at..at + 4];
      ghost var before := buffer[..];
      MergedStore(memory, p, k);
      SizeOfBytes(p);
      var word := p.headerLength % 0x100_0000 + Shl(Shr(LE(memory), 8 * k), 8 * k);
      StoreFour(at, LEBytes(word, 4));
      KeepsBehind(before, at, p.Bytes());
    }

    static lemma KeepsBehind(s: seq<byte>, at: nat, bytes: seq<byte>)
      requires at + 4 <= |s| && |bytes| <= 4
      ensures Stored(s, at, bytes + s[at..at + 4][|bytes|..]) == Stored(s, at, bytes)
    {
    }

    method StoreFour(at: nat, bytes: seq<byte>)
      requires at + 4 <= buffer.Length && |bytes| == 4
      modifies buffer
      ensures buffer[..] == Stored(old(buffer[..]), at, bytes)
    {
      forall i | 0 <= i < 4 {
        buffer[at + i] := bytes[i];
      }
    }

    /** Moves one stretch of content to its place and puts its header in front. */
    method ExpandOne(p: Point, end: nat, offset: nat)
      requires p.Proper() && 0 < p.blockOffset <= end && p.Diff() <= offset
      requires end + offset <= dataEnd && buffer.Length == dataEnd + GUARD
      modifies buffer
      ensures buffer[..] == OneExpanded(old(buffer[..]), p, end, offset)
    {
      hide Moved, Stored, Point.Bytes;
      MemMove(p.blockOffset + offset, p.blockOffset, end - p.blockOffset);
      StoreHeader(p.blockOffset - 1 + (offset - p.Diff()), p);
    }

    /**
      Expands all headers from the last point to the first.  It succeeds exactly when the points
      ascend, inside the message, and the growth is theirs.
     */
    method ExpandHeaders(end: nat, extraSize: nat, messageStart: nat) returns (outcome: Outcome)
      requires buffer.Length == dataEnd + GUARD && end + extraSize <= dataEnd
      requires expansionPoints != []
      requires forall i :: 0 <= i < |expansionPoints| ==>
        expansionPoints[i].Proper() && expansionPoints[i].blockOffset > 0
      modifies buffer
      ensures outcome == Done <==>
        Ascending(expansionPoints, messageStart + 1, end) && extraSize == Sum(expansionPoints)
      ensures outcome == Done ==>
        && Ascending(expansionPoints, 0, end)
        && buffer[..end + extraSize] == Expanded(old(buffer[..end]), expansionPoints, 0)
    {
      hide Point.Bytes, Point.Diff, Point.Proper, Expanded, Sum, Ascending, OneExpanded, Progress;
      var points := expansionPoints;
      var pEnd: nat, offset: nat, i: nat := end, extraSize, |points|;
      ghost var s := buffer[..end];
      assert buffer[..][..end] == s;
      StartExpanding(buffer[..], s, points, extraSize);
      while i != 0
        invariant i <= |points| && pEnd + offset <= end + extraSize
        invariant Progress(buffer[..], s, points, i, pEnd, offset, extraSize)
      {
        if Ascending(points, messageStart + 1, end) && extraSize == Sum(points) {
          MayExpand(buffer[..], s, points, i, pEnd, offset, extraSize, messageStart + 1);
        }
        var p := points[i - 1];
        if p.blockOffset > pEnd || offset < p.Diff() {
          return Corrupted;
        }
        OneMoreExpanded(buffer[..], s, points, i, pEnd, offset, extraSize);
        ExpandOne(p, pEnd, offset);
        pEnd := p.blockOffset - 1;
        offset := offset - p.Diff();
        i := i - 1;
      }
      AllExpanded(buffer[..], s, points, pEnd, offset, extraSize, messageStart);
      if offset != 0 || pEnd <= messageStart {
        return LogicError;
      }
      assert buffer[..end + extraSize] == buffer[..][..end + extraSize];
      outcome := Done;
    }

    // ---- Writing content ----

    ghost function Now(): State
      requires Valid()
      reads this, buffer
    {
      State(buffer[..dataPtr], containerHeader[..depth], containerContentsExtraSize[..depth + 1], expansionPoints,
        dataEndNotNull)
    }

    method PutByte(b: byte) returns (ok: bool)
      requires Valid()
      modifies buffer, `dataPtr
      ensures ok <==> old(dataPtr) < dataEnd
      ensures ok ==> Valid() && dataPtr == old(dataPtr) + 1 && buffer[..dataPtr] == old(buffer[..dataPtr]) + [b]
    {
      buffer[dataPtr] := b;
      dataPtr := dataPtr + 1;
      ok := dataPtr <= dataEnd;
    }

    /** Remembers where the header goes and reserves one byte for it. */
    method OpenContainer() returns (ok: bool)
      requires Valid() && Now().Valid()
      modifies this, buffer
      ensures ok <==> old(depth) < LOADER_MAX_NESTED && old(dataPtr) < dataEnd
      ensures ok ==> Valid() && Now() == Opened(old(Now())) && depth == old(depth) + 1 && dataPtr == old(dataPtr) + 1
    {
      if depth >= LOADER_MAX_NESTED {
        return false;
      }
      depth := depth + 1;
      containerContentsExtraSize := containerContentsExtraSize[depth := 0];
      containerHeader := containerHeader[depth - 1 := dataPtr];
      ok := PutByte(0);
    }

    /** Stores the low byte of the length, records a point when that is not all of it, and marks. */
    method CloseContainer()
      requires Valid() && Now().Valid() && depth > 0
      modifies this, buffer
      ensures Valid() && Now() == Closed(old(Now())) && depth == old(depth) - 1 && dataPtr == old(dataPtr)
    {
      hide PackedLength;
      ghost var st := Now();
      depth := depth - 1;
      assert containerHeader[depth] == st.headers[depth];
      assert containerContentsExtraSize[depth + 1] == st.extras[depth + 1];
      var contentPtr := containerHeader[depth] + 1;
      var length := dataPtr - contentPtr + containerContentsExtraSize[depth + 1];
      buffer[contentPtr - 1] := length % 256;
      assert buffer[..dataPtr] == st.data[contentPtr - 1 := length % 256];
      if length >= LONG {
        var extraHeaderBytes := if length >= 0x4000 then 2 else 1;
        containerContentsExtraSize :=
          containerContentsExtraSize[depth := containerContentsExtraSize[depth] + extraHeaderBytes];
        expansionPoints := expansionPoints + [Point(contentPtr, PackedLength(length))];
      }
      dataEndNotNull := dataPtr;
    }

    /** The calls that write some content: a byte at a time, containers between their two calls. */
    method WriteItems(items: seq<Item>) returns (ok: bool)
      requires Valid() && Now().Valid()
      modifies this, buffer
      ensures ok <==> old(depth) + Height(items) <= LOADER_MAX_NESTED && old(dataPtr) + |Raw(items)| <= dataEnd
      ensures ok ==> Valid() && Now() == Written(old(Now()), items) && depth == old(depth)
      decreases items, 0
    {
      hide RawOf, ExtraOf, PointsOf, HeightOf;
      if items == [] {
        NothingWritten(Now());
        return true;
      }
      WrittenInOrder(Now(), items);
      ok := WriteItem(items[0]);
      if ok {
        ok := WriteItems(items[1..]);
      }
    }

    method WriteItem(item: Item) returns (ok: bool)
      requires Valid() && Now().Valid()
      modifies this, buffer
      ensures ok <==> old(depth) + HeightOf(item) <= LOADER_MAX_NESTED && old(dataPtr) + |RawOf(item)| <= dataEnd
      ensures ok ==> Valid() && Now() == WrittenOne(old(Now()), item) && depth == old(depth)
      decreases item, 0
    {
      hide Raw, Extras, Points, Height, PackedLength, Extra, Closed, MarkAfter;
      ghost var st := Now();
      match item
      case Byte(b, notNull) =>
        ok := PutByte(b);
        if notNull {
          dataEndNotNull := dataPtr;
        }
        assert Grown(st.extras, 0) == st.extras && st.points + [] == st.points;
      case Container(items) =>
        ContainerWritten(st, items);
        ok := OpenContainer();
        if ok {
          ok := WriteItems(items);
          if ok {
            CloseContainer();
          }
        }
    }

    // ---- Finishing a message ----

    /** Cuts the message when it is to be trimmed, and expands the headers when any have to grow; only
        then does the write pointer move to the end of the finished message. */
    method FinishMessage(messageStart: nat) returns (outcome: Outcome, end: nat)
      requires Valid() && depth == 0
      requires forall i :: 0 <= i < |expansionPoints| ==>
        expansionPoints[i].Proper() && expansionPoints[i].blockOffset > 0
      requires containerContentsExtraSize[0] == 0 <==> expansionPoints == []
      modifies buffer, `dataPtr
      ensures var cut, extra := End(old(dataPtr)), containerContentsExtraSize[0];
        && (outcome == Done <==>
              cut + extra <= dataEnd &&
              (expansionPoints == [] ||
               (Ascending(expansionPoints, messageStart + 1, cut) && extra == Sum(expansionPoints))))
        && (outcome == Done ==>
              end == cut + extra <= buffer.Length && dataPtr == if extra == 0 then old(dataPtr) else end)
        && (outcome == Done && expansionPoints == [] ==> buffer[..end] == old(buffer[..End(dataPtr)]))
        && (outcome == Done && expansionPoints != [] ==>
              (Ascending(expansionPoints, 0, cut) &&
               buffer[..end] == Expanded(old(buffer[..End(dataPtr)]), expansionPoints, 0)))
    {
      hide Expanded, Ascending, Sum;
      end := End(dataPtr);
      var extraSize := containerContentsExtraSize[0];
      if extraSize == 0 {
        return Done, end;
      }
      if end + extraSize > dataEnd {
        return TooBig, end;
      }
      outcome := ExpandHeaders(end, extraSize, messageStart);
      end := end + extraSize;
      dataPtr := end;
    }

    /** Where a message whose bytes end at `p` is cut. */
    function End(p: nat): (end: nat)
      reads `dataEndNotNull
      ensures end <= p
    {
      if trims then Min(p, dataEndNotNull) else p
    }

    /**
      The body of a message, from the first call to the last: what trimming leaves of it comes out as
      a reader expects it exactly when it fits and no long container stands inside another container.
     */
    method WriteBody(items: seq<Item>, messageStart: nat) returns (ok: bool, end: nat)
      requires Valid() && depth == 0 && expansionPoints == [] && containerContentsExtraSize[0] == 0
      requires messageStart < dataPtr && dataEndNotNull <= dataPtr && Fits(items)
      modifies this, buffer
      ensures ok <==>
        && Height(items) <= LOADER_MAX_NESTED && Flat(items)
        && old(dataPtr) + |Raw(items)| <= dataEnd
        && old(dataPtr) + |Raw(Left(items, trims))| + Extras(items) <= dataEnd
      ensures ok ==>
        && end <= buffer.Length
        && (trims && Kept(items) == 0 ==> buffer[..end] == old(buffer[..dataEndNotNull]))
        && (!trims || Kept(items) > 0 ==> buffer[..end] == old(buffer[..dataPtr]) + Encoding(Left(items, trims)))
        && dataPtr == if Extras(items) == 0 then old(dataPtr) + |Raw(items)| else end
    {
      hide Expanded, Ascending, Sum, Raw, Extras, Points, Encoding, Flat, Fits, Height, Point.Proper, Kept, Left,
        MarkAfter;
      ghost var pre, at := buffer[..dataPtr], dataPtr;
      end := 0;
      ok := WriteItems(items);
      if !ok {
        return;
      }
      ghost var s, left := buffer[..dataPtr], Left(items, trims);
      LeftOver(items, trims, at);
      PointsProper(items, at);
      assert expansionPoints == [] + Points(items, at) == Points(items, at);
      ghost var cut := buffer[..End(dataPtr)];
      CutBody(pre, items, trims, old(dataEndNotNull), s, End(dataPtr));
      assert cut == s[..End(dataPtr)];
      if !trims || Kept(items) > 0 {
        BodyExpands(pre, left, cut, at, messageStart);
      } else {
        NothingLeft(items, at);
      }
      var outcome;
      outcome, end := FinishMessage(messageStart);
      ok := outcome == Done;
    }
  }

  lemma NothingLeft(items: seq<Item>, at: nat)
    requires Kept(items) == 0
    ensures Points(items, at) == [] && Extras(items) == 0 && Flat(items)
    ensures Raw(items[..0]) == []
  {
    BytesAlone(items, at);
  }

  /** An array of 128 bytes in an object cannot be finished. */
  lemma NestedFails()
    ensures !Flat([Container([Container(seq(128, _ => Byte(0, true)))])])
  {
    var zeros: seq<Item> := seq(128, _ => Byte(0, true));
    BytesAlone(zeros, 0);
    hide Raw;
    var inner := [Container(zeros)];
    assert HasLong(inner);
    assert [Container(inner)][0] == Container(inner);
  }

  /** The finished body, by whether the content is flat. */
  lemma BodyExpands(pre: seq<byte>, items: seq<Item>, s: seq<byte>, at: nat, messageStart: nat)
    requires Fits(items) && s == pre + Raw(items) && at == |pre| > messageStart
    ensures var points := Points(items, at);
      && (points == [] ==> Flat(items) && s == pre + Encoding(items))
      && (points != [] ==>
            (Flat(items) <==> Ascending(points, messageStart + 1, |s|) && Extras(items) == Sum(points)))
      && (points != [] && Flat(items) ==> Ascending(points, 0, |s|) && Expanded(s, points, 0) == pre + Encoding(items))
  {
    hide Raw, Encoding, Extras, Points, Sum, Fits, Point.Proper;
    var points := Points(items, at);
    if Flat(items) {
      FlatExpands(pre, items, s, at);
      ExpandedFrom(s, points, messageStart + 1, at);
      ExpandedFrom(s, points, 0, at);
      assert s[0..at] == pre;
      if points == [] {
        assert s == pre + s[at..];
      }
    } else {
      NestedIsUnordered(items, at, messageStart + 1, |s|);
      NotFlatIsLong(items);
      LongHasPoint(items, at);
    }
  }

  lemma {:induction false} NotFlatIsLong(items: seq<Item>)
    requires !Flat(items)
    ensures HasLong(items)
  {
    if !(items[0].Container? && HasLong(items[0].items)) {
      NotFlatIsLong(items[1..]);
    }
  }
}
