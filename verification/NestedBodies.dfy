/**
  What the writer is asked to write for nested fields, and what a reader makes of the result, trimmed or
  whole.
 */
module NestedBodies {
  import opened Words
  import opened Cursor
  import opened Containers
  import opened PackedIntegers
  import opened Encodings
  import opened NestedMessages
  import opened HeaderExpansion

  // ---- What the writer is asked to write ----

  /** The writer's call for this value says that it is not NULL: none does for NULL, nor for a string of
      bytes or binary data. */
  predicate Reports(leaf: Leaf, v: Value)
  {
    !leaf.Utf8? && !leaf.Binary? && v != EndValue(leaf)
  }

  /** Bytes of a field, of which the last one brings the report. */
  function ByteItems(bytes: seq<byte>, reports: bool): (items: seq<Item>)
    ensures |items| == |bytes| && forall i :: 0 <= i < |items| ==> items[i].Byte? && items[i].b == bytes[i]
  {
    seq(|bytes|, i requires 0 <= i < |bytes| => Byte(bytes[i], reports && i == |bytes| - 1))
  }

  function ItemsOf(f: Field, v: Value): (items: seq<Item>)
    requires IsValue(f, v)
    decreases v, 4
  {
    match f
    case Plain(leaf) => ByteItems(LeafBytes(leaf, v), Reports(leaf, v))
    case Object(fields) =>
      if v.Null? then [Byte(0, false)]
      else [Item.Container(ByteItems([v.head], true) + AllItems(fields, v.items))]
    case Array(element) =>
      if v.Null? then [Byte(0, false)]
      else [Item.Container(ByteItems(Packed22(|v.items|), true)
                                      + AllItems(Repeat(element, |v.items|), v.items))]
  }

  function AllItems(fields: seq<Field>, values: seq<Value>): seq<Item>
    requires AreValues(fields, values)
    decreases values, 1
  {
    if values == [] then [] else ItemsOf(fields[0], values[0]) + AllItems(fields[1..], values[1..])
  }

  lemma {:induction false} BytesEncode(items: seq<Item>, bytes: seq<byte>)
    requires |items| == |bytes| && forall i :: 0 <= i < |items| ==> items[i].Byte? && items[i].b == bytes[i]
    ensures Encoding(items) == bytes
  {
    if items != [] {
      BytesEncode(items[1..], bytes[1..]);
      assert bytes == [bytes[0]] + bytes[1..];
    }
  }

  lemma {:induction false} EncodingConcat(a: seq<Item>, b: seq<Item>)
    ensures Encoding(a + b) == Encoding(a) + Encoding(b)
    decreases |a|
  {
    hide EncodingOf;
    if a == [] {
      assert a + b == b;
    } else {
      assert (a + b)[1..] == a[1..] + b;
      EncodingConcat(a[1..], b);
    }
  }

  /** What the writer's items are to become is the encoding of the value. */
  lemma {:induction false} ItemsEncode(f: Field, v: Value)
    requires IsValue(f, v)
    ensures Encoding(ItemsOf(f, v)) == EncodeOne(f, v)
    decreases v, 4
  {
    hide HeaderExpansion.Header, LeafBytes, Packed22;
    if f.Plain? {
      BytesEncode(ItemsOf(f, v), LeafBytes(f.leaf, v));
    } else if v.Null? {
      BytesEncode(ItemsOf(f, v), [0]);
    } else {
      var fields := if f.Object? then f.fields else Repeat(f.element, |v.items|);
      var head: seq<byte> := if f.Object? then [v.head] else Packed22(|v.items|);
      AllItemsEncode(fields, v.items);
      BytesEncode(ByteItems(head, true), head);
      EncodingConcat(ByteItems(head, true), AllItems(fields, v.items));
      ContainerEncodes(ByteItems(head, true) + AllItems(fields, v.items), Content(f, v));
    }
  }

  lemma ContainerEncodes(inner: seq<Item>, content: seq<byte>)
    requires Encoding(inner) == content && |content| < 0x40_0000
    ensures Encoding([Item.Container(inner)]) == ContainerBytes(content)
  {
    hide HeaderExpansion.Header, Packed22;
    HeaderIsPacked22(|content|);
    assert [Item.Container(inner)][1..] == [];
    assert EncodingOf(Item.Container(inner)) == HeaderExpansion.Header(|content|) + content;
  }

  lemma {:induction false} AllItemsEncode(fields: seq<Field>, values: seq<Value>)
    requires AreValues(fields, values)
    ensures Encoding(AllItems(fields, values)) == Encode(fields, values)
    decreases values, 1
  {
    hide IsValue, EncodeOne, ItemsOf;
    if values != [] {
      ItemsEncode(fields[0], values[0]);
      AllItemsEncode(fields[1..], values[1..]);
      EncodingConcat(ItemsOf(fields[0], values[0]), AllItems(fields[1..], values[1..]));
    }
  }

  // ---- Trimming ----

  /** The field brings a report: a container by being closed, another one by a value that is reported. */
  predicate ReportsField(f: Field, v: Value)
  {
    if f.Plain? then Reports(f.leaf, v) else !v.Null?
  }

  /** How many fields a cut leaves. */
  function Reported(fields: seq<Field>, values: seq<Value>): (k: nat)
    requires |fields| == |values|
    ensures k <= |values|
    ensures forall i :: k <= i < |values| ==> !ReportsField(fields[i], values[i])
  {
    if values == [] then 0
    else if Reported(fields[1..], values[1..]) > 0 then Reported(fields[1..], values[1..]) + 1
    else if ReportsField(fields[0], values[0]) then 1
    else 0
  }

  lemma {:induction false} KeptConcat(a: seq<Item>, b: seq<Item>)
    ensures Kept(a + b) == if Kept(b) > 0 then |a| + Kept(b) else Kept(a)
    decreases |a|
  {
    if a == [] {
      assert a + b == b;
    } else {
      assert (a + b)[1..] == a[1..] + b && (a + b)[0] == a[0];
      KeptConcat(a[1..], b);
    }
  }

  lemma {:induction false} KeptOfBytes(items: seq<Item>)
    requires forall i :: 0 <= i < |items| - 1 ==> !Marks(items[i])
    ensures Kept(items) == if items != [] && Marks(items[|items| - 1]) then |items| else 0
  {
    if |items| > 1 {
      KeptOfBytes(items[1..]);
    }
  }

  lemma KeptOfField(f: Field, v: Value)
    requires IsValue(f, v)
    ensures ItemsOf(f, v) != []
    ensures Kept(ItemsOf(f, v)) == if ReportsField(f, v) then |ItemsOf(f, v)| else 0
  {
    hide IsValue, LeafBytes;
    if f.Plain? {
      LeafHasItems(f.leaf, v);
      KeptOfBytes(ItemsOf(f, v));
    } else {
      KeptOfBytes(ItemsOf(f, v));
    }
  }

  lemma LeafHasItems(leaf: Leaf, v: Value)
    requires IsValue(Plain(leaf), v)
    ensures ItemsOf(Plain(leaf), v) == ByteItems(LeafBytes(leaf, v), Reports(leaf, v)) != []
  {
  }

  /** The items that trimming keeps are those of the fields up to the last reported one. */
  lemma {:induction false} KeptFields(fields: seq<Field>, values: seq<Value>)
    requires AreValues(fields, values)
    ensures var k, items := Reported(fields, values), AllItems(fields, values);
      && AreValues(fields[..k], values[..k])
      && items[..Kept(items)] == AllItems(fields[..k], values[..k])
      && (Kept(items) > 0 <==> k > 0)
    decreases |values|
  {
    hide IsValue, ItemsOf, ReportsField, Kept;
    var k := Reported(fields, values);
    ValuesPrefix(fields, values, k);
    if values != [] {
      var first, rest := ItemsOf(fields[0], values[0]), AllItems(fields[1..], values[1..]);
      KeptOfField(fields[0], values[0]);
      KeptFields(fields[1..], values[1..]);
      KeptConcat(first, rest);
      if k > 0 {
        assert fields[..k][1..] == fields[1..][..k - 1] && values[..k][1..] == values[1..][..k - 1];
        assert AllItems(fields[..k], values[..k]) == first + AllItems(fields[1..][..k - 1], values[1..][..k - 1]);
        TakeBoth(first, rest, Kept(rest));
      }
    }
  }

  lemma TakeBoth(a: seq<Item>, b: seq<Item>, n: nat)
    requires n <= |b|
    ensures (a + b)[..|a| + n] == a + b[..n]
  {
  }

  /** A value that nobody reported and that is not what is read past the end: a string, or binary data. */
  predicate Lost(f: Field, v: Value)
  {
    f.Plain? && ((f.leaf.Utf8? && !v.Null?) || f.leaf.Binary?)
  }

  /**
    What the writer leaves of a body of nested fields when it trims, read as a whole body: the values
    written, exactly when no string of bytes and no binary field stands behind the last reported field.
   */
  lemma TrimmedBodyExactDomain(s: seq<byte>, c: Cursor, fields: seq<Field>, values: seq<Value>)
    requires c.Valid() && AreValues(fields, values) && |c.ofs| + DepthOf(values) <= MAX_NESTED
    requires var left := Encoding(Left(AllItems(fields, values), true));
      StandsAt(s, c, left) && c.end == c.pos + |left|
    ensures var r := Containers.ReadFields(s, c, fields);
      r.Got? && r.value == values <==>
      forall i :: Reported(fields, values) <= i < |values| ==> !Lost(fields[i], values[i])
  {
    var k := Reported(fields, values);
    hide Encode, AllItems, Kept, Containers.ReadFields, Reported, Encoding, AreValues, DepthOf;
    KeptFields(fields, values);
    AllItemsEncode(fields[..k], values[..k]);
    CutFieldsExactDomain(s, c, fields, values, k);
    forall i | k <= i < |values|
      ensures Vanishes(fields[i], values[i]) <==> !Lost(fields[i], values[i])
    {
      ValueAt(fields, values, i);
      UnreportedVanishes(fields[i], values[i]);
    }
  }

  lemma {:induction false} ValueAt(fields: seq<Field>, values: seq<Value>, i: nat)
    requires AreValues(fields, values) && i < |values|
    ensures IsValue(fields[i], values[i])
  {
    hide IsValue;
    if i > 0 {
      ValueAt(fields[1..], values[1..], i - 1);
    }
  }

  lemma UnreportedVanishes(f: Field, v: Value)
    requires IsValue(f, v) && !ReportsField(f, v)
    ensures Vanishes(f, v) <==> !Lost(f, v)
  {
  }

  /** What the writer leaves of a body when it does not trim gives back every value. */
  lemma WrittenBodyIsRead(s: seq<byte>, c: Cursor, fields: seq<Field>, values: seq<Value>)
    requires c.Valid() && AreValues(fields, values) && |c.ofs| + DepthOf(values) <= MAX_NESTED
    requires StandsAt(s, c, Encoding(Left(AllItems(fields, values), false)))
    ensures Containers.ReadFields(s, c, fields) == Got(values, c.(pos := c.pos + |Encode(fields, values)|))
  {
    AllItemsEncode(fields, values);
    ListRoundTrip(s, c, fields, values);
  }

  // ---- Writing and reading ----

  lemma ExtraGrows(m: nat, n: nat)
    requires m <= n
    ensures Extra(m) <= Extra(n)
  {
  }

  /** The length that the writer computes is never more than that of the encoding. */
  lemma {:induction false} LengthWithin(items: seq<Item>)
    ensures Length(items) <= |Encoding(items)|
    decreases items, 1
  {
    if items != [] {
      LengthWithinOne(items[0]);
      LengthWithin(items[1..]);
      hide RawOf, EncodingOf, ExtraOf;
    }
  }

  lemma {:induction false} LengthWithinOne(item: Item)
    ensures |RawOf(item)| + ExtraOf(item) <= |EncodingOf(item)|
    decreases item, 0
  {
    if item.Container? {
      LengthWithin(item.items);
      ExtraGrows(Length(item.items), |Encoding(item.items)|);
      hide Raw, Extras, Encoding;
    }
  }

  lemma {:induction false} FitsConcat(a: seq<Item>, b: seq<Item>)
    requires Fits(a) && Fits(b)
    ensures Fits(a + b)
    ensures Height(a + b) == if Height(a) >= Height(b) then Height(a) else Height(b)
    decreases |a|
  {
    hide FitsIn, HeightOf;
    if a == [] {
      assert a + b == b;
    } else {
      assert (a + b)[0] == a[0] && (a + b)[1..] == a[1..] + b;
      FitsConcat(a[1..], b);
    }
  }

  /** Every value that can be encoded can be written as far as lengths go, and is nested as deep as its items. */
  lemma {:induction false} ItemsFit(f: Field, v: Value)
    requires IsValue(f, v)
    ensures Fits(ItemsOf(f, v)) && Height(ItemsOf(f, v)) == Depth(v)
    decreases v, 4
  {
    if f.Plain? {
      LeafIsFlat(f.leaf, v);
    } else if v.Null? {
      BytesAlone(ItemsOf(f, v), 0);
    } else {
      hide LeafBytes, Packed22, Raw, Extras, Encoding;
      var fields := if f.Object? then f.fields else Repeat(f.element, |v.items|);
      var head: seq<byte> := if f.Object? then [v.head] else Packed22(|v.items|);
      var inner := ByteItems(head, true) + AllItems(fields, v.items);
      AllItemsFit(fields, v.items);
      BytesAlone(ByteItems(head, true), 0);
      FitsConcat(ByteItems(head, true), AllItems(fields, v.items));
      AllItemsEncode(fields, v.items);
      BytesEncode(ByteItems(head, true), head);
      EncodingConcat(ByteItems(head, true), AllItems(fields, v.items));
      LengthWithin(inner);
      OneContainer(inner);
      assert ItemsOf(f, v) == [Item.Container(inner)];
    }
  }

  lemma LeafIsFlat(leaf: Leaf, v: Value)
    requires IsValue(Plain(leaf), v)
    ensures Fits(ItemsOf(Plain(leaf), v)) && Height(ItemsOf(Plain(leaf), v)) == Depth(v)
  {
    hide LeafBytes;
    BytesAlone(ByteItems(LeafBytes(leaf, v), Reports(leaf, v)), 0);
  }

  lemma OneContainer(inner: seq<Item>)
    requires Fits(inner) && Length(inner) < MAX_LENGTH
    ensures Fits([Item.Container(inner)]) && Height([Item.Container(inner)]) == 1 + Height(inner)
  {
    hide Raw, Extras;
    var one := [Item.Container(inner)];
    assert one[1..] == [] && Fits([]) && Height([]) == 0;
  }

  lemma {:induction false} AllItemsFit(fields: seq<Field>, values: seq<Value>)
    requires AreValues(fields, values)
    ensures Fits(AllItems(fields, values)) && Height(AllItems(fields, values)) == DepthOf(values)
    decreases values, 1
  {
    hide IsValue, ItemsOf, Depth;
    if values != [] {
      ItemsFit(fields[0], values[0]);
      AllItemsFit(fields[1..], values[1..]);
      FitsConcat(ItemsOf(fields[0], values[0]), AllItems(fields[1..], values[1..]));
    }
  }

  /**
    Writes the fields of a message.  It succeeds exactly when they fit and no long container stands inside
    a container; and then a reader of the finished body gets the values exactly when trimming did not lose one.
   */
  method WriteFields(w: ContainerWriter, fields: seq<Field>, values: seq<Value>, messageStart: nat)
    returns (ok: bool, end: nat)
    requires AreValues(fields, values) && w.Valid() && w.depth == 0
    requires w.expansionPoints == [] && w.containerContentsExtraSize[0] == 0
    requires messageStart < w.dataPtr && w.dataEndNotNull <= w.dataPtr
    modifies w, w.buffer
    ensures var items := AllItems(fields, values);
      ok <==>
      && DepthOf(values) <= LOADER_MAX_NESTED && Flat(items) && old(w.dataPtr) + |Raw(items)| <= w.dataEnd
      && old(w.dataPtr) + |Raw(Left(items, w.trims))| + Extras(items) <= w.dataEnd
    ensures ok ==> end <= w.buffer.Length
    ensures ok && (!w.trims || Reported(fields, values) > 0) ==>
      && old(w.dataPtr) <= end && w.buffer[..old(w.dataPtr)] == old(w.buffer[..w.dataPtr])
      && var r := Containers.ReadFields(w.buffer[..end], Cursor(old(w.dataPtr), end, [], []), fields);
         r.Got? && r.value == values <==>
         !w.trims || forall i :: Reported(fields, values) <= i < |values| ==> !Lost(fields[i], values[i])
  {
    hide AllItems, Raw, Extras, Encoding, Flat, Fits, Height, Kept, DepthOf, AreValues, Containers.ReadFields, Reported;
    OneEach(fields, values);
    AllItemsFit(fields, values);
    KeptFields(fields, values);
    ghost var pos, before := w.dataPtr, w.buffer[..w.dataPtr];
    ok, end := w.WriteBody(AllItems(fields, values), messageStart);
    if ok && (!w.trims || Reported(fields, values) > 0) {
      ghost var left, s := Encoding(Left(AllItems(fields, values), w.trims)), w.buffer[..end];
      assert s == before + left;
      BodyIsRead(s, pos, before, left, w.trims, fields, values);
      assert w.buffer[..pos] == s[..pos];
    }
  }

  lemma OneEach(fields: seq<Field>, values: seq<Value>)
    requires AreValues(fields, values)
    ensures |fields| == |values|
  {
  }

  lemma BodyIsRead(s: seq<byte>, pos: nat, before: seq<byte>, left: seq<byte>, trims: bool, fields: seq<Field>,
      values: seq<Value>)
    requires AreValues(fields, values) && DepthOf(values) <= MAX_NESTED
    requires left == Encoding(Left(AllItems(fields, values), trims)) && s == before + left && pos == |before|
    ensures s[..pos] == before
    ensures var r := Containers.ReadFields(s, Cursor(pos, |s|, [], []), fields);
      r.Got? && r.value == values <==>
      !trims || forall i :: Reported(fields, values) <= i < |values| ==> !Lost(fields[i], values[i])
  {
    hide AllItems, Encoding, Kept, DepthOf, AreValues, Containers.ReadFields, Reported, Lost;
    var c := Cursor(pos, |s|, [], []);
    assert s[pos..pos + |left|] == left;
    if trims {
      TrimmedBodyExactDomain(s, c, fields, values);
    } else {
      WrittenBodyIsRead(s, c, fields, values);
    }
  }
}
