/** What LBinarySerializer writes, LBinaryDeserializer reads back: the round
    trip of every field type, and the cursor laws behind the version
    tolerance that the per-level budgets give to an older reader, which
    skips the trailing fields it does not know. */
module Compat {
  import opened Bytes
  import opened Text
  import opened Wire
  import opened ReadSpec

  // ---------------------------------------------------------------- cursor arithmetic

  /** The wrapped value is the exact one reduced modulo 2^32 into the int range. */
  lemma {:induction false} Wrap32Mod(x: int)
    ensures Wrap32(x) == (x - Int32Min) % 0x1_0000_0000 + Int32Min
    decreases if x < Int32Min then Int32Min - x else if x > Int32Max then x - Int32Max else 0
  {
    if x < Int32Min {
      Wrap32Mod(x + 0x1_0000_0000);
    } else if x > Int32Max {
      Wrap32Mod(x - 0x1_0000_0000);
    }
  }

  /** Wrapping once in the middle of a sum changes nothing. */
  lemma Wrap32Shift(x: int, y: int)
    ensures Wrap32(Wrap32(x) + y) == Wrap32(x + y)
  {
    Wrap32Mod(x);
    Wrap32Mod(Wrap32(x) + y);
    Wrap32Mod(x + y);
    var a := x - Int32Min;
    var q := a / 0x1_0000_0000;
    assert a == q * 0x1_0000_0000 + a % 0x1_0000_0000;
  }

  /** Two consuming reads in a row move the cursor as one read of both. */
  lemma SkipSkip(c: Cursor, n: int, m: int)
    requires Wf(c)
    ensures Skip(Skip(c, n), m) == Skip(c, n + m)
  {
    Wrap32Shift(c.offset + n, m);
    Wrap32Shift(c.frames[c.level] - n, -m);
  }

  // ---------------------------------------------------------------- what lies ahead

  /** No frame above the current level is in use: Reset leaves every frame
      zero, and closing an object clears the frame it opened. */
  predicate Clean(c: Cursor)
    requires Wf(c)
  {
    forall i | c.level < i < MaxDepthSize :: c.frames[i] == 0
  }

  /** The bytes e lie in the data at the cursor, and the budget of the current level covers them. */
  predicate Ahead(data: seq<byte>, c: Cursor, e: seq<byte>)
  {
    && Wf(c) && Clean(c) && |data| <= MaxArrayLength
    && 0 <= c.offset && c.offset + |e| <= |data| && Span(data, c.offset, |e|) == e
    && (c.level > 0 ==> c.frames[c.level] >= |e|)
  }

  /** A span of n + m bytes is the span of the first n followed by the span of the next m. */
  lemma {:induction false} SpanSplit(data: seq<byte>, o: int, n: nat, m: nat)
    requires 0 <= o && o + n + m <= |data|
    ensures Span(data, o, n + m) == Span(data, o, n) + Span(data, o + n, m)
    decreases n
  {
    if n > 0 {
      SpanSplit(data, o + 1, n - 1, m);
      assert [data[o]] + (Span(data, o + 1, n - 1) + Span(data, o + n, m))
          == ([data[o]] + Span(data, o + 1, n - 1)) + Span(data, o + n, m);
    }
  }

  /** Two concatenations that agree on the length of their first parts agree part by part. */
  lemma AppendParts(x: seq<byte>, y: seq<byte>, a: seq<byte>, b: seq<byte>)
    requires x + y == a + b && |x| == |a|
    ensures x == a && y == b
  {
    assert x == (x + y)[..|x|] && a == (a + b)[..|a|];
    assert y == (x + y)[|x|..] && b == (a + b)[|a|..];
  }

  /** Reading the first part of what lies ahead leaves the rest ahead. */
  lemma AheadSplit(data: seq<byte>, c: Cursor, a: seq<byte>, b: seq<byte>)
    requires Ahead(data, c, a + b)
    ensures Ahead(data, c, a) && Ahead(data, Skip(c, |a|), b)
    ensures Skip(c, |a|).offset == c.offset + |a|
  {
    var o := c.offset;
    SpanSplit(data, o, |a|, |b|);
    AppendParts(Span(data, o, |a|), Span(data, o + |a|, |b|), a, b);
    var d := Skip(c, |a|);
    assert d.offset == o + |a|;
    assert d.level == c.level && d.frames[c.level + 1..] == c.frames[c.level + 1..];
  }

  /** A fixed-width field ahead is read as it was written. */
  lemma FixedRoundTrip(data: seq<byte>, c: Cursor, b: seq<byte>)
    requires Ahead(data, c, b)
    ensures ReadFixed(data, c, |b|) == Done(b, Skip(c, |b|))
  {
  }

  /** A header ahead is read as the int it was written from. */
  lemma IntRoundTrip(data: seq<byte>, c: Cursor, v: int)
    requires IsInt32(v) && Ahead(data, c, Int32Bytes(v))
    ensures ReadInt(data, c) == Done(v, Skip(c, IntSize))
  {
    FixedRoundTrip(data, c, Int32Bytes(v));
    Int32RoundTrip(v);
  }

  lemma SkipZero(c: Cursor)
    requires Wf(c)
    ensures Skip(c, 0) == c
  {
    assert c.frames[c.level := c.frames[c.level]] == c.frames;
  }

  // ---------------------------------------------------------------- values that come back

  /** The string comes back when its bytes, written with `wenc`, are read with `renc`. */
  predicate ReadsBack(s: Option<string>, wenc: Encoding, renc: Encoding)
  {
    s.Some? ==> Decode(Encode(s.value, wenc), renc) == s.value
  }

  /** A string the reader gets back as it was written with the encoding:
      null, or any string for the Unicode encodings and an ASCII one for ASCII. */
  predicate StrFits(s: Option<string>, enc: Encoding)
  {
    s.Some? ==> Representable(s.value, enc)
  }

  /** No two entries share a key, so no Add throws. */
  predicate DistinctKeys<K(==), V>(es: seq<Entry<K, V>>)
  {
    forall i, j | 0 <= i < j < |es| :: es[i].key != es[j].key
  }

  /** A C# collection's count is an int. */
  predicate CountFits<T>(xs: seq<T>)
  {
    |xs| <= Int32Max
  }

  predicate Sized(xs: seq<seq<byte>>, size: nat)
  {
    forall k | 0 <= k < |xs| :: |xs[k]| == size
  }

  /** v is what a writer's Serialize hands over where the reader's
      Deserialize expects t, in a form that comes back unchanged: the shapes
      agree, a structure or unmanaged element has the size the reader casts
      to, strings survive their encodings (string keys are written as UTF-8
      and read as ASCII), dictionary keys are distinct, and counts are ints. */
  predicate Fits(v: Value, t: FieldType)
    decreases v, 1
  {
    match t
    case Fixed(w) => v.FixedV? && |v.bytes| == w
    case Str(enc) => v.StrV? && v.enc == enc && StrFits(v.str, enc)
    case Struct(size) => v.StructV? && |v.bytes| == size
    case Obj(fs) => v.ObjV? && ObjFits(v.obj, fs)
    case ObjArray(elem) =>
      v.ObjArrayV? && (v.objs.Items? ==> CountFits(v.objs.items) && ObjsFit(v.objs.items, elem))
    case StructArray(size) =>
      v.StructArrayV? && (v.structs.Items? ==> CountFits(v.structs.items) && Sized(v.structs.items, size))
    case StructList(size) =>
      v.StructArrayV? && (v.structs.Items? ==> CountFits(v.structs.items) && Sized(v.structs.items, size))
    case StrArray(enc) =>
      v.StrArrayV? && v.arrayEnc == enc &&
      (v.strs.Items? ==> CountFits(v.strs.items) && forall k | 0 <= k < |v.strs.items| :: StrFits(v.strs.items[k], enc))
    case StructKeyObjDict(keySize, vf) =>
      v.StructKeyObjDictV? &&
      (v.structObjs.Items? ==> var es := v.structObjs.items; CountFits(es) && DistinctKeys(es) && StructObjFit(es, keySize, vf))
    case StrKeyObjDict(vf) =>
      v.StrKeyObjDictV? &&
      (v.strObjs.Items? ==> var es := v.strObjs.items; CountFits(es) && DistinctKeys(es) && StrObjFit(es, vf))
    case StrKeyStructDict(valueSize) =>
      v.StrKeyStructDictV? &&
      (v.strStructs.Items? ==>
        var es := v.strStructs.items;
        CountFits(es) && DistinctKeys(es) && forall k | 0 <= k < |es| :: IsAscii(es[k].key) && |es[k].val| == valueSize)
    case StructKeyStrDict(keySize, enc) =>
      v.StructKeyStrDictV? && v.dictEnc == enc &&
      (v.structStrs.Items? ==>
        var es := v.structStrs.items;
        CountFits(es) && DistinctKeys(es) && forall k | 0 <= k < |es| :: |es[k].key| == keySize && StrFits(es[k].val, enc))
  }

  predicate ObjFits(o: Option<Object>, fs: seq<FieldType>)
    decreases o, 0
  {
    match o
    case None => true
    case Some(obj) => FieldsFit(obj.fields, fs)
  }

  predicate FieldsFit(vs: seq<Value>, ts: seq<FieldType>)
    decreases vs, 0
  {
    |vs| == |ts| && (vs != [] ==> Fits(vs[0], ts[0]) && FieldsFit(vs[1..], ts[1..]))
  }

  predicate ObjsFit(xs: seq<Option<Object>>, elem: seq<FieldType>)
    decreases xs, 0
  {
    xs != [] ==> ObjFits(xs[0], elem) && ObjsFit(xs[1..], elem)
  }

  predicate StructObjFit(es: seq<Entry<seq<byte>, Option<Object>>>, keySize: Width, vf: seq<FieldType>)
    decreases es, 0
  {
    es != [] ==> StructObjEntryFits(es[0], keySize, vf) && StructObjFit(es[1..], keySize, vf)
  }

  predicate StructObjEntryFits(e: Entry<seq<byte>, Option<Object>>, keySize: Width, vf: seq<FieldType>)
    decreases e, 0
  {
    |e.key| == keySize && ObjFits(e.val, vf)
  }

  predicate StrObjFit(es: seq<Entry<string, Option<Object>>>, vf: seq<FieldType>)
    decreases es, 0
  {
    es != [] ==> StrObjEntryFits(es[0], vf) && StrObjFit(es[1..], vf)
  }

  predicate StrObjEntryFits(e: Entry<string, Option<Object>>, vf: seq<FieldType>)
    decreases e, 0
  {
    IsAscii(e.key) && ObjFits(e.val, vf)
  }

  // ---------------------------------------------------------------- strings and structures

  /** A string ahead, null, empty or not, is read back when its bytes survive
      the two encodings; the reader ends right after it. */
  lemma ReadStringRoundTrip(data: seq<byte>, c: Cursor, s: Option<string>, wenc: Encoding, renc: Encoding)
    requires ReadsBack(s, wenc, renc) && Ahead(data, c, EncString(s, wenc))
    ensures ReadString(data, c, renc) == Done(s, Skip(c, |EncString(s, wenc)|))
  {
    match s
    case None =>
      IntRoundTrip(data, c, NullHeader);
    case Some(str) =>
      var body := Encode(str, wenc);
      var h := HeaderValue(str, wenc);
      AheadSplit(data, c, Header(h), body);
      IntRoundTrip(data, c, h);
      var c1 := Skip(c, IntSize);
      SkipSkip(c, IntSize, h);
      if h == 0 {
        assert body == [];
        SkipZero(c1);
      } else {
        assert Take(data, c1, h) == Done(body, Skip(c1, h));
        assert Decode(body, renc) == str;
        StringStep(data, c, renc, h, body, Skip(c1, h));
      }
  }

  /** A positive length followed by that many bytes is read as their decoding. */
  lemma StringStep(data: seq<byte>, c: Cursor, enc: Encoding, h: int, body: seq<byte>, d: Cursor)
    requires Wf(c) && h > 0 && ReadInt(data, c) == Done(h, Skip(c, IntSize))
    requires Take(data, Skip(c, IntSize), h) == Done(body, d)
    ensures ReadString(data, c, enc) == Done(Some(Decode(body, enc)), d)
  {
  }

  /** A string ahead that survives its encoding is read back. */
  lemma StringValueRoundTrip(data: seq<byte>, c: Cursor, s: Option<string>, enc: Encoding)
    requires StrFits(s, enc) && Ahead(data, c, EncString(s, enc))
    ensures ReadString(data, c, enc) == Done(s, Skip(c, |EncString(s, enc)|))
  {
    if s.Some? {
      StringRoundTrip(s.value, enc);
    }
    ReadStringRoundTrip(data, c, s, enc, enc);
  }

  /** The first of n strings read, then the other n - 1. */
  lemma StringsStep(data: seq<byte>, c: Cursor, enc: Encoding, n: nat, x: Option<string>, a: seq<byte>)
    requires n > 0 && StrFits(x, enc) && a == EncString(x, enc) && Ahead(data, c, a)
    ensures ReadStrings(data, c, enc, n) == Cons(x, ReadStrings(data, Skip(c, |a|), enc, n - 1))
  {
    StringValueRoundTrip(data, c, x, enc);
    StringsCons(data, c, enc, n, x, Skip(c, |a|));
  }

  /** A string read first is followed by the rest of the strings. */
  lemma StringsCons(data: seq<byte>, c: Cursor, enc: Encoding, n: nat, x: Option<string>, d: Cursor)
    requires Wf(c) && n > 0 && ReadString(data, c, enc) == Done(x, d)
    ensures ReadStrings(data, c, enc, n) == Cons(x, ReadStrings(data, d, enc, n - 1))
  {
  }

  /** Prepending to a completed read. */
  lemma ConsDone<T>(x: T, xs: seq<T>, d: Cursor)
    ensures Cons(x, Done(xs, d)) == Done([x] + xs, d)
  {
  }

  /** Two reads in a row move the cursor past both parts. */
  lemma SkipParts(c: Cursor, a: seq<byte>, b: seq<byte>, e: seq<byte>)
    requires Wf(c) && e == a + b
    ensures Skip(Skip(c, |a|), |b|) == Skip(c, |e|)
  {
    SkipSkip(c, |a|, |b|);
  }

  lemma HeadTail<T>(xs: seq<T>)
    requires xs != []
    ensures [xs[0]] + xs[1..] == xs
  {
  }

  /** Strings that come back lie ahead one after the other. */
  predicate StringsAhead(data: seq<byte>, c: Cursor, xs: seq<Option<string>>, enc: Encoding)
    decreases |xs|
  {
    Wf(c) &&
    (xs != [] ==>
      var a := EncString(xs[0], enc);
      StrFits(xs[0], enc) && Ahead(data, c, a) && StringsAhead(data, Skip(c, |a|), xs[1..], enc))
  }

  /** The cursor after the strings. */
  function StringsEnd(c: Cursor, xs: seq<Option<string>>, enc: Encoding): (d: Cursor)
    requires Wf(c)
    ensures Wf(d)
    decreases |xs|
  {
    if xs == [] then c else StringsEnd(Skip(c, |EncString(xs[0], enc)|), xs[1..], enc)
  }

  /** Strings ahead one after the other are read back in order. */
  lemma {:induction false} StringsReadBack(data: seq<byte>, c: Cursor, xs: seq<Option<string>>, enc: Encoding)
    requires StringsAhead(data, c, xs, enc)
    ensures ReadStrings(data, c, enc, |xs|) == Done(xs, StringsEnd(c, xs, enc))
    decreases |xs|
  {
    if xs != [] {
      var a := EncString(xs[0], enc);
      StringsStep(data, c, enc, |xs|, xs[0], a);
      StringsReadBack(data, Skip(c, |a|), xs[1..], enc);
      ConsDone(xs[0], xs[1..], StringsEnd(c, xs, enc));
      HeadTail(xs);
    }
  }

  /** The encoded run of strings lies ahead string by string. */
  lemma {:induction false} StringsAheadSplit(data: seq<byte>, c: Cursor, xs: seq<Option<string>>, enc: Encoding)
    requires forall k | 0 <= k < |xs| :: StrFits(xs[k], enc)
    requires Ahead(data, c, EncStrings(xs, enc))
    ensures StringsAhead(data, c, xs, enc) && StringsEnd(c, xs, enc) == Skip(c, |EncStrings(xs, enc)|)
    decreases |xs|
  {
    if xs == [] {
      SkipZero(c);
    } else {
      var a := EncString(xs[0], enc);
      var b := EncStrings(xs[1..], enc);
      AheadSplit(data, c, a, b);
      assert forall k | 0 <= k < |xs[1..]| :: StrFits(xs[1..][k], enc) by {
        forall k | 0 <= k < |xs[1..]| ensures StrFits(xs[1..][k], enc) {
          assert xs[1..][k] == xs[k + 1];
        }
      }
      StringsAheadSplit(data, Skip(c, |a|), xs[1..], enc);
      SkipParts(c, a, b, EncStrings(xs, enc));
    }
  }

  /** n strings ahead are read back in order. */
  lemma StringsRoundTrip(data: seq<byte>, c: Cursor, xs: seq<Option<string>>, enc: Encoding)
    requires forall k | 0 <= k < |xs| :: StrFits(xs[k], enc)
    requires Ahead(data, c, EncStrings(xs, enc))
    ensures ReadStrings(data, c, enc, |xs|) == Done(xs, Skip(c, |EncStrings(xs, enc)|))
  {
    StringsAheadSplit(data, c, xs, enc);
    StringsReadBack(data, c, xs, enc);
  }

  /** A structure ahead is read back, and the reader ends right after it. */
  lemma StructRoundTrip(data: seq<byte>, c: Cursor, b: seq<byte>)
    requires |b| > 0 && Ahead(data, c, EncStruct(b))
    ensures ReadStruct(data, c, |b|) == Done(b, Skip(c, |EncStruct(b)|))
  {
    AheadSplit(data, c, Header(|b|), b);
    IntRoundTrip(data, c, |b|);
    SkipSkip(c, IntSize, |b|);
  }

  /** Cutting a block of equal-size elements back into elements. */
  lemma {:induction false} ChunksOfConcat(xs: seq<seq<byte>>, size: Width)
    requires Sized(xs, size)
    ensures |Concat(xs)| == size * |xs|
    ensures Chunks(Concat(xs), size) == xs
  {
    if xs != [] {
      ChunksOfConcat(xs[1..], size);
      var block := Concat(xs);
      assert block == xs[0] + Concat(xs[1..]);
      assert block[..size] == xs[0] && block[size..] == Concat(xs[1..]);
      assert [xs[0]] + xs[1..] == xs;
    }
  }

  /** An array of unmanaged elements ahead is read back. */
  lemma StructArrayRoundTrip(data: seq<byte>, c: Cursor, v: Value, size: Width)
    requires Fits(v, StructArray(size)) && Ahead(data, c, EncValue(v))
    ensures ReadStructArray(data, c, size) == Done(v.structs, Skip(c, |EncValue(v)|))
  {
    match v.structs
    case Null =>
      IntRoundTrip(data, c, NullHeader);
    case Items(xs) =>
      var block := Concat(xs);
      ChunksOfConcat(xs, size);
      AheadSplit(data, c, Header(|xs|), block);
      IntRoundTrip(data, c, |xs|);
      SkipSkip(c, IntSize, |block|);
      if xs == [] {
        SkipZero(Skip(c, IntSize));
      }
  }

  /** A list of unmanaged elements ahead is read back. */
  lemma StructListRoundTrip(data: seq<byte>, c: Cursor, v: Value, size: Width)
    requires Fits(v, StructList(size)) && Ahead(data, c, EncValue(v))
    ensures ReadStructList(data, c, size) == Done(v.structs, Skip(c, |EncValue(v)|))
  {
    match v.structs
    case Null =>
      IntRoundTrip(data, c, NullHeader);
    case Items(xs) =>
      var block := Concat(xs);
      ChunksOfConcat(xs, size);
      AheadSplit(data, c, Header(|xs|), block);
      IntRoundTrip(data, c, |xs|);
      SkipSkip(c, IntSize, |block|);
      assert xs[..|xs|] == xs;
      if xs == [] {
        SkipZero(Skip(c, IntSize));
      }
  }

  /** A count header and that many strings ahead are read back as an array or list. */
  lemma StringItemsRoundTrip(data: seq<byte>, c: Cursor, xs: seq<Option<string>>, enc: Encoding)
    requires CountFits(xs) && forall k | 0 <= k < |xs| :: StrFits(xs[k], enc)
    requires Ahead(data, c, Header(|xs|) + EncStrings(xs, enc))
    ensures ReadStringArray(data, c, enc) == Done(Items(xs), Skip(c, IntSize + |EncStrings(xs, enc)|))
  {
    var rest := EncStrings(xs, enc);
    AheadSplit(data, c, Header(|xs|), rest);
    IntRoundTrip(data, c, |xs|);
    SkipSkip(c, IntSize, |rest|);
    if xs == [] {
      SkipZero(Skip(c, IntSize));
    } else {
      StringsRoundTrip(data, Skip(c, IntSize), xs, enc);
      StringArrayStep(data, c, enc, xs, Skip(Skip(c, IntSize), |rest|));
    }
  }

  /** A positive count followed by that many strings is read as those strings. */
  lemma StringArrayStep(data: seq<byte>, c: Cursor, enc: Encoding, xs: seq<Option<string>>, d: Cursor)
    requires Wf(c) && |xs| > 0 && ReadInt(data, c) == Done(|xs|, Skip(c, IntSize))
    requires ReadStrings(data, Skip(c, IntSize), enc, |xs|) == Done(xs, d)
    ensures ReadStringArray(data, c, enc) == Done(Items(xs), d)
  {
  }

  /** An array or list of strings ahead is read back. */
  lemma StringArrayRoundTrip(data: seq<byte>, c: Cursor, v: Value, enc: Encoding)
    requires Fits(v, StrArray(enc)) && Ahead(data, c, EncValue(v))
    ensures ReadStringArray(data, c, enc) == Done(v.strs, Skip(c, |EncValue(v)|))
  {
    match v.strs
    case Null =>
      IntRoundTrip(data, c, NullHeader);
    case Items(xs) =>
      StringItemsRoundTrip(data, c, xs, enc);
  }

  // ---------------------------------------------------------------- dictionaries without objects

  /** A string key is written as UTF-8 and read as ASCII: it comes back when it is ASCII. */
  lemma KeyRoundTrip(data: seq<byte>, c: Cursor, key: string)
    requires IsAscii(key) && Ahead(data, c, EncString(Some(key), UTF8))
    ensures ReadString(data, c, ASCII) == Done(Some(key), Skip(c, |EncString(Some(key), UTF8)|))
  {
    Utf8KeyReadAsAscii(key);
    ReadStringRoundTrip(data, c, Some(key), UTF8, ASCII);
  }

  /** Entries with string keys and structure values lie ahead one after the
      other, no key among those already read or repeated. */
  predicate StrStructAhead(data: seq<byte>, c: Cursor, es: seq<Entry<string, seq<byte>>>, valueSize: Width, keys: set<string>)
    decreases |es|
  {
    Wf(c) &&
    (es != [] ==>
      var a := EncString(Some(es[0].key), UTF8);
      && es[0].key !in keys && IsAscii(es[0].key) && |es[0].val| == valueSize
      && Ahead(data, c, a) && Ahead(data, Skip(c, |a|), EncStruct(es[0].val))
      && StrStructAhead(data, Skip(Skip(c, |a|), |EncStruct(es[0].val)|), es[1..], valueSize, keys + {es[0].key}))
  }

  /** The cursor after the entries. */
  function StrStructEnd(c: Cursor, es: seq<Entry<string, seq<byte>>>): (d: Cursor)
    requires Wf(c)
    ensures Wf(d)
    decreases |es|
  {
    if es == [] then c
    else StrStructEnd(Skip(Skip(c, |EncString(Some(es[0].key), UTF8)|), |EncStruct(es[0].val)|), es[1..])
  }

  /** The first entry read, then the others. */
  lemma StrStructStep(data: seq<byte>, c: Cursor, es: seq<Entry<string, seq<byte>>>, valueSize: Width, keys: set<string>)
    requires es != [] && StrStructAhead(data, c, es, valueSize, keys)
    ensures var c1 := Skip(c, |EncString(Some(es[0].key), UTF8)|);
      ReadStrStructEntries(data, c, valueSize, |es|, keys)
      == Cons(es[0], ReadStrStructEntries(data, Skip(c1, |EncStruct(es[0].val)|), valueSize, |es| - 1, keys + {es[0].key}))
  {
    var c1 := Skip(c, |EncString(Some(es[0].key), UTF8)|);
    KeyRoundTrip(data, c, es[0].key);
    StructRoundTrip(data, c1, es[0].val);
    StrStructCons(data, c, valueSize, |es|, keys, es[0].key, es[0].val, c1, Skip(c1, |EncStruct(es[0].val)|));
  }

  /** A new key and its structure read first are followed by the rest of the entries. */
  lemma StrStructCons(data: seq<byte>, c: Cursor, valueSize: Width, n: nat, keys: set<string>,
                      key: string, val: seq<byte>, c1: Cursor, c2: Cursor)
    requires Wf(c) && n > 0 && key !in keys
    requires ReadString(data, c, ASCII) == Done(Some(key), c1) && Wf(c1) && ReadStruct(data, c1, valueSize) == Done(val, c2)
    ensures ReadStrStructEntries(data, c, valueSize, n, keys)
      == Cons(Entry(key, val), ReadStrStructEntries(data, c2, valueSize, n - 1, keys + {key}))
  {
  }

  /** Entries ahead one after the other are read back in order. */
  lemma {:induction false} StrStructReadBack(data: seq<byte>, c: Cursor, es: seq<Entry<string, seq<byte>>>, valueSize: Width, keys: set<string>)
    requires StrStructAhead(data, c, es, valueSize, keys)
    ensures ReadStrStructEntries(data, c, valueSize, |es|, keys) == Done(es, StrStructEnd(c, es))
    decreases |es|
  {
    if es != [] {
      var c1 := Skip(c, |EncString(Some(es[0].key), UTF8)|);
      StrStructStep(data, c, es, valueSize, keys);
      StrStructReadBack(data, Skip(c1, |EncStruct(es[0].val)|), es[1..], valueSize, keys + {es[0].key});
      ConsDone(es[0], es[1..], StrStructEnd(c, es));
      HeadTail(es);
    }
  }

  /** The encoded entries lie ahead entry by entry. */
  lemma {:induction false} StrStructAheadSplit(data: seq<byte>, c: Cursor, es: seq<Entry<string, seq<byte>>>, valueSize: Width, keys: set<string>)
    requires DistinctKeys(es) && forall k | 0 <= k < |es| :: es[k].key !in keys
    requires forall k | 0 <= k < |es| :: IsAscii(es[k].key) && |es[k].val| == valueSize
    requires Ahead(data, c, EncStrStructEntries(es))
    ensures StrStructAhead(data, c, es, valueSize, keys) && StrStructEnd(c, es) == Skip(c, |EncStrStructEntries(es)|)
    decreases |es|
  {
    if es == [] {
      SkipZero(c);
    } else {
      var a := EncString(Some(es[0].key), UTF8);
      var b := EncStruct(es[0].val);
      var rest := EncStrStructEntries(es[1..]);
      assert EncStrStructEntries(es) == (a + b) + rest;
      AheadSplit(data, c, a + b, rest);
      AheadSplit(data, c, a, b);
      SkipParts(c, a, b, a + b);
      var keys' := keys + {es[0].key};
      assert forall k | 0 <= k < |es[1..]| :: es[1..][k].key !in keys' by {
        forall k | 0 <= k < |es[1..]| ensures es[1..][k].key !in keys' {
          assert es[1..][k] == es[k + 1];
        }
      }
      assert forall k | 0 <= k < |es[1..]| :: IsAscii(es[1..][k].key) && |es[1..][k].val| == valueSize by {
        forall k | 0 <= k < |es[1..]| ensures IsAscii(es[1..][k].key) && |es[1..][k].val| == valueSize {
          assert es[1..][k] == es[k + 1];
        }
      }
      assert DistinctKeys(es[1..]) by {
        forall i, j | 0 <= i < j < |es[1..]| ensures es[1..][i].key != es[1..][j].key {
          assert es[1..][i] == es[i + 1] && es[1..][j] == es[j + 1];
        }
      }
      StrStructAheadSplit(data, Skip(c, |a + b|), es[1..], valueSize, keys');
      SkipParts(c, a + b, rest, EncStrStructEntries(es));
    }
  }

  /** A positive count followed by that many entries is read as those entries. */
  lemma StrStructDictStep(data: seq<byte>, c: Cursor, valueSize: Width, es: seq<Entry<string, seq<byte>>>, d: Cursor)
    requires Wf(c) && |es| > 0 && ReadInt(data, c) == Done(|es|, Skip(c, IntSize))
    requires ReadStrStructEntries(data, Skip(c, IntSize), valueSize, |es|, {}) == Done(es, d)
    ensures ReadStrStructDict(data, c, valueSize) == Done(Items(es), d)
  {
  }

  /** Entries of structures under distinct ASCII keys, after their count, are read back. */
  lemma StrStructItemsRoundTrip(data: seq<byte>, c: Cursor, es: seq<Entry<string, seq<byte>>>, valueSize: Width)
    requires CountFits(es) && DistinctKeys(es)
    requires forall k | 0 <= k < |es| :: IsAscii(es[k].key) && |es[k].val| == valueSize
    requires Ahead(data, c, Header(|es|) + EncStrStructEntries(es))
    ensures ReadStrStructDict(data, c, valueSize) == Done(Items(es), Skip(c, IntSize + |EncStrStructEntries(es)|))
  {
    var rest := EncStrStructEntries(es);
    AheadSplit(data, c, Header(|es|), rest);
    IntRoundTrip(data, c, |es|);
    SkipSkip(c, IntSize, |rest|);
    if es == [] {
      SkipZero(Skip(c, IntSize));
    } else {
      StrStructAheadSplit(data, Skip(c, IntSize), es, valueSize, {});
      StrStructReadBack(data, Skip(c, IntSize), es, valueSize, {});
      StrStructDictStep(data, c, valueSize, es, Skip(Skip(c, IntSize), |rest|));
    }
  }

  /** A dictionary of structures under string keys ahead is read back. */
  lemma StrStructDictRoundTrip(data: seq<byte>, c: Cursor, v: Value, valueSize: Width)
    requires Fits(v, StrKeyStructDict(valueSize)) && Ahead(data, c, EncValue(v))
    ensures ReadStrStructDict(data, c, valueSize) == Done(v.strStructs, Skip(c, |EncValue(v)|))
  {
    match v.strStructs
    case Null =>
      IntRoundTrip(data, c, NullHeader);
    case Items(es) =>
      StrStructItemsRoundTrip(data, c, es, valueSize);
  }

  /** Entries with structure keys and string values lie ahead one after the
      other, no key among those already read or repeated. */
  predicate StructStrAhead(data: seq<byte>, c: Cursor, es: seq<Entry<seq<byte>, Option<string>>>, keySize: Width, enc: Encoding, keys: set<seq<byte>>)
    decreases |es|
  {
    Wf(c) &&
    (es != [] ==>
      var a := EncStruct(es[0].key);
      && es[0].key !in keys && |es[0].key| == keySize && StrFits(es[0].val, enc)
      && Ahead(data, c, a) && Ahead(data, Skip(c, |a|), EncString(es[0].val, enc))
      && StructStrAhead(data, Skip(Skip(c, |a|), |EncString(es[0].val, enc)|), es[1..], keySize, enc, keys + {es[0].key}))
  }

  /** The cursor after the entries. */
  function StructStrEnd(c: Cursor, es: seq<Entry<seq<byte>, Option<string>>>, enc: Encoding): (d: Cursor)
    requires Wf(c)
    ensures Wf(d)
    decreases |es|
  {
    if es == [] then c
    else StructStrEnd(Skip(Skip(c, |EncStruct(es[0].key)|), |EncString(es[0].val, enc)|), es[1..], enc)
  }

  /** The first entry read, then the others. */
  lemma StructStrStep(data: seq<byte>, c: Cursor, es: seq<Entry<seq<byte>, Option<string>>>, keySize: Width, enc: Encoding, keys: set<seq<byte>>)
    requires es != [] && StructStrAhead(data, c, es, keySize, enc, keys)
    ensures var c1 := Skip(c, |EncStruct(es[0].key)|);
      ReadStructStrEntries(data, c, keySize, enc, |es|, keys)
      == Cons(es[0], ReadStructStrEntries(data, Skip(c1, |EncString(es[0].val, enc)|), keySize, enc, |es| - 1, keys + {es[0].key}))
  {
    var c1 := Skip(c, |EncStruct(es[0].key)|);
    StructRoundTrip(data, c, es[0].key);
    StringValueRoundTrip(data, c1, es[0].val, enc);
    StructStrCons(data, c, keySize, enc, |es|, keys, es[0].key, es[0].val, c1, Skip(c1, |EncString(es[0].val, enc)|));
  }

  /** A new structure key and its string read first are followed by the rest of the entries. */
  lemma StructStrCons(data: seq<byte>, c: Cursor, keySize: Width, enc: Encoding, n: nat, keys: set<seq<byte>>,
                      key: seq<byte>, val: Option<string>, c1: Cursor, c2: Cursor)
    requires Wf(c) && n > 0 && key !in keys
    requires ReadStruct(data, c, keySize) == Done(key, c1) && Wf(c1) && ReadString(data, c1, enc) == Done(val, c2)
    ensures ReadStructStrEntries(data, c, keySize, enc, n, keys)
      == Cons(Entry(key, val), ReadStructStrEntries(data, c2, keySize, enc, n - 1, keys + {key}))
  {
  }

  /** Entries ahead one after the other are read back in order. */
  lemma {:induction false} StructStrReadBack(data: seq<byte>, c: Cursor, es: seq<Entry<seq<byte>, Option<string>>>, keySize: Width, enc: Encoding, keys: set<seq<byte>>)
    requires StructStrAhead(data, c, es, keySize, enc, keys)
    ensures ReadStructStrEntries(data, c, keySize, enc, |es|, keys) == Done(es, StructStrEnd(c, es, enc))
    decreases |es|
  {
    if es != [] {
      var c1 := Skip(c, |EncStruct(es[0].key)|);
      StructStrStep(data, c, es, keySize, enc, keys);
      StructStrReadBack(data, Skip(c1, |EncString(es[0].val, enc)|), es[1..], keySize, enc, keys + {es[0].key});
      ConsDone(es[0], es[1..], StructStrEnd(c, es, enc));
      HeadTail(es);
    }
  }

  /** The encoded entries lie ahead entry by entry. */
  lemma {:induction false} StructStrAheadSplit(data: seq<byte>, c: Cursor, es: seq<Entry<seq<byte>, Option<string>>>, keySize: Width, enc: Encoding, keys: set<seq<byte>>)
    requires DistinctKeys(es) && forall k | 0 <= k < |es| :: es[k].key !in keys
    requires forall k | 0 <= k < |es| :: |es[k].key| == keySize && StrFits(es[k].val, enc)
    requires Ahead(data, c, EncStructStrEntries(es, enc))
    ensures StructStrAhead(data, c, es, keySize, enc, keys) && StructStrEnd(c, es, enc) == Skip(c, |EncStructStrEntries(es, enc)|)
    decreases |es|
  {
    if es == [] {
      SkipZero(c);
    } else {
      var a := EncStruct(es[0].key);
      var b := EncString(es[0].val, enc);
      var rest := EncStructStrEntries(es[1..], enc);
      assert EncStructStrEntries(es, enc) == (a + b) + rest;
      AheadSplit(data, c, a + b, rest);
      AheadSplit(data, c, a, b);
      SkipParts(c, a, b, a + b);
      var keys' := keys + {es[0].key};
      assert forall k | 0 <= k < |es[1..]| :: es[1..][k].key !in keys' by {
        forall k | 0 <= k < |es[1..]| ensures es[1..][k].key !in keys' {
          assert es[1..][k] == es[k + 1];
        }
      }
      assert forall k | 0 <= k < |es[1..]| :: |es[1..][k].key| == keySize && StrFits(es[1..][k].val, enc) by {
        forall k | 0 <= k < |es[1..]| ensures |es[1..][k].key| == keySize && StrFits(es[1..][k].val, enc) {
          assert es[1..][k] == es[k + 1];
        }
      }
      assert DistinctKeys(es[1..]) by {
        forall i, j | 0 <= i < j < |es[1..]| ensures es[1..][i].key != es[1..][j].key {
          assert es[1..][i] == es[i + 1] && es[1..][j] == es[j + 1];
        }
      }
      StructStrAheadSplit(data, Skip(c, |a + b|), es[1..], keySize, enc, keys');
      SkipParts(c, a + b, rest, EncStructStrEntries(es, enc));
    }
  }

  /** A positive count followed by that many entries is read as those entries. */
  lemma StructStrDictStep(data: seq<byte>, c: Cursor, keySize: Width, enc: Encoding, es: seq<Entry<seq<byte>, Option<string>>>, d: Cursor)
    requires Wf(c) && |es| > 0 && ReadInt(data, c) == Done(|es|, Skip(c, IntSize))
    requires ReadStructStrEntries(data, Skip(c, IntSize), keySize, enc, |es|, {}) == Done(es, d)
    ensures ReadStructStrDict(data, c, keySize, enc) == Done(Items(es), d)
  {
  }

  /** Entries of strings under distinct structure keys, after their count, are read back. */
  lemma StructStrItemsRoundTrip(data: seq<byte>, c: Cursor, es: seq<Entry<seq<byte>, Option<string>>>, keySize: Width, enc: Encoding)
    requires CountFits(es) && DistinctKeys(es)
    requires forall k | 0 <= k < |es| :: |es[k].key| == keySize && StrFits(es[k].val, enc)
    requires Ahead(data, c, Header(|es|) + EncStructStrEntries(es, enc))
    ensures ReadStructStrDict(data, c, keySize, enc) == Done(Items(es), Skip(c, IntSize + |EncStructStrEntries(es, enc)|))
  {
    var rest := EncStructStrEntries(es, enc);
    AheadSplit(data, c, Header(|es|), rest);
    IntRoundTrip(data, c, |es|);
    SkipSkip(c, IntSize, |rest|);
    if es == [] {
      SkipZero(Skip(c, IntSize));
    } else {
      StructStrAheadSplit(data, Skip(c, IntSize), es, keySize, enc, {});
      StructStrReadBack(data, Skip(c, IntSize), es, keySize, enc, {});
      StructStrDictStep(data, c, keySize, enc, es, Skip(Skip(c, IntSize), |rest|));
    }
  }

  /** A dictionary of strings under structure keys ahead is read back. */
  lemma StructStrDictRoundTrip(data: seq<byte>, c: Cursor, v: Value, keySize: Width, enc: Encoding)
    requires Fits(v, StructKeyStrDict(keySize, enc)) && Ahead(data, c, EncValue(v))
    ensures ReadStructStrDict(data, c, keySize, enc) == Done(v.structStrs, Skip(c, |EncValue(v)|))
  {
    match v.structStrs
    case Null =>
      IntRoundTrip(data, c, NullHeader);
    case Items(es) =>
      StructStrItemsRoundTrip(data, c, es, keySize, enc);
  }

  // ---------------------------------------------------------------- nested objects

  /** Opening a level for an object of `size` bytes, reading `m` of them and
      closing the level leaves the reader `size` bytes further on, with the
      size charged to the parent frame: how much the object's reader read
      does not matter. */
  lemma PushSkipPop(c: Cursor, size: int, m: int)
    requires Wf(c) && Clean(c) && c.scope > 0 && c.level + 1 < MaxDepthSize
    requires IsInt32(size) && 0 <= m <= size
    ensures var d := Skip(Push(c, size).(scope := c.scope + 1), m).(scope := c.scope);
      Wf(d) && d.level > 0 && Pop(d, size) == Skip(c, size)
  {
    var l := c.level;
    var d := Skip(Push(c, size).(scope := c.scope + 1), m).(scope := c.scope);
    assert d.offset == Wrap32(c.offset + m) && d.frames[l + 1] == size - m;
    Wrap32Shift(c.offset + m, size - m);
    assert d.frames == c.frames[l + 1 := size - m];
    assert c.frames[l + 1 := size - m][l + 1 := 0][l := Wrap32(c.frames[l] - size)]
        == c.frames[l := Wrap32(c.frames[l] - size)];
  }
}
