// Whole-message round trips: what a serializer writes, a deserializer reads
// back, both with the reader's schema equal to the writer's and with an
// older reader that knows only the first fields of each object.

module RoundTrip {
  import opened Bytes
  import opened Text
  import opened Wire
  import opened ReadSpec
  import opened Compat
  import opened ObjectCompat
  import opened Serializer
  import opened Deserializer

  // ---------------------------------------------------------------- older readers

  /** What an older reader, whose Deserialize reads only the first n fields,
      makes of an object. */
  function Older(o: Option<Object>, n: nat): Option<Object>
  {
    match o
    case None => None
    case Some(obj) => Some(Object(if n <= |obj.fields| then obj.fields[..n] else obj.fields))
  }

  function OlderAll(xs: seq<Option<Object>>, n: nat): (ys: seq<Option<Object>>)
    ensures |ys| == |xs|
  {
    if xs == [] then [] else [Older(xs[0], n)] + OlderAll(xs[1..], n)
  }

  /** The object has at least as many fields as the reader's schema ts, and
      its first fields match that schema. */
  predicate OlderFits(o: Option<Object>, ts: seq<FieldType>)
  {
    o.Some? ==> |ts| <= |o.value.fields| && FieldsFit(o.value.fields[..|ts|], ts)
  }

  predicate AllOlderFit(xs: seq<Option<Object>>, ts: seq<FieldType>)
  {
    forall i | 0 <= i < |xs| :: OlderFits(xs[i], ts)
  }

  /** The body of an object is the writes of its fields, one after the other. */
  lemma {:induction false} EncFieldsAppend(a: seq<Value>, b: seq<Value>)
    ensures EncFields(a + b) == EncFields(a) + EncFields(b)
    decreases |a|
  {
    if a == [] {
      assert a + b == b;
    } else {
      assert (a + b)[1..] == a[1..] + b;
      EncFieldsAppend(a[1..], b);
    }
  }

  /** Dropping the last fields of an object never nests it deeper. */
  lemma {:induction false} FieldsDepthPrefix(vs: seq<Value>, k: nat)
    requires k <= |vs|
    ensures FieldsDepth(vs[..k]) <= FieldsDepth(vs)
    decreases k
  {
    if k > 0 {
      assert vs[..k][1..] == vs[1..][..k - 1];
      FieldsDepthPrefix(vs[1..], k - 1);
    }
  }

  /** An older schema reads the first fields of a body and stops there. */
  lemma FieldsOlderRoundTrip(data: seq<byte>, c: Cursor, vs: seq<Value>, ts: seq<FieldType>)
    requires |ts| <= |vs| && FieldsFit(vs[..|ts|], ts) && Ahead(data, c, EncFields(vs))
    requires c.scope > 0 && c.level + FieldsDepth(vs[..|ts|]) < MaxDepthSize
    ensures |EncFields(vs[..|ts|])| <= |EncFields(vs)|
    ensures Skip(c, |EncFields(vs[..|ts|])|).offset == c.offset + |EncFields(vs[..|ts|])|
    ensures ReadFields(data, c, ts) == Done(vs[..|ts|], Skip(c, |EncFields(vs[..|ts|])|))
  {
    var k := |ts|;
    assert vs == vs[..k] + vs[k..];
    EncFieldsAppend(vs[..k], vs[k..]);
    AheadSplit(data, c, EncFields(vs[..k]), EncFields(vs[k..]));
    FieldsRoundTrip(data, c, vs[..k], ts);
  }

  /** The fields of a nested object read only in part; the pop still moves
      the reader past the whole object, by its size header. */
  lemma OlderBodyStep(data: seq<byte>, c: Cursor, fs: seq<FieldType>, n: nat, m: nat, vs: seq<Value>)
    requires Wf(c) && Clean(c) && c.scope > 0 && c.level + 1 < MaxDepthSize && m <= n <= Int32Max
    requires ReadFields(data, Inside(c, n), fs) == Done(vs, Skip(Inside(c, n), m))
    ensures ReadBody(data, Push(c, n), fs, n) == Done(Some(Object(vs)), Skip(c, n))
  {
    PushSkipPop(c, n, m);
  }

  lemma OlderObjectStep(data: seq<byte>, c: Cursor, fs: seq<FieldType>, n: nat, m: nat, vs: seq<Value>, len: int)
    requires Wf(c) && Clean(c) && c.scope > 0 && c.level + 1 < MaxDepthSize && m <= n <= Int32Max && len == IntSize + n
    requires ReadInt(data, c) == Done(n, Skip(c, IntSize))
    requires ReadFields(data, Inside(Skip(c, IntSize), n), fs) == Done(vs, Skip(Inside(Skip(c, IntSize), n), m))
    ensures ReadObject(data, c, fs) == Done(Some(Object(vs)), Skip(c, len))
  {
    OlderBodyStep(data, Skip(c, IntSize), fs, n, m, vs);
    SkipSkip(c, IntSize, n);
  }

  /** An older reader of a nested object gets its first fields and skips the
      rest: the reader ends right after the whole object. */
  lemma ObjOlderRoundTrip(data: seq<byte>, c: Cursor, o: Option<Object>, ts: seq<FieldType>)
    requires OlderFits(o, ts) && Ahead(data, c, EncObj(o)) && c.scope > 0
    requires c.level + ObjDepth(Older(o, |ts|)) < MaxDepthSize
    ensures ReadObject(data, c, ts) == Done(Older(o, |ts|), Skip(c, |EncObj(o)|))
  {
    match o
    case None =>
      IntRoundTrip(data, c, NullHeader);
    case Some(obj) =>
      var body := EncFields(obj.fields);
      var n := |body|;
      AheadSplit(data, c, Header(n), body);
      IntRoundTrip(data, c, n);
      PushAhead(data, Skip(c, IntSize), body);
      var q := Inside(Skip(c, IntSize), n);
      FieldsOlderRoundTrip(data, q, obj.fields, ts);
      OlderObjectStep(data, c, ts, n, |EncFields(obj.fields[..|ts|])|, obj.fields[..|ts|], |EncObj(o)|);
  }

  lemma ItemOlderRoundTrip(data: seq<byte>, c: Cursor, x: Option<Object>, elem: seq<FieldType>)
    requires OlderFits(x, elem) && Ahead(data, c, EncObj(x)) && c.level + ObjDepth(Older(x, |elem|)) < MaxDepthSize
    ensures ReadItem(data, c, elem) == Done(Older(x, |elem|), Skip(c, |EncObj(x)|))
  {
    ScopeAhead(data, c, EncObj(x));
    ObjOlderRoundTrip(data, c.(scope := c.scope + 1), x, elem);
    ItemStep(data, c, elem, Older(x, |elem|), |EncObj(x)|);
  }

  /** Objects written one after the other, read by an older element schema:
      each element is cut to its first fields, and none of the skipped bytes
      is taken for the next element. */
  lemma {:induction false} ObjectsOlderRoundTrip(data: seq<byte>, c: Cursor, xs: seq<Option<Object>>, elem: seq<FieldType>)
    requires AllOlderFit(xs, elem) && Ahead(data, c, EncObjs(xs)) && c.level + ObjsDepth(OlderAll(xs, |elem|)) < MaxDepthSize
    ensures ReadObjects(data, c, elem, |xs|) == Done(OlderAll(xs, |elem|), Skip(c, |EncObjs(xs)|))
    decreases xs
  {
    if xs == [] {
      SkipZero(c);
    } else {
      var ys := OlderAll(xs, |elem|);
      assert ys[0] == Older(xs[0], |elem|) && ys[1..] == OlderAll(xs[1..], |elem|);
      var a := EncObj(xs[0]);
      var rest := EncObjs(xs[1..]);
      AheadSplit(data, c, a, rest);
      var d := Skip(c, |a|);
      assert OlderFits(xs[0], elem);
      ItemOlderRoundTrip(data, c, xs[0], elem);
      assert AllOlderFit(xs[1..], elem) by {
        forall i | 0 <= i < |xs[1..]| ensures OlderFits(xs[1..][i], elem) {
          assert xs[1..][i] == xs[i + 1];
        }
      }
      ObjectsOlderRoundTrip(data, d, xs[1..], elem);
      ObjectsCons(data, c, elem, |xs|, |xs[1..]|, ys[0], d);
      SkipParts(c, a, rest, EncObjs(xs));
      ConsChain(ReadObjects(data, c, elem, |xs|), ys, ReadObjects(data, d, elem, |xs[1..]|), Skip(d, |rest|));
    }
  }

  /** An array or list of objects read by an older element schema. */
  lemma ObjectArrayOlderRoundTrip(data: seq<byte>, c: Cursor, xs: seq<Option<Object>>, elem: seq<FieldType>)
    requires CountFits(xs) && AllOlderFit(xs, elem) && Ahead(data, c, EncValue(ObjArrayV(Items(xs))))
    requires c.level + ObjsDepth(OlderAll(xs, |elem|)) < MaxDepthSize
    ensures ReadObjectArray(data, c, elem) == Done(Items(OlderAll(xs, |elem|)), Skip(c, |EncValue(ObjArrayV(Items(xs)))|))
  {
    var rest := EncObjs(xs);
    AheadSplit(data, c, Header(|xs|), rest);
    IntRoundTrip(data, c, |xs|);
    if xs != [] {
      ObjectsOlderRoundTrip(data, Skip(c, IntSize), xs, elem);
    }
    ObjectArrayStep(data, c, elem, OlderAll(xs, |elem|), |rest|, |EncValue(ObjArrayV(Items(xs)))|);
  }

  // ---------------------------------------------------------------- the root object

  /** The root object has no size header: its fields are read one scope
      deeper, and the reader stays at level zero. */
  lemma RootStep(data: seq<byte>, fs: seq<FieldType>, vs: seq<Value>, n: int)
    requires ReadFields(data, Start().(scope := 1), fs) == Done(vs, Skip(Start().(scope := 1), n))
    ensures ReadObject(data, Start(), fs) == Done(Some(Object(vs)), Skip(Start(), n))
  {
    assert Skip(Start().(scope := 1), n).(scope := 0) == Skip(Start(), n);
  }

  /** Deserialize<T>(byte[]) on the bytes of a serialized root object, by a
      reader whose schema is a prefix of the writer's: the first fields come
      back, and the reader stops right after them. */
  lemma RootOlderRoundTrip(vs: seq<Value>, ts: seq<FieldType>)
    requires |ts| <= |vs| && FieldsFit(vs[..|ts|], ts) && FieldsDepth(vs[..|ts|]) < MaxDepthSize
    requires |EncFields(vs)| <= MaxArrayLength
    ensures var n := |EncFields(vs[..|ts|])|;
      ReadObject(EncFields(vs), Start(), ts) == Done(Some(Object(vs[..|ts|])), Skip(Start(), n))
      && Skip(Start(), n).offset == n
  {
    var data := EncFields(vs);
    SpanIsSlice(data, 0, |data|);
    assert data[0..|data|] == data;
    var c := Start().(scope := 1);
    assert Ahead(data, c, data);
    FieldsOlderRoundTrip(data, c, vs, ts);
    RootStep(data, ts, vs[..|ts|], |EncFields(vs[..|ts|])|);
  }

  /** With the writer's own schema, the whole object comes back and every
      byte is consumed. */
  lemma RootRoundTrip(vs: seq<Value>, ts: seq<FieldType>)
    requires FieldsFit(vs, ts) && FieldsDepth(vs) < MaxDepthSize && |EncFields(vs)| <= MaxArrayLength
    ensures ReadObject(EncFields(vs), Start(), ts) == Done(Some(Object(vs)), Skip(Start(), |EncFields(vs)|))
    ensures Skip(Start(), |EncFields(vs)|).offset == |EncFields(vs)|
  {
    assert vs[..|ts|] == vs;
    RootOlderRoundTrip(vs, ts);
  }

  // ---------------------------------------------------------------- both classes together

  /** Serialize an object with a fresh LBinarySerializer, take ToArray, and
      Deserialize<T> the array with a reader whose schema ts is the writer's
      or an older prefix of it. Writing fails exactly when the message would
      outgrow Array.MaxLength; otherwise the reader returns the object, cut
      to the fields it knows. */
  method SerializeThenDeserialize(vs: seq<Value>, ts: seq<FieldType>, bufferSize: nat) returns (ok: bool, o: Option<Object>)
    requires bufferSize <= MaxArrayLength && FieldsDepth(vs) < MaxDepthSize
    requires UncheckedFields(vs) ==> |EncFields(vs)| <= bufferSize
    requires |ts| <= |vs| && FieldsFit(vs[..|ts|], ts)
    ensures ok <==> |EncFields(vs)| <= MaxArrayLength
    ensures ok ==> o == Some(Object(vs[..|ts|]))
    ensures ok && |ts| == |vs| ==> o == Some(Object(vs))
  {
    var writer := new LBinarySerializer(bufferSize);
    ok := writer.WriteFields(vs);
    if !ok {
      return false, None;
    }
    var bytes := writer.ToArray();
    assert bytes[..] == EncFields(vs);
    var reader := new LBinaryDeserializer();
    FieldsDepthPrefix(vs, |ts|);
    RootOlderRoundTrip(vs, ts);
    ok, o := reader.DeserializeData(bytes[..], ts);
    assert vs[..|vs|] == vs;
  }

  /** An int, a bool and a long written in a row make a 13-byte message, and
      a reader over it gets the three values back in order. */
  method PrimitivesRoundTrip(i: int, b: bool, l: int) returns (count: int, ok: bool, i': int, b': bool, l': int)
    requires IsInt32(i) && Signed(l, LongSize)
    ensures count == IntSize + ByteSize + LongSize
    ensures ok && i' == i && b' == b && l' == l
  {
    var ib, bb, lb := Int32Bytes(i), [if b then 1 else 0], SignedLittleEndian(l, LongSize);
    var writer := new LBinarySerializer(1024);
    var w := writer.WriteInt(i);
    assert writer.buffer[..writer.offset] == ib;
    w := writer.WriteBool(b);
    assert writer.buffer[..writer.offset] == ib + bb;
    w := writer.WriteLong(l);
    assert writer.buffer[..writer.offset] == ib + bb + lb;
    var bytes := writer.ToArray();
    count := bytes.Length;
    var data := bytes[..];
    PrimitiveReads(data, i, b, l);
    var reader := new LBinaryDeserializer.FromData(data);
    var ok1, ok2, ok3;
    ok1, i' := reader.ReadInt();
    ok2, b' := reader.ReadBool();
    ok3, l' := reader.ReadLong();
    ok := ok1 && ok2 && ok3;
  }

  /** The reads of an int, a bool and a long over their writes, from the start. */
  lemma PrimitiveReads(data: seq<byte>, i: int, b: bool, l: int)
    requires IsInt32(i) && Signed(l, LongSize)
    requires data == Int32Bytes(i) + [if b then 1 else 0] + SignedLittleEndian(l, LongSize)
    ensures var c1 := Skip(Start(), IntSize); var c2 := Skip(c1, ByteSize);
      && ReadInt(data, Start()) == Done(i, c1)
      && ReadFixed(data, c1, ByteSize) == Done([if b then 1 else 0], c2)
      && ReadFixed(data, c2, LongSize) == Done(SignedLittleEndian(l, LongSize), Skip(c2, LongSize))
      && SignedFromLittleEndian(SignedLittleEndian(l, LongSize)) == l
  {
    var ib, bb, lb := Int32Bytes(i), [if b then 1 else 0], SignedLittleEndian(l, LongSize);
    var c := Start();
    assert data == ib + (bb + lb);
    SpanIsSlice(data, 0, |data|);
    assert data[0..|data|] == data;
    AheadSplit(data, c, ib, bb + lb);
    AheadSplit(data, Skip(c, |ib|), bb, lb);
    IntRoundTrip(data, c, i);
    FixedRoundTrip(data, Skip(c, |ib|), bb);
    FixedRoundTrip(data, Skip(Skip(c, |ib|), |bb|), lb);
    SignedInverse(l, LongSize);
  }
}
