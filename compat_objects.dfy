/** The round trip of nested objects and of the collections that hold them:
    what a writer's Serialize appends for an object, the reader's
    Deserialize gets back, level by level; and an older reader, whose
    Deserialize knows only the first fields, gets those and skips the rest. */
module ObjectCompat {
  import opened Bytes
  import opened Text
  import opened Wire
  import opened ReadSpec
  import opened Compat

  // ---------------------------------------------------------------- single steps of the readers

  /** A field read first is followed by the rest of the fields. */
  lemma FieldsCons(data: seq<byte>, c: Cursor, ts: seq<FieldType>, v: Value, d: Cursor)
    requires Wf(c) && ts != [] && ReadField(data, c, ts[0]) == Done(v, d)
    ensures ReadFields(data, c, ts) == Cons(v, ReadFields(data, d, ts[1..]))
  {
  }

  /** A nested object with a size header: its fields one level deeper, then the pop. */
  lemma ObjectStep(data: seq<byte>, c: Cursor, fs: seq<FieldType>, n: nat, vs: seq<Value>, len: int)
    requires Wf(c) && Clean(c) && c.scope > 0 && c.level + 1 < MaxDepthSize && n <= Int32Max && len == IntSize + n
    requires ReadInt(data, c) == Done(n, Skip(c, IntSize))
    requires ReadFields(data, Inside(Skip(c, IntSize), n), fs) == Done(vs, Skip(Inside(Skip(c, IntSize), n), n))
    ensures ReadObject(data, c, fs) == Done(Some(Object(vs)), Skip(c, len))
  {
    BodyStep(data, Skip(c, IntSize), fs, n, vs);
    SkipSkip(c, IntSize, n);
  }

  /** The fields of an object read in full in its own level, then the level
      popped: the reader ends just past the object. */
  lemma BodyStep(data: seq<byte>, c: Cursor, fs: seq<FieldType>, n: nat, vs: seq<Value>)
    requires Wf(c) && Clean(c) && c.scope > 0 && c.level + 1 < MaxDepthSize && n <= Int32Max
    requires ReadFields(data, Inside(c, n), fs) == Done(vs, Skip(Inside(c, n), n))
    ensures ReadBody(data, Push(c, n), fs, n) == Done(Some(Object(vs)), Skip(c, n))
  {
    PushSkipPop(c, n, n);
  }

  /** The cursor inside a nested object whose size header was just read:
      one level deeper, with the object's size as the level's budget, and
      one scope deeper for its Deserialize. */
  function Inside(c: Cursor, n: nat): (q: Cursor)
    requires Wf(c) && c.scope > 0 && c.level + 1 < MaxDepthSize && n <= Int32Max
    ensures Wf(q) && q.level == c.level + 1 && q.scope == c.scope + 1 && q.frames[q.level] == n
  {
    Push(c, n).(scope := c.scope + 1)
  }

  /** An element of a collection of objects is an object read one scope deeper. */
  lemma ItemStep(data: seq<byte>, c: Cursor, elem: seq<FieldType>, x: Option<Object>, n: int)
    requires Wf(c) && ReadObject(data, c.(scope := c.scope + 1), elem) == Done(x, Skip(c.(scope := c.scope + 1), n))
    ensures ReadItem(data, c, elem) == Done(x, Skip(c, n))
  {
    assert Skip(c.(scope := c.scope + 1), n).(scope := c.scope) == Skip(c, n);
  }

  lemma ObjectsCons(data: seq<byte>, c: Cursor, elem: seq<FieldType>, n: nat, m: nat, x: Option<Object>, d: Cursor)
    requires Wf(c) && n == m + 1 && ReadItem(data, c, elem) == Done(x, d)
    ensures ReadObjects(data, c, elem, n) == Cons(x, ReadObjects(data, d, elem, m))
  {
  }

  lemma ObjectArrayStep(data: seq<byte>, c: Cursor, elem: seq<FieldType>, xs: seq<Option<Object>>, n: int, len: int)
    requires Wf(c) && CountFits(xs) && ReadInt(data, c) == Done(|xs|, Skip(c, IntSize)) && len == IntSize + n
    requires xs == [] ==> n == 0
    requires xs != [] ==> ReadObjects(data, Skip(c, IntSize), elem, |xs|) == Done(xs, Skip(Skip(c, IntSize), n))
    ensures ReadObjectArray(data, c, elem) == Done(Items(xs), Skip(c, len))
  {
    SkipSkip(c, IntSize, n);
    if xs == [] {
      SkipZero(Skip(c, IntSize));
    }
  }

  lemma StructObjCons(data: seq<byte>, c: Cursor, keySize: Width, vf: seq<FieldType>, n: nat, m: nat, keys: set<seq<byte>>,
                      e: Entry<seq<byte>, Option<Object>>, c2: Cursor)
    requires Wf(c) && n == m + 1 && Wf(c2) && ReadStructObjEntry(data, c, keySize, vf, keys) == Done(e, c2)
    ensures ReadStructObjEntries(data, c, keySize, vf, n, keys)
      == Cons(e, ReadStructObjEntries(data, c2, keySize, vf, m, keys + {e.key}))
  {
  }

  lemma StructObjEntryStep(data: seq<byte>, c: Cursor, keySize: Width, vf: seq<FieldType>, keys: set<seq<byte>>,
                           e: Entry<seq<byte>, Option<Object>>, c1: Cursor, c2: Cursor)
    requires Wf(c) && e.key !in keys
    requires ReadStruct(data, c, keySize) == Done(e.key, c1) && Wf(c1) && ReadItem(data, c1, vf) == Done(e.val, c2)
    ensures ReadStructObjEntry(data, c, keySize, vf, keys) == Done(e, c2)
  {
  }

  lemma StructObjDictStep(data: seq<byte>, c: Cursor, keySize: Width, vf: seq<FieldType>, es: seq<Entry<seq<byte>, Option<Object>>>, n: int, len: int)
    requires Wf(c) && CountFits(es) && ReadInt(data, c) == Done(|es|, Skip(c, IntSize)) && len == IntSize + n
    requires es == [] ==> n == 0
    requires es != [] ==> ReadStructObjEntries(data, Skip(c, IntSize), keySize, vf, |es|, {}) == Done(es, Skip(Skip(c, IntSize), n))
    ensures ReadStructObjDict(data, c, keySize, vf) == Done(Items(es), Skip(c, len))
  {
    SkipSkip(c, IntSize, n);
    if es == [] {
      SkipZero(Skip(c, IntSize));
    }
  }

  lemma StrObjCons(data: seq<byte>, c: Cursor, vf: seq<FieldType>, n: nat, m: nat, keys: set<string>,
                   e: Entry<string, Option<Object>>, c2: Cursor)
    requires Wf(c) && n == m + 1 && Wf(c2) && ReadStrObjEntry(data, c, vf, keys) == Done(e, c2)
    ensures ReadStrObjEntries(data, c, vf, n, keys) == Cons(e, ReadStrObjEntries(data, c2, vf, m, keys + {e.key}))
  {
  }

  lemma StrObjEntryStep(data: seq<byte>, c: Cursor, vf: seq<FieldType>, keys: set<string>,
                        e: Entry<string, Option<Object>>, c1: Cursor, c2: Cursor)
    requires Wf(c) && e.key !in keys
    requires ReadString(data, c, ASCII) == Done(Some(e.key), c1) && Wf(c1) && ReadItem(data, c1, vf) == Done(e.val, c2)
    ensures ReadStrObjEntry(data, c, vf, keys) == Done(e, c2)
  {
  }

  lemma StrObjDictStep(data: seq<byte>, c: Cursor, vf: seq<FieldType>, es: seq<Entry<string, Option<Object>>>, n: int, len: int)
    requires Wf(c) && CountFits(es) && ReadInt(data, c) == Done(|es|, Skip(c, IntSize)) && len == IntSize + n
    requires es == [] ==> n == 0
    requires es != [] ==> ReadStrObjEntries(data, Skip(c, IntSize), vf, |es|, {}) == Done(es, Skip(Skip(c, IntSize), n))
    ensures ReadStrObjDict(data, c, vf) == Done(Items(es), Skip(c, len))
  {
    SkipSkip(c, IntSize, n);
    if es == [] {
      SkipZero(Skip(c, IntSize));
    }
  }

  /** A first element followed by the rest read in full is the whole sequence read. */
  lemma ConsChain<T>(r: Read<seq<T>>, xs: seq<T>, rest: Read<seq<T>>, e: Cursor)
    requires xs != [] && r == Cons(xs[0], rest) && rest == Done(xs[1..], e)
    ensures r == Done(xs, e)
  {
    assert [xs[0]] + xs[1..] == xs;
  }

  // ---------------------------------------------------------------- cursors and keys

  /** Opening an object for a body that lies ahead leaves the body ahead of its own level. */
  lemma PushAhead(data: seq<byte>, c: Cursor, body: seq<byte>)
    requires Ahead(data, c, body) && c.scope > 0 && c.level + 1 < MaxDepthSize && |body| <= Int32Max
    ensures Ahead(data, Inside(c, |body|), body)
  {
    var q := Inside(c, |body|);
    assert forall i | q.level < i < MaxDepthSize :: q.frames[i] == c.frames[i];
  }

  /** The same bytes lie ahead one scope deeper. */
  lemma ScopeAhead(data: seq<byte>, c: Cursor, e: seq<byte>)
    requires Ahead(data, c, e)
    ensures Ahead(data, c.(scope := c.scope + 1), e)
  {
  }

  /** Keys distinct and new stay so once the first is taken into the set. */
  lemma TailKeys<K, V>(es: seq<Entry<K, V>>, keys: set<K>)
    requires es != [] && DistinctKeys(es) && forall k | 0 <= k < |es| :: es[k].key !in keys
    ensures DistinctKeys(es[1..]) && forall k | 0 <= k < |es[1..]| :: es[1..][k].key !in keys + {es[0].key}
  {
    forall k | 0 <= k < |es[1..]| ensures es[1..][k].key !in keys + {es[0].key} {
      assert es[1..][k] == es[k + 1];
    }
    forall i, j | 0 <= i < j < |es[1..]| ensures es[1..][i].key != es[1..][j].key {
      assert es[1..][i] == es[i + 1] && es[1..][j] == es[j + 1];
    }
  }

  // ---------------------------------------------------------------- the round trip

  /** A field ahead, inside a Deserialize call, is read as it was written,
      with room left for the objects it nests. */
  lemma FieldRoundTrip(data: seq<byte>, c: Cursor, v: Value, t: FieldType)
    requires Fits(v, t) && Ahead(data, c, EncValue(v)) && c.scope > 0 && c.level + ValueDepth(v) < MaxDepthSize
    ensures ReadField(data, c, t) == Done(v, Skip(c, |EncValue(v)|))
    decreases v, 3
  {
    match t
    case Fixed(w) => FixedRoundTrip(data, c, v.bytes);
    case Str(enc) => StringValueRoundTrip(data, c, v.str, enc);
    case Struct(size) => StructRoundTrip(data, c, v.bytes);
    case Obj(fs) => ObjRoundTrip(data, c, v.obj, fs);
    case ObjArray(elem) => ObjectArrayRoundTrip(data, c, v, elem);
    case StructArray(size) => StructArrayRoundTrip(data, c, v, size);
    case StructList(size) => StructListRoundTrip(data, c, v, size);
    case StrArray(enc) => StringArrayRoundTrip(data, c, v, enc);
    case StructKeyObjDict(keySize, vf) => StructObjDictRoundTrip(data, c, v, keySize, vf);
    case StrKeyObjDict(vf) => StrObjDictRoundTrip(data, c, v, vf);
    case StrKeyStructDict(valueSize) => StrStructDictRoundTrip(data, c, v, valueSize);
    case StructKeyStrDict(keySize, enc) => StructStrDictRoundTrip(data, c, v, keySize, enc);
  }

  /** The fields of a Serialize call, ahead in order, are read back in order. */
  lemma FieldsRoundTrip(data: seq<byte>, c: Cursor, vs: seq<Value>, ts: seq<FieldType>)
    requires FieldsFit(vs, ts) && Ahead(data, c, EncFields(vs)) && c.scope > 0 && c.level + FieldsDepth(vs) < MaxDepthSize
    ensures ReadFields(data, c, ts) == Done(vs, Skip(c, |EncFields(vs)|))
    decreases vs, 1
  {
    if vs == [] {
      SkipZero(c);
    } else {
      var a := EncValue(vs[0]);
      var rest := EncFields(vs[1..]);
      AheadSplit(data, c, a, rest);
      var d := Skip(c, |a|);
      FieldRoundTrip(data, c, vs[0], ts[0]);
      FieldsRoundTrip(data, d, vs[1..], ts[1..]);
      FieldsCons(data, c, ts, vs[0], d);
      SkipParts(c, a, rest, EncFields(vs));
      ConsChain(ReadFields(data, c, ts), vs, ReadFields(data, d, ts[1..]), Skip(d, |rest|));
    }
  }

  /** A nested object ahead, null or not, is read back; the reader ends right
      after it, at the level it started from. */
  lemma ObjRoundTrip(data: seq<byte>, c: Cursor, o: Option<Object>, fs: seq<FieldType>)
    requires ObjFits(o, fs) && Ahead(data, c, EncObj(o)) && c.scope > 0 && c.level + ObjDepth(o) < MaxDepthSize
    ensures ReadObject(data, c, fs) == Done(o, Skip(c, |EncObj(o)|))
    decreases o, 2
  {
    match o
    case None =>
      IntRoundTrip(data, c, NullHeader);
    case Some(obj) =>
      var body := EncFields(obj.fields);
      AheadSplit(data, c, Header(|body|), body);
      IntRoundTrip(data, c, |body|);
      PushAhead(data, Skip(c, IntSize), body);
      FieldsRoundTrip(data, Inside(Skip(c, IntSize), |body|), obj.fields, fs);
      ObjectStep(data, c, fs, |body|, obj.fields, |EncObj(o)|);
  }

  /** An element of a collection of objects is read back one scope deeper. */
  lemma ItemRoundTrip(data: seq<byte>, c: Cursor, x: Option<Object>, elem: seq<FieldType>)
    requires ObjFits(x, elem) && Ahead(data, c, EncObj(x)) && c.level + ObjDepth(x) < MaxDepthSize
    ensures ReadItem(data, c, elem) == Done(x, Skip(c, |EncObj(x)|))
    decreases x, 3
  {
    var c' := c.(scope := c.scope + 1);
    ScopeAhead(data, c, EncObj(x));
    ObjRoundTrip(data, c', x, elem);
    ItemStep(data, c, elem, x, |EncObj(x)|);
  }

  /** Objects ahead one after the other are read back in order. */
  lemma ObjectsRoundTrip(data: seq<byte>, c: Cursor, xs: seq<Option<Object>>, elem: seq<FieldType>)
    requires ObjsFit(xs, elem) && Ahead(data, c, EncObjs(xs)) && c.level + ObjsDepth(xs) < MaxDepthSize
    ensures ReadObjects(data, c, elem, |xs|) == Done(xs, Skip(c, |EncObjs(xs)|))
    decreases xs, 1
  {
    if xs == [] {
      SkipZero(c);
    } else {
      var a := EncObj(xs[0]);
      var rest := EncObjs(xs[1..]);
      AheadSplit(data, c, a, rest);
      var d := Skip(c, |a|);
      ItemRoundTrip(data, c, xs[0], elem);
      ObjectsRoundTrip(data, d, xs[1..], elem);
      ObjectsCons(data, c, elem, |xs|, |xs[1..]|, xs[0], d);
      SkipParts(c, a, rest, EncObjs(xs));
      ConsChain(ReadObjects(data, c, elem, |xs|), xs, ReadObjects(data, d, elem, |xs[1..]|), Skip(d, |rest|));
    }
  }

  /** An array or list of objects ahead is read back. */
  lemma ObjectArrayRoundTrip(data: seq<byte>, c: Cursor, v: Value, elem: seq<FieldType>)
    requires Fits(v, ObjArray(elem)) && Ahead(data, c, EncValue(v)) && c.level + ValueDepth(v) < MaxDepthSize
    ensures ReadObjectArray(data, c, elem) == Done(v.objs, Skip(c, |EncValue(v)|))
    decreases v, 2
  {
    match v.objs
    case Null =>
      IntRoundTrip(data, c, NullHeader);
    case Items(xs) =>
      var rest := EncObjs(xs);
      AheadSplit(data, c, Header(|xs|), rest);
      IntRoundTrip(data, c, |xs|);
      if xs != [] {
        ObjectsRoundTrip(data, Skip(c, IntSize), xs, elem);
      }
      ObjectArrayStep(data, c, elem, xs, |rest|, |EncValue(v)|);
  }

  /** Entries of objects under distinct structure keys, none of them among
      the keys already read, are read back in order. */
  lemma StructObjEntriesRoundTrip(data: seq<byte>, c: Cursor, es: seq<Entry<seq<byte>, Option<Object>>>,
                                  keySize: Width, vf: seq<FieldType>, keys: set<seq<byte>>)
    requires StructObjFit(es, keySize, vf) && DistinctKeys(es) && forall k | 0 <= k < |es| :: es[k].key !in keys
    requires Ahead(data, c, EncStructObjEntries(es)) && c.level + StructObjEntriesDepth(es) < MaxDepthSize
    ensures ReadStructObjEntries(data, c, keySize, vf, |es|, keys) == Done(es, Skip(c, |EncStructObjEntries(es)|))
    decreases es, 1
  {
    if es == [] {
      SkipZero(c);
    } else {
      var a := EncStructObjEntry(es[0]);
      var rest := EncStructObjEntries(es[1..]);
      AheadSplit(data, c, a, rest);
      var d := Skip(c, |a|);
      var c1 := Skip(c, |EncStruct(es[0].key)|);
      StructObjEntryRoundTrip(data, c, es[0], keySize, vf);
      SkipParts(c, EncStruct(es[0].key), EncObj(es[0].val), a);
      TailKeys(es, keys);
      StructObjEntriesRoundTrip(data, d, es[1..], keySize, vf, keys + {es[0].key});
      StructObjEntryStep(data, c, keySize, vf, keys, es[0], c1, Skip(c1, |EncObj(es[0].val)|));
      StructObjCons(data, c, keySize, vf, |es|, |es[1..]|, keys, es[0], Skip(c1, |EncObj(es[0].val)|));
      SkipParts(c, a, rest, EncStructObjEntries(es));
      ConsChain(ReadStructObjEntries(data, c, keySize, vf, |es|, keys), es,
                ReadStructObjEntries(data, d, keySize, vf, |es[1..]|, keys + {es[0].key}), Skip(d, |rest|));
    }
  }

  /** One entry ahead: its key, then its object one scope deeper. */
  lemma StructObjEntryRoundTrip(data: seq<byte>, c: Cursor, e: Entry<seq<byte>, Option<Object>>, keySize: Width, vf: seq<FieldType>)
    requires StructObjEntryFits(e, keySize, vf) && Ahead(data, c, EncStructObjEntry(e)) && c.level + ObjDepth(e.val) < MaxDepthSize
    ensures ReadStruct(data, c, keySize) == Done(e.key, Skip(c, |EncStruct(e.key)|))
    ensures ReadItem(data, Skip(c, |EncStruct(e.key)|), vf) == Done(e.val, Skip(Skip(c, |EncStruct(e.key)|), |EncObj(e.val)|))
    decreases e, 3
  {
    var a := EncStruct(e.key);
    var b := EncObj(e.val);
    AheadSplit(data, c, a, b);
    var c1 := Skip(c, |a|);
    StructRoundTrip(data, c, e.key);
    ItemRoundTrip(data, c1, e.val, vf);
  }

  /** A dictionary of objects under structure keys ahead is read back. */
  lemma StructObjDictRoundTrip(data: seq<byte>, c: Cursor, v: Value, keySize: Width, vf: seq<FieldType>)
    requires Fits(v, StructKeyObjDict(keySize, vf)) && Ahead(data, c, EncValue(v)) && c.level + ValueDepth(v) < MaxDepthSize
    ensures ReadStructObjDict(data, c, keySize, vf) == Done(v.structObjs, Skip(c, |EncValue(v)|))
    decreases v, 2
  {
    match v.structObjs
    case Null =>
      IntRoundTrip(data, c, NullHeader);
    case Items(es) =>
      var rest := EncStructObjEntries(es);
      AheadSplit(data, c, Header(|es|), rest);
      IntRoundTrip(data, c, |es|);
      if es != [] {
        StructObjEntriesRoundTrip(data, Skip(c, IntSize), es, keySize, vf, {});
      }
      StructObjDictStep(data, c, keySize, vf, es, |rest|, |EncValue(v)|);
  }

  /** Entries of objects under distinct ASCII keys, none of them among the
      keys already read, are read back in order. */
  lemma StrObjEntriesRoundTrip(data: seq<byte>, c: Cursor, es: seq<Entry<string, Option<Object>>>,
                               vf: seq<FieldType>, keys: set<string>)
    requires StrObjFit(es, vf) && DistinctKeys(es) && forall k | 0 <= k < |es| :: es[k].key !in keys
    requires Ahead(data, c, EncStrObjEntries(es)) && c.level + StrObjEntriesDepth(es) < MaxDepthSize
    ensures ReadStrObjEntries(data, c, vf, |es|, keys) == Done(es, Skip(c, |EncStrObjEntries(es)|))
    decreases es, 1
  {
    if es == [] {
      SkipZero(c);
    } else {
      var a := EncStrObjEntry(es[0]);
      var rest := EncStrObjEntries(es[1..]);
      AheadSplit(data, c, a, rest);
      var d := Skip(c, |a|);
      var c1 := Skip(c, |EncString(Some(es[0].key), UTF8)|);
      StrObjEntryRoundTrip(data, c, es[0], vf);
      SkipParts(c, EncString(Some(es[0].key), UTF8), EncObj(es[0].val), a);
      TailKeys(es, keys);
      StrObjEntriesRoundTrip(data, d, es[1..], vf, keys + {es[0].key});
      StrObjEntryStep(data, c, vf, keys, es[0], c1, Skip(c1, |EncObj(es[0].val)|));
      StrObjCons(data, c, vf, |es|, |es[1..]|, keys, es[0], Skip(c1, |EncObj(es[0].val)|));
      SkipParts(c, a, rest, EncStrObjEntries(es));
      ConsChain(ReadStrObjEntries(data, c, vf, |es|, keys), es,
                ReadStrObjEntries(data, d, vf, |es[1..]|, keys + {es[0].key}), Skip(d, |rest|));
    }
  }

  /** One entry ahead: its key, written as UTF-8 and read as ASCII, then its
      object one scope deeper. */
  lemma StrObjEntryRoundTrip(data: seq<byte>, c: Cursor, e: Entry<string, Option<Object>>, vf: seq<FieldType>)
    requires StrObjEntryFits(e, vf) && Ahead(data, c, EncStrObjEntry(e)) && c.level + ObjDepth(e.val) < MaxDepthSize
    ensures ReadString(data, c, ASCII) == Done(Some(e.key), Skip(c, |EncString(Some(e.key), UTF8)|))
    ensures ReadItem(data, Skip(c, |EncString(Some(e.key), UTF8)|), vf) == Done(e.val, Skip(Skip(c, |EncString(Some(e.key), UTF8)|), |EncObj(e.val)|))
    decreases e, 3
  {
    var a := EncString(Some(e.key), UTF8);
    var b := EncObj(e.val);
    AheadSplit(data, c, a, b);
    var c1 := Skip(c, |a|);
    KeyRoundTrip(data, c, e.key);
    ItemRoundTrip(data, c1, e.val, vf);
  }

  /** A dictionary of objects under string keys ahead is read back. */
  lemma StrObjDictRoundTrip(data: seq<byte>, c: Cursor, v: Value, vf: seq<FieldType>)
    requires Fits(v, StrKeyObjDict(vf)) && Ahead(data, c, EncValue(v)) && c.level + ValueDepth(v) < MaxDepthSize
    ensures ReadStrObjDict(data, c, vf) == Done(v.strObjs, Skip(c, |EncValue(v)|))
    decreases v, 2
  {
    match v.strObjs
    case Null =>
      IntRoundTrip(data, c, NullHeader);
    case Items(es) =>
      var rest := EncStrObjEntries(es);
      AheadSplit(data, c, Header(|es|), rest);
      IntRoundTrip(data, c, |es|);
      if es != [] {
        StrObjEntriesRoundTrip(data, Skip(c, IntSize), es, vf, {});
      }
      StrObjDictStep(data, c, vf, es, |rest|, |EncValue(v)|);
  }

}
