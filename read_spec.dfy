/** What LBinaryDeserializer reads, as functions of the serialized data and
    the reader's cursor: every read either returns a value together with the
    cursor after it, or throws. LBinaryDeserializer's methods are proved
    against these functions. */
module ReadSpec {
  import opened Bytes
  import opened Text
  import opened Wire

  /** The reader's position: _offset, _level, _scope and the contents of
      _objectDepthSizes, the bytes still unread in the object open at each
      level. */
  datatype Cursor = Cursor(offset: int, level: int, scope: int, frames: seq<int>)

  /** A read that returns a value and the cursor after it, or one that throws. */
  datatype Read<T> = Done(value: T, next: Cursor) | Fault

  /** One element read in front of the rest of a sequence read. */
  function Cons<T>(x: T, rest: Read<seq<T>>): (r: Read<seq<T>>)
    ensures r.Done? <==> rest.Done?
    ensures r.Done? ==> |r.value| == 1 + |rest.value| && r.next == rest.next
  {
    match rest
    case Fault => Fault
    case Done(xs, c) => Done([x] + xs, c)
  }

  /** A sequence read after the elements `prefix` were read: the state a
      reading loop is in. */
  function After<T>(prefix: seq<T>, rest: Read<seq<T>>): (r: Read<seq<T>>)
    ensures r.Done? <==> rest.Done?
    ensures r.Done? ==> |r.value| == |prefix| + |rest.value| && r.next == rest.next
  {
    match rest
    case Fault => Fault
    case Done(xs, c) => Done(prefix + xs, c)
  }

  /** A reading loop starts with nothing read. */
  lemma AfterNothing<T>(rest: Read<seq<T>>)
    ensures After([], rest) == rest
  {
    if rest.Done? {
      assert [] + rest.value == rest.value;
    }
  }

  /** One more loop iteration moves an element from the read ahead into the
      prefix read so far. */
  lemma AfterCons<T>(prefix: seq<T>, x: T, rest: Read<seq<T>>)
    ensures After(prefix, Cons(x, rest)) == After(prefix + [x], rest)
  {
    if rest.Done? {
      assert prefix + ([x] + rest.value) == (prefix + [x]) + rest.value;
    }
  }

  /** C# int arithmetic: the exact result wrapped into 32 bits. */
  function Wrap32(x: int): (r: int)
    ensures IsInt32(r)
    ensures IsInt32(x) ==> r == x
    decreases if x < Int32Min then Int32Min - x else if x > Int32Max then x - Int32Max else 0
  {
    if x < Int32Min then Wrap32(x + 0x1_0000_0000)
    else if x > Int32Max then Wrap32(x - 0x1_0000_0000)
    else x
  }

  /** Every cursor the reader can reach: C# ints, one frame per depth level,
      and the root level whenever no Deserialize call is open. */
  predicate Wf(c: Cursor)
  {
    && IsInt32(c.offset) && 0 <= c.scope
    && |c.frames| == MaxDepthSize && 0 <= c.level < MaxDepthSize
    && (forall i | 0 <= i < MaxDepthSize :: IsInt32(c.frames[i]))
    && (c.scope == 0 ==> c.level == 0)
  }

  /** A read that leaves the level and the scope as they were. */
  predicate Kept(c: Cursor, d: Cursor)
  {
    Wf(d) && d.level == c.level && d.scope == c.scope
  }

  /** Reset(): every counter and frame zero. */
  function Start(): (c: Cursor)
    ensures Wf(c) && c.level == 0 && c.scope == 0
  {
    Cursor(0, 0, 0, seq(MaxDepthSize, _ => 0))
  }

  /** CanReadBytesForCurrentLevel: at the root level the data must hold n
      more bytes (the sum computed in C# int arithmetic); inside an object
      the object's frame must. */
  predicate CanRead(data: seq<byte>, c: Cursor, n: int)
    requires Wf(c)
  {
    || (c.level == 0 && Wrap32(c.offset + n) <= |data|)
    || (c.level > 0 && c.frames[c.level] >= n)
  }

  /** `_offset += n; _objectDepthSizes[_level] -= n;` */
  function Skip(c: Cursor, n: int): (r: Cursor)
    requires Wf(c)
    ensures Kept(c, r)
  {
    c.(offset := Wrap32(c.offset + n), frames := c.frames[c.level := Wrap32(c.frames[c.level] - n)])
  }

  /** The n bytes of the data from position o on: a span over the array. */
  function Span(data: seq<byte>, o: int, n: nat): (r: seq<byte>)
    requires 0 <= o && o + n <= |data|
    ensures |r| == n
    decreases n
  {
    if n == 0 then [] else [data[o]] + Span(data, o + 1, n - 1)
  }

  /** A span is the slice of the data it covers. */
  lemma {:induction false} SpanIsSlice(data: seq<byte>, o: int, n: nat)
    requires 0 <= o && o + n <= |data|
    ensures Span(data, o, n) == data[o..o + n]
    decreases n
  {
    if n > 0 {
      SpanIsSlice(data, o + 1, n - 1);
      assert data[o..o + n] == [data[o]] + data[o + 1..o + n];
    }
  }

  /** The n bytes at the offset, with no budget check (a span over the data,
      or a string decoded straight from it). A negative n throws, and so does
      a span past the end of the data; a string decoded past the end would
      read outside the array, which the model treats as throwing too. */
  function Take(data: seq<byte>, c: Cursor, n: int): (r: Read<seq<byte>>)
    requires Wf(c)
    ensures r.Done? <==> 0 <= n && 0 <= c.offset && c.offset + n <= |data|
    ensures r.Done? ==> |r.value| == n && Kept(c, r.next)
  {
    if 0 <= n && 0 <= c.offset && c.offset + n <= |data| then
      Done(Span(data, c.offset, n), Skip(c, n))
    else
      Fault
  }

  /** Every fixed-width read (ReadBool, ReadByte, ReadInt ... ReadGuid,
      ReadEnum): the field's bytes when the budget allows them, otherwise
      the type's default, all zero bytes, with the cursor left where it was. */
  function ReadFixed(data: seq<byte>, c: Cursor, width: nat): (r: Read<seq<byte>>)
    requires Wf(c)
    ensures r.Done? ==> |r.value| == width && Kept(c, r.next)
  {
    if CanRead(data, c, width) then Take(data, c, width) else Done(Zeros(width), c)
  }

  /** ReadDateTime and ReadDateTimeOffset: one budget check for the whole
      field, then two fixed-width reads that each check again. */
  function ReadFixedPair(data: seq<byte>, c: Cursor, first: nat, second: nat): (r: Read<seq<byte>>)
    requires Wf(c)
    ensures r.Done? ==> |r.value| == first + second && Kept(c, r.next)
  {
    if !CanRead(data, c, first + second) then
      Done(Zeros(first + second), c)
    else
      match ReadFixed(data, c, first)
      case Fault => Fault
      case Done(a, c1) =>
        match ReadFixed(data, c1, second)
        case Fault => Fault
        case Done(b, c2) => Done(a + b, c2)
  }

  /** ReadInt, which also reads every header. */
  function ReadInt(data: seq<byte>, c: Cursor): (r: Read<int>)
    requires Wf(c)
    ensures r.Done? ==> IsInt32(r.value) && Kept(c, r.next)
  {
    match ReadFixed(data, c, IntSize)
    case Fault => Fault
    case Done(b, c1) => Done(Int32Of(b), c1)
  }

  /** The four ints of a decimal's 16 bytes, as ReadDecimal hands them to
      new decimal(int[]): lo, mid, hi and the flags. */
  function DecimalInts(b: seq<byte>): (r: seq<int>)
    requires |b| == DecimalSize
    ensures |r| == 4 && forall k | 0 <= k < 4 :: IsInt32(r[k])
  {
    [Int32Of(b[0..4]), Int32Of(b[4..8]), Int32Of(b[8..12]), Int32Of(b[12..16])]
  }

  /** ReadString: -1 is null, 0 is empty, otherwise that many bytes decoded
      with the encoding. The body is not checked against the budget. */
  function ReadString(data: seq<byte>, c: Cursor, enc: Encoding): (r: Read<Option<string>>)
    requires Wf(c)
    ensures r.Done? ==> Kept(c, r.next)
  {
    match ReadInt(data, c)
    case Fault => Fault
    case Done(length, c1) =>
      if length == NullHeader then Done(None, c1)
      else if length == 0 then Done(Some([]), c1)
      else
        match Take(data, c1, length)
        case Fault => Fault
        case Done(body, c2) => Done(Some(Decode(body, enc)), c2)
  }

  /** ReadStruct: a size header, then the structure's bytes read in place.
      A zero size or one the budget does not allow gives the default; the
      offset then moves by the header's size, whatever the structure's own. */
  function ReadStruct(data: seq<byte>, c: Cursor, size: Width): (r: Read<seq<byte>>)
    requires Wf(c)
    ensures r.Done? ==> |r.value| == size && Kept(c, r.next)
  {
    match ReadInt(data, c)
    case Fault => Fault
    case Done(length, c1) =>
      if length == 0 || !CanRead(data, c1, length) then Done(Zeros(size), c1)
      else if 0 <= c1.offset && c1.offset + size <= |data| then
        Done(Span(data, c1.offset, size), Skip(c1, length))
      else Fault
  }

  /** A block of unmanaged elements cut into elements of `size` bytes, as
      MemoryMarshal.Cast does: a partial element at the end is dropped. */
  function Chunks(b: seq<byte>, size: Width): (r: seq<seq<byte>>)
    ensures forall k | 0 <= k < |r| :: |r[k]| == size
    decreases |b|
  {
    if |b| < size then [] else [b[..size]] + Chunks(b[size..], size)
  }

  /** ReadArrayOf for unmanaged elements: the count, then a block of
      size * count bytes, the product computed in C# int arithmetic. */
  function ReadStructArray(data: seq<byte>, c: Cursor, size: Width): (r: Read<Collection<seq<byte>>>)
    requires Wf(c)
    ensures r.Done? ==> Kept(c, r.next)
  {
    match ReadInt(data, c)
    case Fault => Fault
    case Done(length, c1) =>
      if length == NullHeader then Done(Null, c1)
      else if length == 0 then Done(Items([]), c1)
      else
        match Take(data, c1, Wrap32(size * length))
        case Fault => Fault
        case Done(block, c2) => Done(Items(Chunks(block, size)), c2)
  }

  /** ReadListOf for unmanaged elements: as the array reader, except that a
      negative count is refused by the list's capacity, and the elements are
      indexed one by one up to the count. */
  function ReadStructList(data: seq<byte>, c: Cursor, size: Width): (r: Read<Collection<seq<byte>>>)
    requires Wf(c)
    ensures r.Done? ==> Kept(c, r.next)
  {
    match ReadInt(data, c)
    case Fault => Fault
    case Done(length, c1) =>
      if length == NullHeader then Done(Null, c1)
      else if length == 0 then Done(Items([]), c1)
      else if length < 0 then Fault
      else
        match Take(data, c1, Wrap32(size * length))
        case Fault => Fault
        case Done(block, c2) =>
          var items := Chunks(block, size);
          if length <= |items| then Done(Items(items[..length]), c2) else Fault
  }

  /** ReadArrayOfStrings and ReadListOfStrings. */
  function ReadStringArray(data: seq<byte>, c: Cursor, enc: Encoding): (r: Read<Collection<Option<string>>>)
    requires Wf(c)
    ensures r.Done? ==> Kept(c, r.next)
  {
    match ReadInt(data, c)
    case Fault => Fault
    case Done(length, c1) =>
      if length == NullHeader then Done(Null, c1)
      else if length == 0 then Done(Items([]), c1)
      else if length < 0 then Fault
      else
        match ReadStrings(data, c1, enc, length)
        case Fault => Fault
        case Done(xs, c2) => Done(Items(xs), c2)
  }

  /** n strings in a row. */
  function ReadStrings(data: seq<byte>, c: Cursor, enc: Encoding, n: nat): (r: Read<seq<Option<string>>>)
    requires Wf(c)
    ensures r.Done? ==> |r.value| == n && Kept(c, r.next)
    decreases n, 1
  {
    if n == 0 then Done([], c) else ReadStringsFirst(data, c, enc, n)
  }

  /** A string, then the n - 1 after it. */
  function ReadStringsFirst(data: seq<byte>, c: Cursor, enc: Encoding, n: nat): (r: Read<seq<Option<string>>>)
    requires Wf(c) && n > 0
    ensures r.Done? ==> |r.value| == n && Kept(c, r.next)
    decreases n, 0
  {
    match ReadString(data, c, enc)
    case Fault => Fault
    case Done(x, c1) => Cons(x, ReadStrings(data, c1, enc, n - 1))
  }

  // ---------------------------------------------------------------- objects

  /** The parent of a level; the root is its own parent. */
  function Parent(level: int): int
  {
    if level > 0 then level - 1 else 0
  }

  /** `_level++; _objectDepthSizes[_level] = objectSize;` */
  function Push(c: Cursor, objectSize: int): (r: Cursor)
    requires Wf(c) && c.scope > 0 && c.level + 1 < MaxDepthSize && IsInt32(objectSize)
    ensures Wf(r) && r.level == c.level + 1 && r.scope == c.scope
  {
    c.(level := c.level + 1, frames := c.frames[c.level + 1 := objectSize])
  }

  /** Closing a nested object: skip what its reader left unread, clear its
      frame, and charge its size to the parent's frame. */
  function Pop(c: Cursor, objectSize: int): (r: Cursor)
    requires Wf(c) && c.level > 0 && IsInt32(objectSize)
    ensures Wf(r) && r.level == c.level - 1 && r.scope == c.scope
  {
    var l := c.level - 1;
    Cursor(Wrap32(c.offset + c.frames[c.level]), l, c.scope,
           c.frames[c.level := 0][l := Wrap32(c.frames[l] - objectSize)])
  }

  /** Deserialize<T>(): outside every Deserialize call (scope 0) the object
      is the rest of the data, with no header; inside one it has a size
      header, -1 for null, and opens a new level. */
  function ReadObject(data: seq<byte>, c: Cursor, fields: seq<FieldType>): (r: Read<Option<Object>>)
    requires Wf(c)
    ensures r.Done? ==> Kept(c, r.next)
    decreases fields, 3
  {
    if c.scope == 0 then ReadBody(data, c, fields, 0)
    else
      match ReadInt(data, c)
      case Fault => Fault
      case Done(objectSize, c1) =>
        if objectSize == NullHeader then Done(None, c1)
        else if c1.level + 1 == MaxDepthSize then Fault
        else ReadBody(data, Push(c1, objectSize), fields, objectSize)
  }

  /** The object's own Deserialize, one scope deeper, then the pop of its
      level when it opened one. */
  function ReadBody(data: seq<byte>, c: Cursor, fields: seq<FieldType>, objectSize: int): (r: Read<Option<Object>>)
    requires Wf(c) && IsInt32(objectSize)
    ensures r.Done? ==> Wf(r.next) && r.next.level == Parent(c.level) && r.next.scope == c.scope
    decreases fields, 2
  {
    match ReadFields(data, c.(scope := c.scope + 1), fields)
    case Fault => Fault
    case Done(vs, c1) =>
      var c2 := c1.(scope := c1.scope - 1);
      Done(Some(Object(vs)), if c2.level > 0 then Pop(c2, objectSize) else c2)
  }

  /** The reads of an ILBinarySerializable.Deserialize, one per field, in order. */
  function ReadFields(data: seq<byte>, c: Cursor, ts: seq<FieldType>): (r: Read<seq<Value>>)
    requires Wf(c)
    ensures r.Done? ==> |r.value| == |ts| && Kept(c, r.next)
    decreases ts, 1
  {
    if ts == [] then Done([], c)
    else
      match ReadField(data, c, ts[0])
      case Fault => Fault
      case Done(v, c1) =>
        Cons(v, ReadFields(data, c1, ts[1..]))
  }

  /** The read call a field type stands for. */
  function ReadField(data: seq<byte>, c: Cursor, t: FieldType): (r: Read<Value>)
    requires Wf(c)
    ensures r.Done? ==> Kept(c, r.next)
    decreases t, 0
  {
    match t
    case Fixed(w) =>
      (match ReadFixed(data, c, w) case Fault => Fault case Done(b, c1) => Done(FixedV(b), c1))
    case Str(enc) =>
      (match ReadString(data, c, enc) case Fault => Fault case Done(s, c1) => Done(StrV(enc, s), c1))
    case Struct(size) =>
      (match ReadStruct(data, c, size) case Fault => Fault case Done(b, c1) => Done(StructV(b), c1))
    case Obj(fs) =>
      (match ReadObject(data, c, fs) case Fault => Fault case Done(o, c1) => Done(ObjV(o), c1))
    case ObjArray(elem) =>
      (match ReadObjectArray(data, c, elem) case Fault => Fault case Done(xs, c1) => Done(ObjArrayV(xs), c1))
    case StructArray(size) =>
      (match ReadStructArray(data, c, size) case Fault => Fault case Done(xs, c1) => Done(StructArrayV(xs), c1))
    case StructList(size) =>
      (match ReadStructList(data, c, size) case Fault => Fault case Done(xs, c1) => Done(StructArrayV(xs), c1))
    case StrArray(enc) =>
      (match ReadStringArray(data, c, enc) case Fault => Fault case Done(xs, c1) => Done(StrArrayV(enc, xs), c1))
    case StructKeyObjDict(keySize, vf) =>
      (match ReadStructObjDict(data, c, keySize, vf) case Fault => Fault case Done(d, c1) => Done(StructKeyObjDictV(d), c1))
    case StrKeyObjDict(vf) =>
      (match ReadStrObjDict(data, c, vf) case Fault => Fault case Done(d, c1) => Done(StrKeyObjDictV(d), c1))
    case StrKeyStructDict(valueSize) =>
      (match ReadStrStructDict(data, c, valueSize) case Fault => Fault case Done(d, c1) => Done(StrKeyStructDictV(d), c1))
    case StructKeyStrDict(keySize, enc) =>
      (match ReadStructStrDict(data, c, keySize, enc) case Fault => Fault case Done(d, c1) => Done(StructKeyStrDictV(enc, d), c1))
  }

  /** One element of a collection of objects: `_scope++; Deserialize<T>();
      _scope--;`, so the element is read one scope deeper and always has a
      header. */
  function ReadItem(data: seq<byte>, c: Cursor, elem: seq<FieldType>): (r: Read<Option<Object>>)
    requires Wf(c)
    ensures r.Done? ==> Kept(c, r.next)
    decreases elem, 4
  {
    match ReadObject(data, c.(scope := c.scope + 1), elem)
    case Fault => Fault
    case Done(x, c1) => Done(x, c1.(scope := c1.scope - 1))
  }

  /** ReadArrayOf and ReadListOf for objects: each element is read one scope
      deeper, so it always has a header. */
  function ReadObjectArray(data: seq<byte>, c: Cursor, elem: seq<FieldType>): (r: Read<Collection<Option<Object>>>)
    requires Wf(c)
    ensures r.Done? ==> Kept(c, r.next)
    decreases elem, 6
  {
    match ReadInt(data, c)
    case Fault => Fault
    case Done(length, c1) =>
      if length == NullHeader then Done(Null, c1)
      else if length == 0 then Done(Items([]), c1)
      else if length < 0 then Fault
      else
        match ReadObjects(data, c1, elem, length)
        case Fault => Fault
        case Done(xs, c2) => Done(Items(xs), c2)
  }

  /** n objects in a row, each one scope deeper. */
  function ReadObjects(data: seq<byte>, c: Cursor, elem: seq<FieldType>, n: nat): (r: Read<seq<Option<Object>>>)
    requires Wf(c)
    ensures r.Done? ==> |r.value| == n && Kept(c, r.next)
    decreases elem, 5, n
  {
    if n == 0 then Done([], c)
    else
      match ReadItem(data, c, elem)
      case Fault => Fault
      case Done(x, c1) => Cons(x, ReadObjects(data, c1, elem, n - 1))
  }

  // ---------------------------------------------------------------- dictionaries

  /** ReadDictionaryOf<T, TV>: structure keys, object values. Adding a key
      already read throws. */
  function ReadStructObjDict(data: seq<byte>, c: Cursor, keySize: Width, vf: seq<FieldType>)
    : (r: Read<Collection<Entry<seq<byte>, Option<Object>>>>)
    requires Wf(c)
    ensures r.Done? ==> Kept(c, r.next)
    decreases vf, 6
  {
    match ReadInt(data, c)
    case Fault => Fault
    case Done(length, c1) =>
      if length == NullHeader then Done(Null, c1)
      else if length == 0 then Done(Items([]), c1)
      else if length < 0 then Fault
      else
        match ReadStructObjEntries(data, c1, keySize, vf, length, {})
        case Fault => Fault
        case Done(es, c2) => Done(Items(es), c2)
  }

  /** n entries in a row, given the keys already in the dictionary. */
  function ReadStructObjEntries(data: seq<byte>, c: Cursor, keySize: Width, vf: seq<FieldType>, n: nat, keys: set<seq<byte>>)
    : (r: Read<seq<Entry<seq<byte>, Option<Object>>>>)
    requires Wf(c)
    ensures r.Done? ==> |r.value| == n && Kept(c, r.next)
    decreases vf, 5, n
  {
    if n == 0 then Done([], c)
    else
      match ReadStructObjEntry(data, c, keySize, vf, keys)
      case Fault => Fault
      case Done(e, c2) => Cons(e, ReadStructObjEntries(data, c2, keySize, vf, n - 1, keys + {e.key}))
  }

  /** One entry: its key, then its object; a key already read throws. */
  function ReadStructObjEntry(data: seq<byte>, c: Cursor, keySize: Width, vf: seq<FieldType>, keys: set<seq<byte>>)
    : (r: Read<Entry<seq<byte>, Option<Object>>>)
    requires Wf(c)
    ensures r.Done? ==> r.value.key !in keys && Kept(c, r.next)
    decreases vf, 5, 0
  {
    match ReadStruct(data, c, keySize)
    case Fault => Fault
    case Done(key, c1) =>
      match ReadItem(data, c1, vf)
      case Fault => Fault
      case Done(val, c2) => if key in keys then Fault else Done(Entry(key, val), c2)
  }

  /** ReadDictionaryOf<T>: string keys, read as ASCII, and object values. A
      null key or a key already read throws. */
  function ReadStrObjDict(data: seq<byte>, c: Cursor, vf: seq<FieldType>)
    : (r: Read<Collection<Entry<string, Option<Object>>>>)
    requires Wf(c)
    ensures r.Done? ==> Kept(c, r.next)
    decreases vf, 6
  {
    match ReadInt(data, c)
    case Fault => Fault
    case Done(length, c1) =>
      if length == NullHeader then Done(Null, c1)
      else if length == 0 then Done(Items([]), c1)
      else if length < 0 then Fault
      else
        match ReadStrObjEntries(data, c1, vf, length, {})
        case Fault => Fault
        case Done(es, c2) => Done(Items(es), c2)
  }

  function ReadStrObjEntries(data: seq<byte>, c: Cursor, vf: seq<FieldType>, n: nat, keys: set<string>)
    : (r: Read<seq<Entry<string, Option<Object>>>>)
    requires Wf(c)
    ensures r.Done? ==> |r.value| == n && Kept(c, r.next)
    decreases vf, 5, n
  {
    if n == 0 then Done([], c)
    else
      match ReadStrObjEntry(data, c, vf, keys)
      case Fault => Fault
      case Done(e, c2) => Cons(e, ReadStrObjEntries(data, c2, vf, n - 1, keys + {e.key}))
  }

  /** One entry: its key, then its object; a null key or one already read
      throws. */
  function ReadStrObjEntry(data: seq<byte>, c: Cursor, vf: seq<FieldType>, keys: set<string>)
    : (r: Read<Entry<string, Option<Object>>>)
    requires Wf(c)
    ensures r.Done? ==> r.value.key !in keys && Kept(c, r.next)
    decreases vf, 5, 0
  {
    match ReadString(data, c, ASCII)
    case Fault => Fault
    case Done(key, c1) =>
      match ReadItem(data, c1, vf)
      case Fault => Fault
      case Done(val, c2) => if key.None? || key.value in keys then Fault else Done(Entry(key.value, val), c2)
  }

  /** ReadDictionaryOfStructs: string keys, read as ASCII, and structure
      values. A null key or a key already read throws. */
  function ReadStrStructDict(data: seq<byte>, c: Cursor, valueSize: Width)
    : (r: Read<Collection<Entry<string, seq<byte>>>>)
    requires Wf(c)
    ensures r.Done? ==> Kept(c, r.next)
  {
    match ReadInt(data, c)
    case Fault => Fault
    case Done(length, c1) =>
      if length == NullHeader then Done(Null, c1)
      else if length == 0 then Done(Items([]), c1)
      else if length < 0 then Fault
      else
        match ReadStrStructEntries(data, c1, valueSize, length, {})
        case Fault => Fault
        case Done(es, c2) => Done(Items(es), c2)
  }

  function ReadStrStructEntries(data: seq<byte>, c: Cursor, valueSize: Width, n: nat, keys: set<string>)
    : (r: Read<seq<Entry<string, seq<byte>>>>)
    requires Wf(c)
    ensures r.Done? ==> |r.value| == n && Kept(c, r.next)
    decreases n, 1
  {
    if n == 0 then Done([], c) else ReadStrStructEntriesFirst(data, c, valueSize, n, keys)
  }

  /** An entry, then the n - 1 after it. */
  function ReadStrStructEntriesFirst(data: seq<byte>, c: Cursor, valueSize: Width, n: nat, keys: set<string>)
    : (r: Read<seq<Entry<string, seq<byte>>>>)
    requires Wf(c) && n > 0
    ensures r.Done? ==> |r.value| == n && Kept(c, r.next)
    decreases n, 0
  {
    match ReadString(data, c, ASCII)
    case Fault => Fault
    case Done(key, c1) =>
      match ReadStruct(data, c1, valueSize)
      case Fault => Fault
      case Done(val, c2) =>
        if key.None? || key.value in keys then Fault
        else
          Cons(Entry(key.value, val), ReadStrStructEntries(data, c2, valueSize, n - 1, keys + {key.value}))
  }

  /** ReadDictionaryOfStrings: structure keys and string values. A key
      already read throws. */
  function ReadStructStrDict(data: seq<byte>, c: Cursor, keySize: Width, enc: Encoding)
    : (r: Read<Collection<Entry<seq<byte>, Option<string>>>>)
    requires Wf(c)
    ensures r.Done? ==> Kept(c, r.next)
  {
    match ReadInt(data, c)
    case Fault => Fault
    case Done(length, c1) =>
      if length == NullHeader then Done(Null, c1)
      else if length == 0 then Done(Items([]), c1)
      else if length < 0 then Fault
      else
        match ReadStructStrEntries(data, c1, keySize, enc, length, {})
        case Fault => Fault
        case Done(es, c2) => Done(Items(es), c2)
  }

  function ReadStructStrEntries(data: seq<byte>, c: Cursor, keySize: Width, enc: Encoding, n: nat, keys: set<seq<byte>>)
    : (r: Read<seq<Entry<seq<byte>, Option<string>>>>)
    requires Wf(c)
    ensures r.Done? ==> |r.value| == n && Kept(c, r.next)
    decreases n, 1
  {
    if n == 0 then Done([], c) else ReadStructStrEntriesFirst(data, c, keySize, enc, n, keys)
  }

  /** An entry, then the n - 1 after it. */
  function ReadStructStrEntriesFirst(data: seq<byte>, c: Cursor, keySize: Width, enc: Encoding, n: nat, keys: set<seq<byte>>)
    : (r: Read<seq<Entry<seq<byte>, Option<string>>>>)
    requires Wf(c) && n > 0
    ensures r.Done? ==> |r.value| == n && Kept(c, r.next)
    decreases n, 0
  {
    match ReadStruct(data, c, keySize)
    case Fault => Fault
    case Done(key, c1) =>
      match ReadString(data, c1, enc)
      case Fault => Fault
      case Done(val, c2) =>
        if key in keys then Fault
        else
          Cons(Entry(key, val), ReadStructStrEntries(data, c2, keySize, enc, n - 1, keys + {key}))
  }

}
