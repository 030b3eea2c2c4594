/** The wire format shared by LBinarySerializer and LBinaryDeserializer: field
    types (what a reader's ILBinarySerializable.Deserialize asks for), values
    (what a writer's ILBinarySerializable.Serialize hands over), and the bytes
    each value becomes. */
module Wire {
  import opened Bytes
  import opened Text

  datatype Option<T> = None | Some(value: T)

  /** A reference-typed collection: null, or its elements in iteration order. */
  datatype Collection<T> = Null | Items(items: seq<T>)

  /** One dictionary entry, in the dictionary's enumeration order. */
  datatype Entry<K, V> = Entry(key: K, val: V)

  /** ObjectValue.Null: the header of a null string, object or collection. */
  const NullHeader: int := -1

  /** Array.MaxLength: the largest buffer the pool can grow to. */
  const MaxArrayLength: nat := 0x7FFF_FFC7

  /** SerializerSettings.MaxDepthSize: the number of depth frames. The settings
      class is not part of this model; any value of at least 2 would do. */
  const MaxDepthSize: nat := 64

  /** The size of an unmanaged C# type: never zero. */
  type Width = n: nat | n > 0 witness 1

  /** What one read call of a reader's Deserialize expects. Every fixed-width
      primitive (bool, byte, short, int, long and their unsigned forms, float,
      double, Half, decimal, Guid, char, enum, DateTime, DateTimeOffset,
      TimeSpan) is a Fixed field of its byte width. Arrays and lists of
      objects or strings are read by the same code; arrays and lists of
      unmanaged structures are not, so they are two field types. */
  datatype FieldType =
    | Fixed(width: Width)
    | Str(enc: Encoding)
    | Struct(size: Width)
    | Obj(fields: seq<FieldType>)
    | ObjArray(elem: seq<FieldType>)
    | StructArray(elemSize: Width)
    | StructList(elemSize: Width)
    | StrArray(enc: Encoding)
    | StructKeyObjDict(keySize: Width, valueFields: seq<FieldType>)
    | StrKeyObjDict(valueFields: seq<FieldType>)
    | StrKeyStructDict(valueSize: Width)
    | StructKeyStrDict(keySize: Width, valueEnc: Encoding)

  /** What one write call of a writer's Serialize hands over. Arrays and lists
      share a wire format, so one constructor stands for both. */
  datatype Value =
    | FixedV(bytes: seq<byte>)
    | StrV(enc: Encoding, str: Option<string>)
    | StructV(bytes: seq<byte>)
    | ObjV(obj: Option<Object>)
    | ObjArrayV(objs: Collection<Option<Object>>)
    | StructArrayV(structs: Collection<seq<byte>>)
    | StrArrayV(arrayEnc: Encoding, strs: Collection<Option<string>>)
    | StructKeyObjDictV(structObjs: Collection<Entry<seq<byte>, Option<Object>>>)
    | StrKeyObjDictV(strObjs: Collection<Entry<string, Option<Object>>>)
    | StrKeyStructDictV(strStructs: Collection<Entry<string, seq<byte>>>)
    | StructKeyStrDictV(dictEnc: Encoding, structStrs: Collection<Entry<seq<byte>, Option<string>>>)

  /** An ILBinarySerializable instance, as the sequence of values its Serialize writes. */
  datatype Object = Object(fields: seq<Value>)

  // ---------------------------------------------------------------- headers

  /** A signed 32-bit little-endian header. */
  function Header(n: int): (r: seq<byte>)
    ensures |r| == IntSize
  {
    Int32Bytes(n)
  }

  /** The header of a collection: -1 for null, otherwise the element count. */
  function CountHeader<T>(c: Collection<T>): int
  {
    match c
    case Null => NullHeader
    case Items(xs) => |xs|
  }

  function ItemsOf<T>(c: Collection<T>): seq<T>
  {
    match c
    case Null => []
    case Items(xs) => xs
  }

  // ---------------------------------------------------------------- encodings

  function EncString(s: Option<string>, enc: Encoding): (r: seq<byte>)
    ensures |r| >= IntSize
  {
    match s
    case None => Header(NullHeader)
    case Some(str) => Header(HeaderValue(str, enc)) + Encode(str, enc)
  }

  /** WriteStructure: the structure's size, then its raw bytes. */
  function EncStruct(b: seq<byte>): (r: seq<byte>)
    ensures |r| == IntSize + |b|
  {
    Header(|b|) + b
  }

  /** A nested object: -1, or its body size followed by its body. */
  function EncObj(o: Option<Object>): (r: seq<byte>)
    ensures |r| >= IntSize
  {
    match o
    case None => Header(NullHeader)
    case Some(obj) => var body := EncFields(obj.fields); Header(|body|) + body
  }

  /** The concatenated writes of one Serialize call: the body of an object. */
  function EncFields(vs: seq<Value>): seq<byte>
  {
    if vs == [] then [] else EncValue(vs[0]) + EncFields(vs[1..])
  }

  function EncValue(v: Value): seq<byte>
  {
    match v
    case FixedV(b) => b
    case StrV(enc, s) => EncString(s, enc)
    case StructV(b) => EncStruct(b)
    case ObjV(o) => EncObj(o)
    case ObjArrayV(Null) => Header(NullHeader)
    case ObjArrayV(Items(xs)) => Header(|xs|) + EncObjs(xs)
    case StructArrayV(Null) => Header(NullHeader)
    case StructArrayV(Items(xs)) => Header(|xs|) + Concat(xs)
    case StrArrayV(enc, Null) => Header(NullHeader)
    case StrArrayV(enc, Items(xs)) => Header(|xs|) + EncStrings(xs, enc)
    case StructKeyObjDictV(Null) => Header(NullHeader)
    case StructKeyObjDictV(Items(xs)) => Header(|xs|) + EncStructObjEntries(xs)
    case StrKeyObjDictV(Null) => Header(NullHeader)
    case StrKeyObjDictV(Items(xs)) => Header(|xs|) + EncStrObjEntries(xs)
    case StrKeyStructDictV(Null) => Header(NullHeader)
    case StrKeyStructDictV(Items(xs)) => Header(|xs|) + EncStrStructEntries(xs)
    case StructKeyStrDictV(enc, Null) => Header(NullHeader)
    case StructKeyStrDictV(enc, Items(xs)) => Header(|xs|) + EncStructStrEntries(xs, enc)
  }

  function EncObjs(os: seq<Option<Object>>): seq<byte>
  {
    if os == [] then [] else EncObj(os[0]) + EncObjs(os[1..])
  }

  /** The contiguous block of an unmanaged array (MemoryMarshal.Cast<T, byte>). */
  function Concat(bs: seq<seq<byte>>): seq<byte>
  {
    if bs == [] then [] else bs[0] + Concat(bs[1..])
  }

  function EncStrings(ss: seq<Option<string>>, enc: Encoding): seq<byte>
  {
    if ss == [] then [] else EncString(ss[0], enc) + EncStrings(ss[1..], enc)
  }

  function EncStructObjEntry(e: Entry<seq<byte>, Option<Object>>): seq<byte>
  {
    EncStruct(e.key) + EncObj(e.val)
  }

  function EncStructObjEntries(es: seq<Entry<seq<byte>, Option<Object>>>): seq<byte>
  {
    if es == [] then [] else EncStructObjEntry(es[0]) + EncStructObjEntries(es[1..])
  }

  /** String keys are always written with the default encoding, UTF-8. */
  function EncStrObjEntry(e: Entry<string, Option<Object>>): seq<byte>
  {
    EncString(Some(e.key), UTF8) + EncObj(e.val)
  }

  function EncStrObjEntries(es: seq<Entry<string, Option<Object>>>): seq<byte>
  {
    if es == [] then [] else EncStrObjEntry(es[0]) + EncStrObjEntries(es[1..])
  }

  function EncStrStructEntry(e: Entry<string, seq<byte>>): seq<byte>
  {
    EncString(Some(e.key), UTF8) + EncStruct(e.val)
  }

  function EncStrStructEntries(es: seq<Entry<string, seq<byte>>>): seq<byte>
  {
    if es == [] then [] else EncStrStructEntry(es[0]) + EncStrStructEntries(es[1..])
  }

  function EncStructStrEntry(e: Entry<seq<byte>, Option<string>>, enc: Encoding): seq<byte>
  {
    EncStruct(e.key) + EncString(e.val, enc)
  }

  function EncStructStrEntries(es: seq<Entry<seq<byte>, Option<string>>>, enc: Encoding): seq<byte>
  {
    if es == [] then [] else EncStructStrEntry(es[0], enc) + EncStructStrEntries(es[1..], enc)
  }

  // ---------------------------------------------------------------- depth

  /** How many nested object levels writing a value pushes. */
  function ValueDepth(v: Value): nat
  {
    match v
    case ObjV(o) => ObjDepth(o)
    case ObjArrayV(Null) => 0
    case ObjArrayV(Items(xs)) => ObjsDepth(xs)
    case StructKeyObjDictV(Null) => 0
    case StructKeyObjDictV(Items(xs)) => StructObjEntriesDepth(xs)
    case StrKeyObjDictV(Null) => 0
    case StrKeyObjDictV(Items(xs)) => StrObjEntriesDepth(xs)
    case _ => 0
  }

  function ObjDepth(o: Option<Object>): nat
  {
    match o
    case None => 0
    case Some(obj) => 1 + FieldsDepth(obj.fields)
  }

  function FieldsDepth(vs: seq<Value>): nat
  {
    if vs == [] then 0 else Max(ValueDepth(vs[0]), FieldsDepth(vs[1..]))
  }

  function ObjsDepth(os: seq<Option<Object>>): nat
  {
    if os == [] then 0 else Max(ObjDepth(os[0]), ObjsDepth(os[1..]))
  }

  function StructObjEntryDepth(e: Entry<seq<byte>, Option<Object>>): nat { ObjDepth(e.val) }

  function StructObjEntriesDepth(es: seq<Entry<seq<byte>, Option<Object>>>): nat
  {
    if es == [] then 0 else Max(StructObjEntryDepth(es[0]), StructObjEntriesDepth(es[1..]))
  }

  function StrObjEntryDepth(e: Entry<string, Option<Object>>): nat { ObjDepth(e.val) }

  function StrObjEntriesDepth(es: seq<Entry<string, Option<Object>>>): nat
  {
    if es == [] then 0 else Max(StrObjEntryDepth(es[0]), StrObjEntriesDepth(es[1..]))
  }

  function Max(a: nat, b: nat): nat { if a < b then b else a }

  // ---------------------------------------------------------------- unchecked strings

  /** Whether writing the value reaches an ASCII or UTF-16 string body, the two
      string writes that copy into the buffer without growing it first. */
  predicate Unchecked(v: Value)
  {
    match v
    case StrV(enc, s) => UncheckedString(s, enc)
    case ObjV(o) => UncheckedObj(o)
    case ObjArrayV(Null) => false
    case ObjArrayV(Items(xs)) => UncheckedObjs(xs)
    case StrArrayV(enc, Null) => false
    case StrArrayV(enc, Items(xs)) => UncheckedStrings(xs, enc)
    case StructKeyObjDictV(Null) => false
    case StructKeyObjDictV(Items(xs)) => UncheckedStructObjEntries(xs)
    case StrKeyObjDictV(Null) => false
    case StrKeyObjDictV(Items(xs)) => UncheckedStrObjEntries(xs)
    case StructKeyStrDictV(enc, Null) => false
    case StructKeyStrDictV(enc, Items(xs)) => UncheckedStructStrEntries(xs, enc)
    case _ => false
  }

  predicate UncheckedString(s: Option<string>, enc: Encoding)
  {
    (enc == ASCII || enc == UTF16) && s.Some? && s.value != []
  }

  predicate UncheckedObj(o: Option<Object>)
  {
    match o
    case None => false
    case Some(obj) => UncheckedFields(obj.fields)
  }

  predicate UncheckedFields(vs: seq<Value>)
  {
    vs != [] && (Unchecked(vs[0]) || UncheckedFields(vs[1..]))
  }

  predicate UncheckedObjs(os: seq<Option<Object>>)
  {
    os != [] && (UncheckedObj(os[0]) || UncheckedObjs(os[1..]))
  }

  predicate UncheckedStrings(ss: seq<Option<string>>, enc: Encoding)
  {
    ss != [] && (UncheckedString(ss[0], enc) || UncheckedStrings(ss[1..], enc))
  }

  predicate UncheckedStructObjEntry(e: Entry<seq<byte>, Option<Object>>) { UncheckedObj(e.val) }

  predicate UncheckedStructObjEntries(es: seq<Entry<seq<byte>, Option<Object>>>)
  {
    es != [] && (UncheckedStructObjEntry(es[0]) || UncheckedStructObjEntries(es[1..]))
  }

  predicate UncheckedStrObjEntry(e: Entry<string, Option<Object>>) { UncheckedObj(e.val) }

  predicate UncheckedStrObjEntries(es: seq<Entry<string, Option<Object>>>)
  {
    es != [] && (UncheckedStrObjEntry(es[0]) || UncheckedStrObjEntries(es[1..]))
  }

  predicate UncheckedStructStrEntries(es: seq<Entry<seq<byte>, Option<string>>>, enc: Encoding)
  {
    es != [] && (UncheckedString(es[0].val, enc) || UncheckedStructStrEntries(es[1..], enc))
  }

  // ---------------------------------------------------------------- parts

  /* A collection's encoding is the concatenation of its elements'
     encodings. The collection writers loop over the elements with `parts`,
     the elements' encodings, in hand; the triggers keep a part from being
     unfolded into its element's encoding unless that encoding is asked for. */

  predicate ObjParts(xs: seq<Option<Object>>, parts: seq<seq<byte>>)
  {
    |parts| == |xs| && forall k {:trigger EncObj(xs[k])} | 0 <= k < |xs| :: parts[k] == EncObj(xs[k])
  }

  /** The encodings of the elements of xs, in order. */
  function ObjPartsOf(xs: seq<Option<Object>>): (parts: seq<seq<byte>>)
    ensures ObjParts(xs, parts) && Concat(parts) == EncObjs(xs)
  {
    if xs == [] then [] else [EncObj(xs[0])] + ObjPartsOf(xs[1..])
  }

  predicate StringParts(xs: seq<Option<string>>, parts: seq<seq<byte>>, enc: Encoding)
  {
    |parts| == |xs| && forall k {:trigger EncString(xs[k], enc)} | 0 <= k < |xs| :: parts[k] == EncString(xs[k], enc)
  }

  /** The encodings of the elements of xs, in order. */
  function StringPartsOf(xs: seq<Option<string>>, enc: Encoding): (parts: seq<seq<byte>>)
    ensures StringParts(xs, parts, enc) && Concat(parts) == EncStrings(xs, enc)
  {
    if xs == [] then [] else [EncString(xs[0], enc)] + StringPartsOf(xs[1..], enc)
  }

  predicate StructObjParts(xs: seq<Entry<seq<byte>, Option<Object>>>, parts: seq<seq<byte>>)
  {
    |parts| == |xs| && forall k {:trigger EncStructObjEntry(xs[k])} | 0 <= k < |xs| :: parts[k] == EncStructObjEntry(xs[k])
  }

  /** The encodings of the elements of xs, in order. */
  function StructObjPartsOf(xs: seq<Entry<seq<byte>, Option<Object>>>): (parts: seq<seq<byte>>)
    ensures StructObjParts(xs, parts) && Concat(parts) == EncStructObjEntries(xs)
  {
    if xs == [] then [] else [EncStructObjEntry(xs[0])] + StructObjPartsOf(xs[1..])
  }

  predicate StrObjParts(xs: seq<Entry<string, Option<Object>>>, parts: seq<seq<byte>>)
  {
    |parts| == |xs| && forall k {:trigger EncStrObjEntry(xs[k])} | 0 <= k < |xs| :: parts[k] == EncStrObjEntry(xs[k])
  }

  /** The encodings of the elements of xs, in order. */
  function StrObjPartsOf(xs: seq<Entry<string, Option<Object>>>): (parts: seq<seq<byte>>)
    ensures StrObjParts(xs, parts) && Concat(parts) == EncStrObjEntries(xs)
  {
    if xs == [] then [] else [EncStrObjEntry(xs[0])] + StrObjPartsOf(xs[1..])
  }

  predicate StrStructParts(xs: seq<Entry<string, seq<byte>>>, parts: seq<seq<byte>>)
  {
    |parts| == |xs| && forall k {:trigger EncStrStructEntry(xs[k])} | 0 <= k < |xs| :: parts[k] == EncStrStructEntry(xs[k])
  }

  /** The encodings of the elements of xs, in order. */
  function StrStructPartsOf(xs: seq<Entry<string, seq<byte>>>): (parts: seq<seq<byte>>)
    ensures StrStructParts(xs, parts) && Concat(parts) == EncStrStructEntries(xs)
  {
    if xs == [] then [] else [EncStrStructEntry(xs[0])] + StrStructPartsOf(xs[1..])
  }

  predicate StructStrParts(xs: seq<Entry<seq<byte>, Option<string>>>, parts: seq<seq<byte>>, enc: Encoding)
  {
    |parts| == |xs| && forall k {:trigger EncStructStrEntry(xs[k], enc)} | 0 <= k < |xs| :: parts[k] == EncStructStrEntry(xs[k], enc)
  }

  /** The encodings of the elements of xs, in order. */
  function StructStrPartsOf(xs: seq<Entry<seq<byte>, Option<string>>>, enc: Encoding): (parts: seq<seq<byte>>)
    ensures StructStrParts(xs, parts, enc) && Concat(parts) == EncStructStrEntries(xs, enc)
  {
    if xs == [] then [] else [EncStructStrEntry(xs[0], enc)] + StructStrPartsOf(xs[1..], enc)
  }
}
