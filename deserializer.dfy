/** LBinaryDeserializer: the reader. Every read takes its bytes at `offset`
    and charges them to the frame of the current level; a nested object
    opens a level whose frame is the object's size, and closing it skips
    whatever its reader left unread. A fixed-width read that the budget
    does not allow returns the type's default and moves nothing.

    Each method is proved against the function of ReadSpec that describes
    it. Where the source throws, the method returns `ok` false; the source
    leaves the reader's state unspecified after an exception and so does
    the model. */
module Deserializer {
  import opened Bytes
  import opened Text
  import opened Wire
  import opened ReadSpec

  class LBinaryDeserializer {
    /** _serializedData: never written by the reader, so held as a value. */
    var data: seq<byte>
    /** _offset: where the next read starts. */
    var offset: int
    /** _level: the nesting depth of the object being read. */
    var level: int
    /** _scope: how many Deserialize calls are open. */
    var scope: int
    /** _objectDepthSizes: the bytes still unread in the object open at each level. */
    const frames: array<int>

    ghost predicate Valid()
      reads this, frames
    {
      frames.Length == MaxDepthSize && |data| <= MaxArrayLength && Wf(Position())
    }

    /** The reader's position as a ReadSpec cursor. */
    ghost function Position(): Cursor
      reads this, frames
    {
      Cursor(offset, level, scope, frames[..])
    }

    /** A method's results are those of the read `r`: it throws exactly when
        `r` does, and otherwise it returns r's value and leaves the reader at
        r's cursor. */
    ghost predicate Yields<T>(r: Read<T>, ok: bool, value: T)
      reads this, frames
    {
      ok == r.Done? && (ok ==> value == r.value && Position() == r.next && Valid())
    }

    /** new LBinaryDeserializer(): no data. */
    constructor()
      ensures Valid() && data == [] && Position() == Start() && fresh(frames)
    {
      data := [];
      offset := 0;
      level := 0;
      scope := 0;
      frames := new int[MaxDepthSize](_ => 0);
      new;
      assert frames[..] == Start().frames;
    }

    /** new LBinaryDeserializer(serializedData) */
    constructor FromData(serializedData: seq<byte>)
      requires |serializedData| <= MaxArrayLength
      ensures Valid() && data == serializedData && Position() == Start() && fresh(frames)
    {
      data := serializedData;
      offset := 0;
      level := 0;
      scope := 0;
      frames := new int[MaxDepthSize](_ => 0);
      new;
      assert frames[..] == Start().frames;
    }

    /** Reset: every counter and frame back to zero. */
    method Reset()
      requires frames.Length == MaxDepthSize && |data| <= MaxArrayLength
      modifies this, frames
      ensures Valid() && data == old(data) && Position() == Start()
    {
      level := 0;
      scope := 0;
      offset := 0;
      forall i | 0 <= i < frames.Length {
        frames[i] := 0;
      }
      assert frames[..] == Start().frames;
    }

    /** CanReadBytesForCurrentLevel */
    function CanReadBytesForCurrentLevel(size: int): (b: bool)
      requires Valid()
      reads this, frames
      ensures b == CanRead(data, Position(), size)
    {
      (level == 0 && Wrap32(offset + size) <= |data|) || (level > 0 && frames[level] >= size)
    }

    /** `_offset += n; _objectDepthSizes[_level] -= n;` */
    method Advance(n: int)
      requires Valid()
      modifies this, frames
      ensures Valid() && data == old(data) && Position() == Skip(old(Position()), n)
    {
      offset := Wrap32(offset + n);
      frames[level] := Wrap32(frames[level] - n);
    }

    /** `_level++; _objectDepthSizes[_level] = objectSize;` */
    method PushLevel(objectSize: int)
      requires Valid() && scope > 0 && level + 1 < MaxDepthSize && IsInt32(objectSize)
      modifies this, frames
      ensures Valid() && data == old(data) && Position() == Push(old(Position()), objectSize)
    {
      level := level + 1;
      frames[level] := objectSize;
    }

    /** Closing a nested object: `_offset += _objectDepthSizes[_level];
        _objectDepthSizes[_level] = 0; _level--;` and the object's size
        charged to the parent's frame. */
    method PopLevel(objectSize: int)
      requires Valid() && level > 0 && IsInt32(objectSize)
      modifies this, frames
      ensures Valid() && data == old(data) && Position() == Pop(old(Position()), objectSize)
    {
      offset := Wrap32(offset + frames[level]);
      frames[level] := 0;
      level := level - 1;
      frames[level] := Wrap32(frames[level] - objectSize);
    }

    /** A span of n bytes at the offset, then the advance past it. */
    method Slice(n: int) returns (ok: bool, bytes: seq<byte>)
      requires Valid()
      modifies this, frames
      ensures data == old(data)
      ensures Yields(Take(data, old(Position()), n), ok, bytes)
    {
      if n < 0 || offset < 0 || offset + n > |data| {
        return false, [];
      }
      bytes := data[offset..offset + n];
      SpanIsSlice(data, offset, n);
      Advance(n);
      ok := true;
    }

    /** The shape of every fixed-width reader: the budget check, then the
        span and the advance; the default is the value of zero bytes. */
    method ReadFixedBytes(width: nat) returns (ok: bool, bytes: seq<byte>)
      requires Valid()
      modifies this, frames
      ensures data == old(data)
      ensures Yields(ReadFixed(data, old(Position()), width), ok, bytes)
    {
      if !CanReadBytesForCurrentLevel(width) {
        return true, Zeros(width);
      }
      ok, bytes := Slice(width);
    }

    // ------------------------------------------------------------ primitives

    /** ReadBool: one byte, true unless zero. */
    method ReadBool() returns (ok: bool, value: bool)
      requires Valid()
      modifies this, frames
      ensures data == old(data)
      ensures var r := ReadFixed(data, old(Position()), ByteSize);
        ok == r.Done? && (ok ==> value == (r.value[0] != 0) && Position() == r.next && Valid())
    {
      var b;
      ok, b := ReadFixedBytes(ByteSize);
      value := ok && b[0] != 0;
    }

    /** ReadByte */
    method ReadByte() returns (ok: bool, value: byte)
      requires Valid()
      modifies this, frames
      ensures data == old(data)
      ensures var r := ReadFixed(data, old(Position()), ByteSize);
        ok == r.Done? && (ok ==> value == r.value[0] && Position() == r.next && Valid())
    {
      var b;
      ok, b := ReadFixedBytes(ByteSize);
      value := if ok then b[0] else 0;
    }

    /** ReadInt: four bytes, little-endian, signed. */
    method ReadInt() returns (ok: bool, value: int)
      requires Valid()
      modifies this, frames
      ensures data == old(data)
      ensures Yields(ReadSpec.ReadInt(data, old(Position())), ok, value)
    {
      var b;
      ok, b := ReadFixedBytes(IntSize);
      value := if ok then Int32Of(b) else 0;
    }

    /** ReadUInt */
    method ReadUInt() returns (ok: bool, value: int)
      requires Valid()
      modifies this, frames
      ensures data == old(data)
      ensures var r := ReadFixed(data, old(Position()), IntSize);
        ok == r.Done? && (ok ==> value == FromLittleEndian(r.value) && Position() == r.next && Valid())
    {
      var b;
      ok, b := ReadFixedBytes(IntSize);
      value := if ok then FromLittleEndian(b) else 0;
    }

    /** ReadShort */
    method ReadShort() returns (ok: bool, value: int)
      requires Valid()
      modifies this, frames
      ensures data == old(data)
      ensures var r := ReadFixed(data, old(Position()), ShortSize);
        ok == r.Done? && (ok ==> value == SignedFromLittleEndian(r.value) && Position() == r.next && Valid())
    {
      var b;
      ok, b := ReadFixedBytes(ShortSize);
      value := if ok then SignedFromLittleEndian(b) else 0;
    }

    /** ReadUShort */
    method ReadUShort() returns (ok: bool, value: int)
      requires Valid()
      modifies this, frames
      ensures data == old(data)
      ensures var r := ReadFixed(data, old(Position()), ShortSize);
        ok == r.Done? && (ok ==> value == FromLittleEndian(r.value) && Position() == r.next && Valid())
    {
      var b;
      ok, b := ReadFixedBytes(ShortSize);
      value := if ok then FromLittleEndian(b) else 0;
    }

    /** ReadLong */
    method ReadLong() returns (ok: bool, value: int)
      requires Valid()
      modifies this, frames
      ensures data == old(data)
      ensures var r := ReadFixed(data, old(Position()), LongSize);
        ok == r.Done? && (ok ==> value == SignedFromLittleEndian(r.value) && Position() == r.next && Valid())
    {
      var b;
      ok, b := ReadFixedBytes(LongSize);
      value := if ok then SignedFromLittleEndian(b) else 0;
    }

    /** ReadULong */
    method ReadULong() returns (ok: bool, value: int)
      requires Valid()
      modifies this, frames
      ensures data == old(data)
      ensures var r := ReadFixed(data, old(Position()), LongSize);
        ok == r.Done? && (ok ==> value == FromLittleEndian(r.value) && Position() == r.next && Valid())
    {
      var b;
      ok, b := ReadFixedBytes(LongSize);
      value := if ok then FromLittleEndian(b) else 0;
    }

    /** ReadFloat, as the IEEE 754 bit pattern of the value. */
    method ReadFloat() returns (ok: bool, bits: int)
      requires Valid()
      modifies this, frames
      ensures data == old(data)
      ensures var r := ReadFixed(data, old(Position()), FloatSize);
        ok == r.Done? && (ok ==> bits == FromLittleEndian(r.value) && Position() == r.next && Valid())
    {
      var b;
      ok, b := ReadFixedBytes(FloatSize);
      bits := if ok then FromLittleEndian(b) else 0;
    }

    /** ReadDouble, as the IEEE 754 bit pattern of the value. */
    method ReadDouble() returns (ok: bool, bits: int)
      requires Valid()
      modifies this, frames
      ensures data == old(data)
      ensures var r := ReadFixed(data, old(Position()), DoubleSize);
        ok == r.Done? && (ok ==> bits == FromLittleEndian(r.value) && Position() == r.next && Valid())
    {
      var b;
      ok, b := ReadFixedBytes(DoubleSize);
      bits := if ok then FromLittleEndian(b) else 0;
    }

    /** ReadDecimal, as the four ints handed to new decimal(int[]):
        lo, mid, hi and flags. */
    method ReadDecimal() returns (ok: bool, ints: seq<int>)
      requires Valid()
      modifies this, frames
      ensures data == old(data)
      ensures var r := ReadFixed(data, old(Position()), DecimalSize);
        ok == r.Done? && (ok ==> ints == DecimalInts(r.value) && Position() == r.next && Valid())
    {
      var b;
      ok, b := ReadFixedBytes(DecimalSize);
      ints := if ok then DecimalInts(b) else [];
    }

    /** ReadHalf, as the IEEE 754 bit pattern of the value. */
    method ReadHalf() returns (ok: bool, bits: int)
      requires Valid()
      modifies this, frames
      ensures data == old(data)
      ensures var r := ReadFixed(data, old(Position()), ShortSize);
        ok == r.Done? && (ok ==> bits == FromLittleEndian(r.value) && Position() == r.next && Valid())
    {
      var b;
      ok, b := ReadFixedBytes(ShortSize);
      bits := if ok then FromLittleEndian(b) else 0;
    }

    /** ReadGuid, as the 16 bytes given to new Guid(ReadOnlySpan<byte>). */
    method ReadGuid() returns (ok: bool, guid: seq<byte>)
      requires Valid()
      modifies this, frames
      ensures data == old(data)
      ensures Yields(ReadFixed(data, old(Position()), GuidSize), ok, guid)
    {
      ok, guid := ReadFixedBytes(GuidSize);
    }

    /** ReadEnum, for enums whose underlying type is int. */
    method ReadEnum() returns (ok: bool, value: int)
      requires Valid()
      modifies this, frames
      ensures data == old(data)
      ensures Yields(ReadSpec.ReadInt(data, old(Position())), ok, value)
    {
      if !CanReadBytesForCurrentLevel(IntSize) {
        Int32OfZeros();
        return true, 0;
      }
      var b;
      ok, b := Slice(IntSize);
      value := if ok then Int32Of(b) else 0;
    }

    /** ReadTimeSpan: its ticks, read as a long after a budget check of its own. */
    method ReadTimeSpan() returns (ok: bool, ticks: int)
      requires Valid()
      modifies this, frames
      ensures data == old(data)
      ensures var r := ReadFixed(data, old(Position()), LongSize);
        ok == r.Done? && (ok ==> ticks == SignedFromLittleEndian(r.value) && Position() == r.next && Valid())
    {
      if !CanReadBytesForCurrentLevel(LongSize) {
        ZerosReadAsZero(LongSize);
        return true, 0;
      }
      ok, ticks := ReadLong();
    }

    /** ReadChar: the short read back as an unsigned UTF-16 code unit. */
    method ReadChar() returns (ok: bool, unit: int)
      requires Valid()
      modifies this, frames
      ensures data == old(data)
      ensures var r := ReadFixed(data, old(Position()), ShortSize);
        ok == r.Done? && (ok ==> unit == FromLittleEndian(r.value) && Position() == r.next && Valid())
    {
      if !CanReadBytesForCurrentLevel(ShortSize) {
        ZerosReadAsZero(ShortSize);
        return true, 0;
      }
      var s;
      ok, s := ReadShort();
      unit := if !ok then 0 else if s < 0 then s + Pow256(ShortSize) else s;
    }

    /** ReadDateTime: a budget check for all 12 bytes, then the Kind as an
        int and the ticks as a long. */
    method ReadDateTime() returns (ok: bool, kind: int, ticks: int)
      requires Valid()
      modifies this, frames
      ensures data == old(data)
      ensures var r := ReadFixedPair(data, old(Position()), IntSize, LongSize);
        ok == r.Done? && (ok ==> kind == Int32Of(r.value[..IntSize]) && ticks == SignedFromLittleEndian(r.value[IntSize..])
                                 && Position() == r.next && Valid())
    {
      if !CanReadBytesForCurrentLevel(IntSize + LongSize) {
        assert Zeros(IntSize + LongSize)[..IntSize] == Zeros(IntSize);
        assert Zeros(IntSize + LongSize)[IntSize..] == Zeros(LongSize);
        Int32OfZeros();
        ZerosReadAsZero(LongSize);
        return true, 0, 0;
      }
      ghost var first := ReadFixed(data, Position(), IntSize);
      ok, kind := ReadInt();
      if !ok {
        return false, 0, 0;
      }
      ghost var second := ReadFixed(data, Position(), LongSize);
      ok, ticks := ReadLong();
      if ok {
        assert (first.value + second.value)[..IntSize] == first.value;
        assert (first.value + second.value)[IntSize..] == second.value;
      }
    }

    /** ReadDateTimeOffset: a budget check for all 16 bytes, then the ticks
        as a long and the offset as a TimeSpan. */
    method ReadDateTimeOffset() returns (ok: bool, ticks: int, offsetTicks: int)
      requires Valid()
      modifies this, frames
      ensures data == old(data)
      ensures var r := ReadFixedPair(data, old(Position()), LongSize, LongSize);
        ok == r.Done? && (ok ==> ticks == SignedFromLittleEndian(r.value[..LongSize]) && offsetTicks == SignedFromLittleEndian(r.value[LongSize..])
                                 && Position() == r.next && Valid())
    {
      if !CanReadBytesForCurrentLevel(LongSize + LongSize) {
        assert Zeros(LongSize + LongSize)[..LongSize] == Zeros(LongSize);
        assert Zeros(LongSize + LongSize)[LongSize..] == Zeros(LongSize);
        ZerosReadAsZero(LongSize);
        return true, 0, 0;
      }
      ghost var c1 := Position();
      ghost var first := ReadFixed(data, c1, LongSize);
      ok, ticks := ReadLong();
      if !ok {
        return false, 0, 0;
      }
      ghost var second := ReadFixed(data, Position(), LongSize);
      ok, offsetTicks := ReadTimeSpan();
      if ok {
        assert (first.value + second.value)[..LongSize] == first.value;
        assert (first.value + second.value)[LongSize..] == second.value;
      }
    }

    // ------------------------------------------------------------ strings and structures

    /** ReadString: -1 is null, 0 is empty, otherwise that many bytes decoded
        with the encoding, with no budget check on the body. */
    method ReadString(enc: Encoding) returns (ok: bool, s: Option<string>)
      requires Valid()
      modifies this, frames
      ensures data == old(data)
      ensures Yields(ReadSpec.ReadString(data, old(Position()), enc), ok, s)
    {
      var length;
      ok, length := ReadInt();
      if !ok {
        return false, None;
      }
      if length == NullHeader {
        return true, None;
      }
      if length == 0 {
        return true, Some([]);
      }
      var body;
      ok, body := Slice(length);
      s := if ok then Some(Decode(body, enc)) else None;
    }

    /** ReadStruct<T>: the size header, then the structure read in place;
        the offset moves by the header's size. */
    method ReadStruct(size: Width) returns (ok: bool, value: seq<byte>)
      requires Valid()
      modifies this, frames
      ensures data == old(data)
      ensures Yields(ReadSpec.ReadStruct(data, old(Position()), size), ok, value)
    {
      var length;
      ok, length := ReadInt();
      if !ok {
        return false, [];
      }
      if length == 0 || !CanReadBytesForCurrentLevel(length) {
        return true, Zeros(size);
      }
      if offset < 0 || offset + size > |data| {
        return false, [];
      }
      value := data[offset..offset + size];
      SpanIsSlice(data, offset, size);
      Advance(length);
    }

    // ------------------------------------------------------------ objects

    /** Deserialize<T>(byte[]): take new data, reset, and read the root object. */
    method DeserializeData(serializedData: seq<byte>, fields: seq<FieldType>) returns (ok: bool, o: Option<Object>)
      requires frames.Length == MaxDepthSize && |serializedData| <= MaxArrayLength
      modifies this, frames
      ensures data == serializedData
      ensures Yields(ReadObject(serializedData, Start(), fields), ok, o)
    {
      data := serializedData;
      Reset();
      ok, o := Deserialize(fields);
    }

    /** Deserialize<T>(): inside another Deserialize call, the size header
        (-1 for null) and a new level whose frame is that size; then the
        object's own reads. */
    method Deserialize(fields: seq<FieldType>) returns (ok: bool, o: Option<Object>)
      requires Valid()
      modifies this, frames
      ensures data == old(data)
      ensures Yields(ReadObject(data, old(Position()), fields), ok, o)
      decreases fields, 3
    {
      var objectSize := 0;
      if scope > 0 {
        ok, objectSize := ReadInt();
        if !ok {
          return false, None;
        }
        if objectSize == NullHeader {
          return true, None;
        }
        if level + 1 == MaxDepthSize {
          return false, None;
        }
        PushLevel(objectSize);
      }
      ok, o := DeserializeBody(fields, objectSize);
    }

    /** The object's own reads one scope deeper; then, below the root, skip
        what they left unread, clear the level's frame, return to the parent
        level and charge the object's size to its frame. */
    method DeserializeBody(fields: seq<FieldType>, objectSize: int) returns (ok: bool, o: Option<Object>)
      requires Valid() && IsInt32(objectSize)
      modifies this, frames
      ensures data == old(data)
      ensures Yields(ReadBody(data, old(Position()), fields, objectSize), ok, o)
      decreases fields, 2
    {
      scope := scope + 1;
      var vs;
      ok, vs := ReadFields(fields);
      if !ok {
        return false, None;
      }
      scope := scope - 1;
      if level > 0 {
        PopLevel(objectSize);
      }
      o := Some(Object(vs));
    }

    /** The reads of an ILBinarySerializable.Deserialize, one per field, in order. */
    method ReadFields(ts: seq<FieldType>) returns (ok: bool, vs: seq<Value>)
      requires Valid()
      modifies this, frames
      ensures data == old(data)
      ensures Yields(ReadSpec.ReadFields(data, old(Position()), ts), ok, vs)
      decreases ts, 1
    {
      vs := [];
      var i := 0;
      assert ts[0..] == ts;
      AfterNothing(ReadSpec.ReadFields(data, Position(), ts));
      while i < |ts|
        invariant 0 <= i <= |ts| && Valid() && data == old(data)
        invariant ReadSpec.ReadFields(data, old(Position()), ts) == After(vs, ReadSpec.ReadFields(data, Position(), ts[i..]))
      {
        assert ts[i..][0] == ts[i] && ts[i..][1..] == ts[i + 1..];
        var v;
        ok, v := ReadField(ts[i]);
        if !ok {
          return;
        }
        AfterCons(vs, v, ReadSpec.ReadFields(data, Position(), ts[i + 1..]));
        vs := vs + [v];
        i := i + 1;
      }
      assert vs + [] == vs;
      ok := true;
    }

    /** One read call of a Deserialize method, dispatched on the field type. */
    method ReadField(t: FieldType) returns (ok: bool, v: Value)
      requires Valid()
      modifies this, frames
      ensures data == old(data)
      ensures Yields(ReadSpec.ReadField(data, old(Position()), t), ok, v)
      decreases t, 0
    {
      match t
      case Fixed(w) =>
        var b;
        ok, b := ReadFixedBytes(w);
        v := FixedV(b);
      case Str(enc) =>
        var s;
        ok, s := ReadString(enc);
        v := StrV(enc, s);
      case Struct(size) =>
        var b;
        ok, b := ReadStruct(size);
        v := StructV(b);
      case Obj(fs) =>
        var o;
        ok, o := Deserialize(fs);
        v := ObjV(o);
      case ObjArray(elem) =>
        var c;
        ok, c := ReadArrayOf(elem);
        v := ObjArrayV(c);
      case StructArray(size) =>
        var c;
        ok, c := ReadArrayOfStructs(size);
        v := StructArrayV(c);
      case StructList(size) =>
        var c;
        ok, c := ReadListOfStructs(size);
        v := StructArrayV(c);
      case StrArray(enc) =>
        var c;
        ok, c := ReadArrayOfStrings(enc);
        v := StrArrayV(enc, c);
      case StructKeyObjDict(keySize, vf) =>
        var d;
        ok, d := ReadDictionaryOf(keySize, vf);
        v := StructKeyObjDictV(d);
      case StrKeyObjDict(vf) =>
        var d;
        ok, d := ReadStringKeyDictionaryOf(vf);
        v := StrKeyObjDictV(d);
      case StrKeyStructDict(valueSize) =>
        var d;
        ok, d := ReadDictionaryOfStructs(valueSize);
        v := StrKeyStructDictV(d);
      case StructKeyStrDict(keySize, enc) =>
        var d;
        ok, d := ReadDictionaryOfStrings(keySize, enc);
        v := StructKeyStrDictV(enc, d);
    }

    // ------------------------------------------------------------ arrays and lists

    /** ReadArrayOf<T>() and ReadListOf<T>() of objects: -1 null, 0 empty,
        otherwise that many objects; a negative count throws. */
    method ReadArrayOf(elem: seq<FieldType>) returns (ok: bool, c: Collection<Option<Object>>)
      requires Valid()
      modifies this, frames
      ensures data == old(data)
      ensures Yields(ReadObjectArray(data, old(Position()), elem), ok, c)
      decreases elem, 6
    {
      var length;
      ok, length := ReadInt();
      if !ok {
        return false, Null;
      }
      if length == NullHeader {
        return true, Null;
      }
      if length == 0 {
        return true, Items([]);
      }
      if length < 0 {
        return false, Null;
      }
      var xs;
      ok, xs := ReadObjectsFrom(elem, length);
      c := Items(xs);
    }

    /** The for loop of that reader, from the element it has reached: the
        next object, then the `n - 1` after it. */
    method ReadObjectsFrom(elem: seq<FieldType>, n: nat) returns (ok: bool, xs: seq<Option<Object>>)
      requires Valid()
      modifies this, frames
      ensures data == old(data)
      ensures Yields(ReadObjects(data, old(Position()), elem, n), ok, xs)
      decreases elem, 5, n
    {
      if n == 0 {
        return true, [];
      }
      var x, rest;
      ok, x := ReadObjectItem(elem);
      if !ok {
        return false, [];
      }
      ok, rest := ReadObjectsFrom(elem, n - 1);
      xs := [x] + rest;
    }
    /** `_scope++; Deserialize<T>(); _scope--;` */
    method ReadObjectItem(elem: seq<FieldType>) returns (ok: bool, x: Option<Object>)
      requires Valid()
      modifies this, frames
      ensures data == old(data)
      ensures Yields(ReadItem(data, old(Position()), elem), ok, x)
      decreases elem, 4
    {
      scope := scope + 1;
      ok, x := Deserialize(elem);
      if ok {
        scope := scope - 1;
      }
    }

    /** ReadArrayOf<T>(bool) of unmanaged elements: the count, then a block of
        size * count bytes cast to elements. */
    method ReadArrayOfStructs(size: Width) returns (ok: bool, c: Collection<seq<byte>>)
      requires Valid()
      modifies this, frames
      ensures data == old(data)
      ensures Yields(ReadStructArray(data, old(Position()), size), ok, c)
    {
      var length;
      ok, length := ReadInt();
      if !ok {
        return false, Null;
      }
      if length == NullHeader {
        return true, Null;
      }
      if length == 0 {
        return true, Items([]);
      }
      var dataSize := Wrap32(size * length);
      var block;
      ok, block := Slice(dataSize);
      c := if ok then Items(Chunks(block, size)) else Null;
    }

    /** ReadListOf<T>(bool) of unmanaged elements: as the array reader, but
        the elements are added one by one up to the count, which throws when
        the block holds fewer. */
    method ReadListOfStructs(size: Width) returns (ok: bool, c: Collection<seq<byte>>)
      requires Valid()
      modifies this, frames
      ensures data == old(data)
      ensures Yields(ReadStructList(data, old(Position()), size), ok, c)
    {
      var length;
      ok, length := ReadInt();
      if !ok {
        return false, Null;
      }
      if length == NullHeader {
        return true, Null;
      }
      if length == 0 {
        return true, Items([]);
      }
      if length < 0 {
        return false, Null;
      }
      var dataSize := Wrap32(size * length);
      if dataSize < 0 || offset < 0 || offset + dataSize > |data| {
        return false, Null;
      }
      var items := Chunks(data[offset..offset + dataSize], size);
      SpanIsSlice(data, offset, dataSize);
      var list: seq<seq<byte>> := [];
      var i := 0;
      while i < length
        invariant 0 <= i <= length && i <= |items| && list == items[..i]
      {
        if i >= |items| {
          return false, Null;
        }
        list := list + [items[i]];
        i := i + 1;
      }
      Advance(dataSize);
      c := Items(list);
    }

    /** ReadArrayOfStrings and ReadListOfStrings. */
    method ReadArrayOfStrings(enc: Encoding) returns (ok: bool, c: Collection<Option<string>>)
      requires Valid()
      modifies this, frames
      ensures data == old(data)
      ensures Yields(ReadStringArray(data, old(Position()), enc), ok, c)
    {
      var length;
      ok, length := ReadInt();
      if !ok {
        return false, Null;
      }
      if length == NullHeader {
        return true, Null;
      }
      if length == 0 {
        return true, Items([]);
      }
      if length < 0 {
        return false, Null;
      }
      var xs;
      ok, xs := ReadStringsFrom(enc, length);
      c := Items(xs);
    }

    /** The for loop of that reader, from the element it has reached: the
        next string, then the `n - 1` after it. */
    method ReadStringsFrom(enc: Encoding, n: nat) returns (ok: bool, xs: seq<Option<string>>)
      requires Valid()
      modifies this, frames
      ensures data == old(data)
      ensures Yields(ReadStrings(data, old(Position()), enc, n), ok, xs)
      decreases n
    {
      if n == 0 {
        return true, [];
      }
      var x, rest;
      ok, x := ReadString(enc);
      if !ok {
        return false, [];
      }
      ok, rest := ReadStringsFrom(enc, n - 1);
      xs := [x] + rest;
    }
    /** ReadDictionaryOf<T, TV>: structure keys and object values; a key read
        twice throws. */
    method ReadDictionaryOf(keySize: Width, vf: seq<FieldType>) returns (ok: bool, d: Collection<Entry<seq<byte>, Option<Object>>>)
      requires Valid()
      modifies this, frames
      ensures data == old(data)
      ensures Yields(ReadStructObjDict(data, old(Position()), keySize, vf), ok, d)
      decreases vf, 6
    {
      var length;
      ok, length := ReadInt();
      if !ok {
        return false, Null;
      }
      if length == NullHeader {
        return true, Null;
      }
      if length == 0 {
        return true, Items([]);
      }
      if length < 0 {
        return false, Null;
      }
      var es;
      ok, es := ReadStructObjFrom(keySize, vf, length, {});
      d := Items(es);
    }

    /** The for loop of that reader, from the entry it has reached, given
        the keys added before it: the next key and value, then the `n - 1`
        entries after them. */
    method ReadStructObjFrom(keySize: Width, vf: seq<FieldType>, n: nat, keys: set<seq<byte>>) returns (ok: bool, es: seq<Entry<seq<byte>, Option<Object>>>)
      requires Valid()
      modifies this, frames
      ensures data == old(data)
      ensures Yields(ReadStructObjEntries(data, old(Position()), keySize, vf, n, keys), ok, es)
      decreases vf, 5, n
    {
      if n == 0 {
        return true, [];
      }
      var key, val, rest;
      ok, key := ReadStruct(keySize);
      if !ok {
        return false, [];
      }
      ok, val := ReadObjectItem(vf);
      if !ok {
        return false, [];
      }
      if key in keys {
        return false, [];
      }
      ok, rest := ReadStructObjFrom(keySize, vf, n - 1, keys + {key});
      es := [Entry(key, val)] + rest;
    }
    /** ReadDictionaryOf<T>: string keys, read as ASCII, and object values; a
        null key or a key read twice throws. */
    method ReadStringKeyDictionaryOf(vf: seq<FieldType>) returns (ok: bool, d: Collection<Entry<string, Option<Object>>>)
      requires Valid()
      modifies this, frames
      ensures data == old(data)
      ensures Yields(ReadStrObjDict(data, old(Position()), vf), ok, d)
      decreases vf, 6
    {
      var length;
      ok, length := ReadInt();
      if !ok {
        return false, Null;
      }
      if length == NullHeader {
        return true, Null;
      }
      if length == 0 {
        return true, Items([]);
      }
      if length < 0 {
        return false, Null;
      }
      var es;
      ok, es := ReadStrObjFrom(vf, length, {});
      d := Items(es);
    }

    /** The for loop of that reader, from the entry it has reached, given
        the keys added before it: the next key and value, then the `n - 1`
        entries after them. */
    method ReadStrObjFrom(vf: seq<FieldType>, n: nat, keys: set<string>) returns (ok: bool, es: seq<Entry<string, Option<Object>>>)
      requires Valid()
      modifies this, frames
      ensures data == old(data)
      ensures Yields(ReadStrObjEntries(data, old(Position()), vf, n, keys), ok, es)
      decreases vf, 5, n
    {
      if n == 0 {
        return true, [];
      }
      var key, val, rest;
      ok, key := ReadString(ASCII);
      if !ok {
        return false, [];
      }
      ok, val := ReadObjectItem(vf);
      if !ok {
        return false, [];
      }
      if key.None? || key.value in keys {
        return false, [];
      }
      ok, rest := ReadStrObjFrom(vf, n - 1, keys + {key.value});
      es := [Entry(key.value, val)] + rest;
    }
    /** ReadDictionaryOfStructs: string keys, read as ASCII, and structure
        values; a null key or a key read twice throws. */
    method ReadDictionaryOfStructs(valueSize: Width) returns (ok: bool, d: Collection<Entry<string, seq<byte>>>)
      requires Valid()
      modifies this, frames
      ensures data == old(data)
      ensures Yields(ReadStrStructDict(data, old(Position()), valueSize), ok, d)
    {
      var length;
      ok, length := ReadInt();
      if !ok {
        return false, Null;
      }
      if length == NullHeader {
        return true, Null;
      }
      if length == 0 {
        return true, Items([]);
      }
      if length < 0 {
        return false, Null;
      }
      var es;
      ok, es := ReadStrStructFrom(valueSize, length, {});
      d := Items(es);
    }

    /** The for loop of that reader, from the entry it has reached, given
        the keys added before it: the next key and value, then the `n - 1`
        entries after them. */
    method ReadStrStructFrom(valueSize: Width, n: nat, keys: set<string>) returns (ok: bool, es: seq<Entry<string, seq<byte>>>)
      requires Valid()
      modifies this, frames
      ensures data == old(data)
      ensures Yields(ReadStrStructEntries(data, old(Position()), valueSize, n, keys), ok, es)
      decreases n
    {
      if n == 0 {
        return true, [];
      }
      var key, val, rest;
      ok, key := ReadString(ASCII);
      if !ok {
        return false, [];
      }
      ok, val := ReadStruct(valueSize);
      if !ok {
        return false, [];
      }
      if key.None? || key.value in keys {
        return false, [];
      }
      ok, rest := ReadStrStructFrom(valueSize, n - 1, keys + {key.value});
      es := [Entry(key.value, val)] + rest;
    }
    /** ReadDictionaryOfStrings: structure keys and string values; a key read
        twice throws. */
    method ReadDictionaryOfStrings(keySize: Width, enc: Encoding) returns (ok: bool, d: Collection<Entry<seq<byte>, Option<string>>>)
      requires Valid()
      modifies this, frames
      ensures data == old(data)
      ensures Yields(ReadStructStrDict(data, old(Position()), keySize, enc), ok, d)
    {
      var length;
      ok, length := ReadInt();
      if !ok {
        return false, Null;
      }
      if length == NullHeader {
        return true, Null;
      }
      if length == 0 {
        return true, Items([]);
      }
      if length < 0 {
        return false, Null;
      }
      var es;
      ok, es := ReadStructStrFrom(keySize, enc, length, {});
      d := Items(es);
    }

    /** The for loop of that reader, from the entry it has reached, given
        the keys added before it: the next key and value, then the `n - 1`
        entries after them. */
    method ReadStructStrFrom(keySize: Width, enc: Encoding, n: nat, keys: set<seq<byte>>) returns (ok: bool, es: seq<Entry<seq<byte>, Option<string>>>)
      requires Valid()
      modifies this, frames
      ensures data == old(data)
      ensures Yields(ReadStructStrEntries(data, old(Position()), keySize, enc, n, keys), ok, es)
      decreases n
    {
      if n == 0 {
        return true, [];
      }
      var key, val, rest;
      ok, key := ReadStruct(keySize);
      if !ok {
        return false, [];
      }
      ok, val := ReadString(enc);
      if !ok {
        return false, [];
      }
      if key in keys {
        return false, [];
      }
      ok, rest := ReadStructStrFrom(keySize, enc, n - 1, keys + {key});
      es := [Entry(key, val)] + rest;
    }
  }
}
