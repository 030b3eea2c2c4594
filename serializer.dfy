/** LBinarySerializer: the writer. Every write appends to a growable buffer at
    `offset` and charges the bytes to the frame of the current nesting level;
    a nested object reserves its 4-byte size slot, serializes one level
    deeper, and back-patches the slot with the size of its body.

    Growth past Array.MaxLength throws in the source; here every write returns
    `ok`, false exactly when that exception would be raised. The source leaves
    the writer's state unspecified after such an exception and so does the
    model. */
module Serializer {
  import opened Bytes
  import opened Text
  import opened Wire
  import BufferPool

  /** The part of the writer's state that writes change, as a value. */
  datatype Snapshot = Snapshot(bytes: seq<byte>, offset: int, level: int, frames: seq<int>)

  class LBinarySerializer {
    /** _internalBuffer */
    var buffer: array<byte>
    /** _offset: where the next byte goes; past buffer.Length while a reserved
        size slot has not been reached by any write. */
    var offset: int
    /** _level: the nesting depth of the object being written. */
    var level: int
    /** _disposed */
    var disposed: bool
    /** _objectDepthSizes: bytes written so far at each level. */
    const frames: array<int>

    ghost predicate Valid()
      reads this
    {
      && frames.Length == MaxDepthSize
      && 0 <= level < MaxDepthSize
      && 0 <= offset
      && buffer.Length <= MaxArrayLength
    }

    /** A write of the bytes `e` may start: the writer is valid, the objects it
        nests fit in the remaining frames, and, when the write reaches an
        ASCII or UTF-16 string body (copied without growing the buffer), the
        buffer already has room for all of `e`. */
    ghost predicate CanWrite(e: seq<byte>, depth: nat, unchecked: bool)
      reads this
    {
      && Valid()
      && level + depth < MaxDepthSize
      && (unchecked ==> offset + |e| <= buffer.Length)
    }

    /** The effect of writing `e`: it fails exactly when the buffer would have
        to grow past Array.MaxLength; when it succeeds, `e` sits at the old
        offset, the offset moved past it, nothing written before changed, the
        level is back where it was, the frame of a nested level grew by |e|,
        the frames of the enclosing levels are untouched, and the buffer did
        not shrink. */
    twostate predicate Appended(e: seq<byte>, ok: bool)
      reads this, buffer, frames
    {
      && Valid()
      && disposed == old(disposed)
      && (buffer == old(buffer) || fresh(buffer))
      && (ok <==> old(offset) + |e| <= MaxArrayLength)
      && (ok ==>
            && level == old(level)
            && 0 <= old(offset) && offset == old(offset) + |e| <= buffer.Length
            && (forall i | 0 <= i < |e| :: buffer[old(offset) + i] == e[i])
            && (forall i | 0 <= i < old(offset) && i < old(buffer.Length) :: buffer[i] == old(buffer[i]))
            // frames[0] is left free: the writer only reads a frame at
            // level 1 or deeper, when FinishObject takes an object's size
            && (level > 0 ==> frames[level] == old(frames[level]) + |e|)
            && (forall i | 0 <= i < level :: frames[i] == old(frames[i]))
            && buffer.Length >= old(buffer.Length))
    }

    /** The current state as a value, to compare later states against. */
    ghost function Snap(): Snapshot
      reads this, buffer, frames
    {
      Snapshot(buffer[..], offset, level, frames[..])
    }

    /** Since the state `s`, exactly `w` was appended: the one-state form of
        Appended that the collection loops carry. */
    ghost predicate Since(s: Snapshot, w: seq<byte>)
      reads this, buffer, frames
    {
      && Valid()
      && |s.frames| == frames.Length && level == s.level && 0 <= s.offset
      && offset == s.offset + |w| && buffer.Length >= |s.bytes|
      && (forall i | 0 <= i < |w| :: s.offset + i < buffer.Length && buffer[s.offset + i] == w[i])
      && (forall i | 0 <= i < s.offset && i < |s.bytes| :: buffer[i] == s.bytes[i])
      && (level > 0 ==> frames[level] == s.frames[level] + |w|)
      && (forall i | 0 <= i < level :: frames[i] == s.frames[i])
    }

    /** A successful write after `w` extends `w`. */
    twostate lemma SinceThen(new s: Snapshot, new w: seq<byte>, new e: seq<byte>)
      requires old(Since(s, w)) && Appended(e, true)
      ensures Since(s, w + e)
    {
    }

    /** A failed write after `w` means that `w`, that write and anything
        after it do not fit. */
    twostate lemma SinceFailed(new s: Snapshot, new w: seq<byte>, new e: seq<byte>, new total: seq<byte>)
      requires old(Since(s, w)) && Appended(e, false) && |total| >= |w| + |e|
      ensures s.offset + |total| > MaxArrayLength
    {
    }

    /** What was appended since the start of a method is what the method
        appended. */
    twostate lemma SinceStart(w: seq<byte>)
      requires Since(old(Snap()), w) && offset <= buffer.Length
      requires disposed == old(disposed) && (buffer == old(buffer) || fresh(buffer))
      ensures Appended(w, true)
    {
    }

    /** One step of a collection loop that had appended `w` since `s`: it
        appended `e` after `w` without shrinking the buffer, or it failed
        because `w` and `e` together do not fit. */
    twostate predicate Extended(s: Snapshot, w: seq<byte>, e: seq<byte>, ok: bool)
      reads this, buffer, frames
    {
      && Valid() && disposed == old(disposed) && (buffer == old(buffer) || fresh(buffer))
      && (ok ==> Since(s, w + e) && offset == old(offset) + |e| <= buffer.Length && buffer.Length >= old(buffer.Length))
      && (!ok ==> s.offset + |w| + |e| > MaxArrayLength)
    }

    /** Nothing was written: the whole writer state is as it was. */
    twostate predicate Unmoved()
      reads this, buffer, frames
    {
      && Valid()
      && buffer == old(buffer) && offset == old(offset) && level == old(level)
      && disposed == old(disposed)
      && unchanged(buffer) && unchanged(frames)
    }

    /** new LBinarySerializer(bufferSize) */
    constructor(bufferSize: nat)
      requires bufferSize <= MaxArrayLength
      ensures Valid() && fresh(buffer) && fresh(frames)
      ensures bufferSize <= buffer.Length
      ensures offset == 0 && level == 0 && !disposed
    {
      var cached := BufferPool.GetCachedBuffer(bufferSize);
      buffer := cached;
      offset := 0;
      level := 0;
      disposed := false;
      frames := new int[MaxDepthSize];
    }

    /** Reset: rewind to an empty stream. Throws once disposed (ok == false).
        The frames are left as they are: each is zeroed when its level is
        entered. */
    method Reset() returns (ok: bool)
      requires Valid()
      modifies this
      ensures Valid()
      ensures ok <==> !old(disposed)
      ensures ok ==> offset == 0 && level == 0
      ensures !ok ==> offset == old(offset) && level == old(level)
      ensures buffer == old(buffer) && disposed == old(disposed)
    {
      if disposed {
        return false;
      }
      offset := 0;
      level := 0;
      ok := true;
    }

    /** Dispose: marks the writer disposed (the buffer goes back to the pool). */
    method Dispose()
      modifies this
      ensures disposed
      ensures buffer == old(buffer) && offset == old(offset) && level == old(level)
    {
      if !disposed {
        disposed := true;
      }
    }

    /** ToArray: a fresh copy of the bytes written so far (empty when nothing was). */
    method ToArray() returns (r: array<byte>)
      requires Valid() && offset <= buffer.Length
      ensures fresh(r)
      ensures r[..] == buffer[..offset]
    {
      if offset == 0 {
        r := new byte[0];
        return;
      }
      r := new byte[offset];
      forall i | 0 <= i < offset {
        r[i] := buffer[i];
      }
    }

    /** ToMemory: the bytes written so far, as a view of the buffer. */
    method ToMemory() returns (r: seq<byte>)
      requires Valid() && offset <= buffer.Length
      ensures |r| == offset
      ensures forall i | 0 <= i < offset :: r[i] == buffer[i]
    {
      r := buffer[..offset];
    }

    // ------------------------------------------------------------ raw writes

    /** WriteOneByte */
    method WriteOneByte(value: byte) returns (ok: bool)
      requires Valid()
      modifies this, buffer, frames
      ensures Appended([value], ok)
    {
      var grown, fits := BufferPool.EnsureCapacity(buffer, offset, ByteSize);
      if !fits {
        return false;
      }
      buffer := grown;
      buffer[offset] := value;
      offset := offset + 1;
      frames[level] := frames[level] + 1;
      ok := true;
    }

    /** WriteToStream(ReadOnlySpan<byte>): append a span. */
    method WriteSpan(bytes: seq<byte>) returns (ok: bool)
      requires Valid()
      modifies this, buffer, frames
      ensures Appended(bytes, ok)
    {
      var grown, fits := BufferPool.EnsureCapacity(buffer, offset, |bytes|);
      if !fits {
        return false;
      }
      buffer := grown;
      forall i | 0 <= i < |bytes| {
        buffer[offset + i] := bytes[i];
      }
      offset := offset + |bytes|;
      frames[level] := frames[level] + |bytes|;
      ok := true;
    }

    /** WriteToStream(byte[]): append an array; up to 8 bytes are copied one
        at a time from the last to the first, longer arrays in one block. */
    method WriteBytes(bytes: seq<byte>) returns (ok: bool)
      requires Valid()
      modifies this, buffer, frames
      ensures Appended(bytes, ok)
    {
      var length := |bytes|;
      var grown, fits := BufferPool.EnsureCapacity(buffer, offset, length);
      if !fits {
        return false;
      }
      buffer := grown;
      if length <= 8 {
        ghost var before := buffer[..];
        var byteCount := length;
        while byteCount > 0
          modifies buffer
          invariant 0 <= byteCount <= length
          invariant forall j | byteCount <= j < length :: buffer[offset + j] == bytes[j]
          invariant forall j | 0 <= j < buffer.Length && !(offset + byteCount <= j < offset + length) :: buffer[j] == before[j]
        {
          byteCount := byteCount - 1;
          buffer[offset + byteCount] := bytes[byteCount];
        }
      } else {
        forall i | 0 <= i < length {
          buffer[offset + i] := bytes[i];
        }
      }
      offset := offset + length;
      frames[level] := frames[level] + length;
      ok := true;
    }

    /** WriteToStream(buffer, position, size, updateOffset): copy the first
        `size` bytes (all of them when size <= 0) to `position`, moving the
        offset and charging the frame only when asked to. */
    method WriteAt(bytes: seq<byte>, position: nat, size: int, updateOffset: bool) returns (ok: bool)
      requires Valid() && size <= |bytes|
      modifies this, buffer, frames
      ensures Valid() && disposed == old(disposed) && level == old(level)
      ensures buffer == old(buffer) || fresh(buffer)
      ensures buffer.Length >= old(buffer.Length)
      ensures var length := if size > 0 then size else |bytes|;
        && (ok <==> position + length <= MaxArrayLength)
        && (forall i | 0 <= i < position && i < old(buffer.Length) :: buffer[i] == old(buffer[i]))
        && (ok ==> position + length <= buffer.Length && buffer[position..position + length] == bytes[..length])
        && (position + length <= old(buffer.Length) ==>
              buffer == old(buffer)
              && forall i | 0 <= i < buffer.Length && !(position <= i < position + length) :: buffer[i] == old(buffer[i]))
        && (ok && updateOffset ==> offset == old(offset) + length && frames[level] == old(frames[level]) + length)
        && (!(ok && updateOffset) ==> offset == old(offset) && frames[level] == old(frames[level]))
      ensures forall i | 0 <= i < frames.Length && i != level :: frames[i] == old(frames[i])
    {
      var length := if size > 0 then size else |bytes|;
      var grown, fits := BufferPool.EnsureCapacity(buffer, position, length);
      if !fits {
        return false;
      }
      buffer := grown;
      forall i | 0 <= i < length {
        buffer[position + i] := bytes[i];
      }
      if updateOffset {
        offset := offset + length;
        frames[level] := frames[level] + length;
      }
      ok := true;
    }

    /** WriteHeader(value, position) and Write(int, position): patch a 4-byte
        little-endian int at an earlier position. */
    method WriteHeader(value: int, position: nat) returns (ok: bool)
      requires Valid()
      modifies this, buffer, frames
      ensures Valid() && disposed == old(disposed) && level == old(level) && offset == old(offset)
      ensures buffer == old(buffer) || fresh(buffer)
      ensures buffer.Length >= old(buffer.Length)
      ensures ok <==> position + IntSize <= MaxArrayLength
      ensures forall i | 0 <= i < position && i < old(buffer.Length) :: buffer[i] == old(buffer[i])
      ensures ok ==> position + IntSize <= buffer.Length && buffer[position..position + IntSize] == Header(value)
      ensures position + IntSize <= old(buffer.Length) ==>
        buffer == old(buffer)
        && forall i | 0 <= i < buffer.Length && !(position <= i < position + IntSize) :: buffer[i] == old(buffer[i])
      ensures forall i | 0 <= i < frames.Length :: frames[i] == old(frames[i])
    {
      ok := WriteAt(Header(value), position, -1, false);
    }

    // ------------------------------------------------------------ primitives

    /** Write(bool): one byte, 1 for true and 0 for false. */
    method WriteBool(value: bool) returns (ok: bool)
      requires Valid()
      modifies this, buffer, frames
      ensures Appended([if value then 1 else 0], ok)
    {
      ok := WriteOneByte(if value then 1 else 0);
    }

    /** Write(byte) */
    method WriteByte(value: byte) returns (ok: bool)
      requires Valid()
      modifies this, buffer, frames
      ensures Appended([value], ok)
    {
      ok := WriteOneByte(value);
    }

    /** Write(int): four bytes, little-endian. The value is a C# int; the model
        lays out its low 32 bits, which for an int is the value itself. */
    method WriteInt(value: int) returns (ok: bool)
      requires Valid()
      modifies this, buffer, frames
      ensures Appended(Int32Bytes(value), ok)
    {
      ok := WriteSpan(Int32Bytes(value));
    }

    /** Write(uint) */
    method WriteUInt(value: int) returns (ok: bool)
      requires Valid() && Unsigned(value, IntSize)
      modifies this, buffer, frames
      ensures Appended(LittleEndian(value, IntSize), ok)
    {
      ok := WriteSpan(LittleEndian(value, IntSize));
    }

    /** Write(short) */
    method WriteShort(value: int) returns (ok: bool)
      requires Valid() && Signed(value, ShortSize)
      modifies this, buffer, frames
      ensures Appended(SignedLittleEndian(value, ShortSize), ok)
    {
      ok := WriteSpan(SignedLittleEndian(value, ShortSize));
    }

    /** Write(ushort) */
    method WriteUShort(value: int) returns (ok: bool)
      requires Valid() && Unsigned(value, ShortSize)
      modifies this, buffer, frames
      ensures Appended(LittleEndian(value, ShortSize), ok)
    {
      ok := WriteSpan(LittleEndian(value, ShortSize));
    }

    /** Write(long) */
    method WriteLong(value: int) returns (ok: bool)
      requires Valid() && Signed(value, LongSize)
      modifies this, buffer, frames
      ensures Appended(SignedLittleEndian(value, LongSize), ok)
    {
      ok := WriteSpan(SignedLittleEndian(value, LongSize));
    }

    /** Write(ulong) */
    method WriteULong(value: int) returns (ok: bool)
      requires Valid() && Unsigned(value, LongSize)
      modifies this, buffer, frames
      ensures Appended(LittleEndian(value, LongSize), ok)
    {
      ok := WriteSpan(LittleEndian(value, LongSize));
    }

    /** Write(float), given the IEEE 754 bit pattern of the value. */
    method WriteFloat(bits: int) returns (ok: bool)
      requires Valid() && Unsigned(bits, FloatSize)
      modifies this, buffer, frames
      ensures Appended(LittleEndian(bits, FloatSize), ok)
    {
      ok := WriteSpan(LittleEndian(bits, FloatSize));
    }

    /** Write(double), given the IEEE 754 bit pattern of the value. */
    method WriteDouble(bits: int) returns (ok: bool)
      requires Valid() && Unsigned(bits, DoubleSize)
      modifies this, buffer, frames
      ensures Appended(LittleEndian(bits, DoubleSize), ok)
    {
      ok := WriteSpan(LittleEndian(bits, DoubleSize));
    }

    /** Write(decimal), given the four ints of decimal.GetBits: 16 bytes. */
    method WriteDecimal(lo: int, mid: int, hi: int, flags: int) returns (ok: bool)
      requires Valid() && IsInt32(lo) && IsInt32(mid) && IsInt32(hi) && IsInt32(flags)
      modifies this, buffer, frames
      ensures Appended(Int32Bytes(lo) + Int32Bytes(mid) + Int32Bytes(hi) + Int32Bytes(flags), ok)
    {
      ok := WriteSpan(Int32Bytes(lo) + Int32Bytes(mid) + Int32Bytes(hi) + Int32Bytes(flags));
    }

    /** Write(Half), given the IEEE 754 bit pattern of the value. */
    method WriteHalf(bits: int) returns (ok: bool)
      requires Valid() && Unsigned(bits, ShortSize)
      modifies this, buffer, frames
      ensures Appended(LittleEndian(bits, ShortSize), ok)
    {
      ok := WriteSpan(LittleEndian(bits, ShortSize));
    }

    /** Write(Guid), given the 16 bytes of Guid.TryWriteBytes, written in place. */
    method WriteGuid(guid: seq<byte>) returns (ok: bool)
      requires Valid() && |guid| == GuidSize
      modifies this, buffer, frames
      ensures Appended(guid, ok)
    {
      var grown, fits := BufferPool.EnsureCapacity(buffer, offset, GuidSize);
      if !fits {
        return false;
      }
      buffer := grown;
      forall i | 0 <= i < GuidSize {
        buffer[offset + i] := guid[i];
      }
      offset := offset + GuidSize;
      frames[level] := frames[level] + GuidSize;
      ok := true;
    }

    /** WriteEnum: the enum's 4-byte underlying int, written in place. */
    method WriteEnum(value: int) returns (ok: bool)
      requires Valid() && IsInt32(value)
      modifies this, buffer, frames
      ensures Appended(Int32Bytes(value), ok)
    {
      var grown, fits := BufferPool.EnsureCapacity(buffer, offset, IntSize);
      if !fits {
        return false;
      }
      buffer := grown;
      var bytes := Int32Bytes(value);
      forall i | 0 <= i < IntSize {
        buffer[offset + i] := bytes[i];
      }
      offset := offset + IntSize;
      frames[level] := frames[level] + IntSize;
      ok := true;
    }

    /** Write(DateTime): the Kind as an enum, then the ticks: 12 bytes. */
    method WriteDateTime(kind: int, ticks: int) returns (ok: bool)
      requires Valid() && IsInt32(kind) && Signed(ticks, LongSize)
      modifies this, buffer, frames
      ensures Appended(Int32Bytes(kind) + SignedLittleEndian(ticks, LongSize), ok)
    {
      ok := WriteEnum(kind);
      if !ok {
        return;
      }
      ok := WriteLong(ticks);
    }

    /** Write(DateTimeOffset): the ticks, then the offset as a TimeSpan: 16 bytes. */
    method WriteDateTimeOffset(ticks: int, offsetTicks: int) returns (ok: bool)
      requires Valid() && Signed(ticks, LongSize) && Signed(offsetTicks, LongSize)
      modifies this, buffer, frames
      ensures Appended(SignedLittleEndian(ticks, LongSize) + SignedLittleEndian(offsetTicks, LongSize), ok)
    {
      ok := WriteLong(ticks);
      if !ok {
        return;
      }
      ok := WriteTimeSpan(offsetTicks);
    }

    /** Write(TimeSpan): its ticks as a long. */
    method WriteTimeSpan(ticks: int) returns (ok: bool)
      requires Valid() && Signed(ticks, LongSize)
      modifies this, buffer, frames
      ensures Appended(SignedLittleEndian(ticks, LongSize), ok)
    {
      ok := WriteLong(ticks);
    }

    /** Write(char): the UTF-16 code unit cast to a short, so its two bytes
        are the unit's own little-endian bytes. */
    method WriteChar(unit: int) returns (ok: bool)
      requires Valid() && Unsigned(unit, ShortSize)
      modifies this, buffer, frames
      ensures Appended(LittleEndian(unit, ShortSize), ok)
    {
      UnsignedAsSigned(unit, ShortSize);
      ok := WriteShort(if unit < SignedBound(ShortSize) then unit else unit - Pow256(ShortSize));
    }

    // ------------------------------------------------------------ strings and structures

    /** Write(string, encoding): -1 for null, 0 for empty, otherwise the size
        header (the character count for ASCII, the byte count otherwise) and
        the encoded body. UTF-8 and UTF-32 bodies grow the buffer first; ASCII
        and UTF-16 bodies are copied into it as it is. */
    method WriteString(s: Option<string>, enc: Encoding) returns (ok: bool)
      requires CanWrite(EncString(s, enc), 0, UncheckedString(s, enc))
      modifies this, buffer, frames
      ensures Appended(EncString(s, enc), ok)
    {
      if s.None? {
        ok := WriteInt(NullHeader);
        return;
      }
      if s.value == [] {
        ok := WriteInt(0);
        return;
      }
      ok := WriteStringBody(s.value, enc);
    }

    /** The non-empty case of Write(string, encoding): the size header, then
        the encoded characters. */
    method WriteStringBody(value: string, enc: Encoding) returns (ok: bool)
      requires value != [] && CanWrite(EncString(Some(value), enc), 0, UncheckedString(Some(value), enc))
      modifies this, buffer, frames
      ensures Appended(EncString(Some(value), enc), ok)
    {
      var body := Encode(value, enc);
      var stringSize := HeaderValue(value, enc);
      ok := WriteInt(stringSize);
      if !ok {
        return;
      }
      if enc == UTF8 || enc == UTF32 {
        ok := WriteSpan(body);
      } else {
        CopyIn(body);
      }
    }

    /** Encoding straight into the buffer, which already has room. */
    method CopyIn(bytes: seq<byte>)
      requires Valid() && offset + |bytes| <= buffer.Length
      modifies this, buffer, frames
      ensures Appended(bytes, true)
    {
      forall i | 0 <= i < |bytes| {
        buffer[offset + i] := bytes[i];
      }
      offset := offset + |bytes|;
      frames[level] := frames[level] + |bytes|;
    }

    /** WriteStructure: the structure's size, then its raw bytes. */
    method WriteStructure(raw: seq<byte>) returns (ok: bool)
      requires Valid()
      modifies this, buffer, frames
      ensures Appended(EncStruct(raw), ok)
    {
      var size := |raw|;
      ok := WriteInt(size);
      if !ok {
        return;
      }
      var grown, fits := BufferPool.EnsureCapacity(buffer, offset, size);
      if !fits {
        return false;
      }
      buffer := grown;
      forall i | 0 <= i < size {
        buffer[offset + i] := raw[i];
      }
      offset := offset + size;
      frames[level] := frames[level] + size;
    }

    // ------------------------------------------------------------ objects

    /** Write<T>(T): -1 for null; otherwise reserve the 4-byte size slot,
        serialize the object one level deeper, restore the level, charge the
        parent frame with body + 4 when the parent is nested, and back-patch
        the slot with the body size. */
    method WriteObject(o: Option<Object>) returns (ok: bool)
      requires CanWrite(EncObj(o), ObjDepth(o), UncheckedObj(o))
      modifies this, buffer, frames
      ensures Appended(EncObj(o), ok)
      decreases o, 2
    {
      if o.None? {
        ok := WriteInt(NullHeader);
        return;
      }
      ghost var start := Snap();
      var initialObjectOffset := offset;
      offset := offset + IntSize;
      level := level + 1;
      frames[level] := 0;
      ok := WriteFields(o.value.fields);
      if !ok {
        return;
      }
      ok := FinishObject(initialObjectOffset, start, EncFields(o.value.fields));
      if ok {
        SinceStart(EncObj(o));
      }
    }

    /** The end of Write<T>(T): leave the object's level, charge the parent
        frame with the body and its slot, and back-patch the slot at
        `initial` with the body size, so that the slot and the body
        together follow what stood before the object. */
    method FinishObject(initial: nat, ghost s: Snapshot, ghost body: seq<byte>) returns (ok: bool)
      requires Valid() && 1 <= level && s.level == level - 1 && |s.frames| == frames.Length
      requires s.offset == initial && offset == initial + IntSize + |body| && buffer.Length >= |s.bytes|
      requires body != [] ==> offset <= buffer.Length
      requires frames[level] == |body|
      requires forall i | 0 <= i < |body| :: buffer[initial + IntSize + i] == body[i]
      requires forall i | 0 <= i < initial && i < |s.bytes| :: buffer[i] == s.bytes[i]
      requires forall i | 0 <= i < level :: frames[i] == s.frames[i]
      modifies this, buffer, frames
      ensures Valid() && disposed == old(disposed) && (buffer == old(buffer) || fresh(buffer))
      ensures ok <==> initial + IntSize + |body| <= MaxArrayLength
      ensures ok ==> Since(s, Header(|body|) + body) && offset <= buffer.Length
    {
      var objSize := frames[level];
      level := level - 1;
      if level > 0 {
        frames[level] := frames[level] + objSize + IntSize;
      }
      ok := WriteHeader(objSize, initial);
    }

    /** The writes of one ILBinarySerializable.Serialize call, in order. */
    method WriteFields(vs: seq<Value>) returns (ok: bool)
      requires CanWrite(EncFields(vs), FieldsDepth(vs), UncheckedFields(vs))
      modifies this, buffer, frames
      ensures vs == [] ==> ok && Unmoved()
      ensures vs != [] ==> Appended(EncFields(vs), ok)
      decreases vs, 1
    {
      ghost var start := Snap();
      ghost var written: seq<byte> := [];
      var i := 0;
      while i < |vs|
        invariant 0 <= i <= |vs|
        invariant EncFields(vs) == written + EncFields(vs[i..])
        invariant FieldsDepth(vs[i..]) <= FieldsDepth(vs)
        invariant UncheckedFields(vs[i..]) ==> offset + |EncFields(vs[i..])| <= buffer.Length
        invariant i == 0 ==> Unmoved()
        invariant Since(start, written)
        invariant i > 0 ==> offset <= buffer.Length
        invariant disposed == old(disposed) && (buffer == old(buffer) || fresh(buffer))
      {
        assert vs[i..][0] == vs[i] && vs[i..][1..] == vs[i + 1..];
        ok := WriteField(vs[i], start, written);
        if !ok {
          return;
        }
        AppendAssoc(written, EncValue(vs[i]), EncFields(vs[i + 1..]));
        written := written + EncValue(vs[i]);
        i := i + 1;
      }
      if vs != [] {
        SinceStart(written);
      }
      ok := true;
    }

    /** One iteration of that loop. */
    method WriteField(v: Value, ghost start: Snapshot, ghost written: seq<byte>) returns (ok: bool)
      requires Since(start, written)
      requires level + ValueDepth(v) < MaxDepthSize
      requires Unchecked(v) ==> offset + |EncValue(v)| <= buffer.Length
      modifies this, buffer, frames
      ensures Extended(start, written, EncValue(v), ok)
      decreases v, 4
    {
      ok := WriteValue(v);
      if !ok {
        SinceFailed(start, written, EncValue(v), written + EncValue(v));
        return;
      }
      SinceThen(start, written, EncValue(v));
    }

    /** One write call of a Serialize method, dispatched on what it writes. */
    method WriteValue(v: Value) returns (ok: bool)
      requires CanWrite(EncValue(v), ValueDepth(v), Unchecked(v))
      modifies this, buffer, frames
      ensures Appended(EncValue(v), ok)
      decreases v, 3
    {
      match v
      case FixedV(b) => ok := WriteSpan(b);
      case StrV(enc, s) => ok := WriteString(s, enc);
      case StructV(b) => ok := WriteStructure(b);
      case ObjV(o) => ok := WriteObject(o);
      case ObjArrayV(c) => ok := WriteObjects(c);
      case StructArrayV(c) => ok := WriteStructs(c);
      case StrArrayV(enc, c) => ok := WriteStrings(c, enc);
      case StructKeyObjDictV(c) => ok := WriteStructObjDictionary(c);
      case StrKeyObjDictV(c) => ok := WriteStrObjDictionary(c);
      case StrKeyStructDictV(c) => ok := WriteStrStructDictionary(c);
      case StructKeyStrDictV(enc, c) => ok := WriteStructStrDictionary(c, enc);
    }

    // ------------------------------------------------------------ arrays and lists

    /** Write<T>(T?[]) and Write<T>(IList<T>) of objects: -1 for null, 0 for
        empty, otherwise the count and then each element as a nested object. */
    method WriteObjects(c: Collection<Option<Object>>) returns (ok: bool)
      requires CanWrite(EncValue(ObjArrayV(c)), ValueDepth(ObjArrayV(c)), Unchecked(ObjArrayV(c)))
      modifies this, buffer, frames
      ensures Appended(EncValue(ObjArrayV(c)), ok)
      decreases c, 2
    {
      if c.Null? {
        ok := WriteInt(NullHeader);
        return;
      }
      var xs := c.items;
      if |xs| == 0 {
        ok := WriteInt(0);
        return;
      }
      ok := WriteObjectItems(xs, ObjPartsOf(xs));
    }

    /** The element count that opens a collection, as the first step of its loop. */
    method WriteCount(n: int, ghost start: Snapshot) returns (ok: bool)
      requires Since(start, [])
      modifies this, buffer, frames
      ensures Extended(start, [], Header(n), ok)
    {
      ok := WriteInt(n);
      if !ok {
        SinceFailed(start, [], Header(n), Header(n));
        return;
      }
      SinceThen(start, [], Header(n));
    }

    /** The element count and the foreach loop of the object array and list
        writers: each element as a nested object. */
    method WriteObjectItems(xs: seq<Option<Object>>, ghost parts: seq<seq<byte>>) returns (ok: bool)
      requires Valid() && xs != [] && ObjParts(xs, parts)
      requires level + ObjsDepth(xs) < MaxDepthSize
      requires UncheckedObjs(xs) ==> offset + IntSize + |Concat(parts)| <= buffer.Length
      modifies this, buffer, frames
      ensures Appended(Header(|xs|) + Concat(parts), ok)
      decreases xs, 2
    {
      ghost var start := Snap();
      ok := WriteCount(|xs|, start);
      if !ok {
        return;
      }
      assert [] + Header(|xs|) == Header(|xs|);
      ok := WriteObjectLoop(xs, parts, start, Header(|xs|));
      if ok {
        SinceStart(Header(|xs|) + Concat(parts));
      }
    }

    /** The foreach loop itself, after `prefix` was appended since `start`. */
    method WriteObjectLoop(xs: seq<Option<Object>>, ghost parts: seq<seq<byte>>, ghost start: Snapshot, ghost prefix: seq<byte>)
      returns (ok: bool)
      requires Since(start, prefix) && offset <= buffer.Length && ObjParts(xs, parts)
      requires level + ObjsDepth(xs) < MaxDepthSize
      requires UncheckedObjs(xs) ==> offset + |Concat(parts)| <= buffer.Length
      modifies this, buffer, frames
      ensures Extended(start, prefix, Concat(parts), ok)
      decreases xs, 1
    {
      ghost var written := prefix;
      var i := 0;
      while i < |xs|
        invariant 0 <= i <= |xs|
        invariant prefix + Concat(parts) == written + Concat(parts[i..])
        invariant ObjsDepth(xs[i..]) <= ObjsDepth(xs)
        invariant UncheckedObjs(xs[i..]) ==> offset + |Concat(parts[i..])| <= buffer.Length
        invariant Since(start, written) && offset <= buffer.Length
        invariant disposed == old(disposed) && (buffer == old(buffer) || fresh(buffer))
        invariant buffer.Length >= old(buffer.Length)
      {
        assert xs[i..][0] == xs[i] && xs[i..][1..] == xs[i + 1..];
        assert parts[i..][0] == parts[i] && parts[i..][1..] == parts[i + 1..];
        ok := WriteObjectItem(xs, i, parts, start, written);
        if !ok {
          return;
        }
        AppendAssoc(written, parts[i], Concat(parts[i + 1..]));
        written := written + parts[i];
        i := i + 1;
      }
      assert parts[i..] == [];
      ok := true;
    }

    /** One iteration of that loop. */
    method WriteObjectItem(xs: seq<Option<Object>>, i: nat, ghost parts: seq<seq<byte>>, ghost start: Snapshot, ghost written: seq<byte>)
      returns (ok: bool)
      requires ObjParts(xs, parts) && i < |xs|
      requires Since(start, written)
      requires level + ObjDepth(xs[i]) < MaxDepthSize
      requires UncheckedObj(xs[i]) ==> offset + |parts[i]| <= buffer.Length
      modifies this, buffer, frames
      ensures Extended(start, written, parts[i], ok)
      decreases xs, 0
    {
      assert parts[i] == EncObj(xs[i]);
      ok := WriteObject(xs[i]);
      if !ok {
        SinceFailed(start, written, parts[i], written + parts[i]);
        return;
      }
      SinceThen(start, written, parts[i]);
    }

    /** Write<T>(T[]) and Write<T>(IList<T>) of unmanaged elements: -1 for
        null, 0 for empty, otherwise the count and then all elements as one
        block, with no per-element header. */
    method WriteStructs(c: Collection<seq<byte>>) returns (ok: bool)
      requires Valid()
      modifies this, buffer, frames
      ensures Appended(EncValue(StructArrayV(c)), ok)
    {
      if c.Null? {
        ok := WriteInt(NullHeader);
        return;
      }
      var xs := c.items;
      if |xs| == 0 {
        ok := WriteInt(0);
        return;
      }
      ok := WriteInt(|xs|);
      if !ok {
        return;
      }
      ok := WriteSpan(Concat(xs));
    }

    /** Write(string[]) and Write(IList<string>): -1 for null, 0 for empty,
        otherwise the count and then each string in the given encoding. */
    method WriteStrings(c: Collection<Option<string>>, enc: Encoding) returns (ok: bool)
      requires CanWrite(EncValue(StrArrayV(enc, c)), 0, Unchecked(StrArrayV(enc, c)))
      modifies this, buffer, frames
      ensures Appended(EncValue(StrArrayV(enc, c)), ok)
    {
      if c.Null? {
        ok := WriteInt(NullHeader);
        return;
      }
      var xs := c.items;
      if |xs| == 0 {
        ok := WriteInt(0);
        return;
      }
      ok := WriteStringItems(xs, enc, StringPartsOf(xs, enc));
    }

    /** The element count and the foreach loop of the string array and list writers. */
    method WriteStringItems(xs: seq<Option<string>>, enc: Encoding, ghost parts: seq<seq<byte>>) returns (ok: bool)
      requires Valid() && xs != [] && StringParts(xs, parts, enc)
      requires UncheckedStrings(xs, enc) ==> offset + IntSize + |Concat(parts)| <= buffer.Length
      modifies this, buffer, frames
      ensures Appended(Header(|xs|) + Concat(parts), ok)
    {
      ghost var start := Snap();
      ok := WriteCount(|xs|, start);
      if !ok {
        return;
      }
      assert [] + Header(|xs|) == Header(|xs|);
      ok := WriteStringLoop(xs, enc, parts, start, Header(|xs|));
      if ok {
        SinceStart(Header(|xs|) + Concat(parts));
      }
    }

    /** The foreach loop itself, after `prefix` was appended since `start`. */
    method WriteStringLoop(xs: seq<Option<string>>, enc: Encoding, ghost parts: seq<seq<byte>>, ghost start: Snapshot, ghost prefix: seq<byte>)
      returns (ok: bool)
      requires Since(start, prefix) && offset <= buffer.Length && StringParts(xs, parts, enc)
      requires UncheckedStrings(xs, enc) ==> offset + |Concat(parts)| <= buffer.Length
      modifies this, buffer, frames
      ensures Extended(start, prefix, Concat(parts), ok)
    {
      ghost var written := prefix;
      var i := 0;
      while i < |xs|
        invariant 0 <= i <= |xs|
        invariant prefix + Concat(parts) == written + Concat(parts[i..])
        invariant UncheckedStrings(xs[i..], enc) ==> offset + |Concat(parts[i..])| <= buffer.Length
        invariant Since(start, written) && offset <= buffer.Length
        invariant disposed == old(disposed) && (buffer == old(buffer) || fresh(buffer))
        invariant buffer.Length >= old(buffer.Length)
      {
        assert xs[i..][0] == xs[i] && xs[i..][1..] == xs[i + 1..];
        assert parts[i..][0] == parts[i] && parts[i..][1..] == parts[i + 1..];
        ok := WriteStringItem(xs, enc, i, parts, start, written);
        if !ok {
          return;
        }
        AppendAssoc(written, parts[i], Concat(parts[i + 1..]));
        written := written + parts[i];
        i := i + 1;
      }
      assert parts[i..] == [];
      ok := true;
    }

    /** One iteration of that loop. */
    method WriteStringItem(xs: seq<Option<string>>, enc: Encoding, i: nat, ghost parts: seq<seq<byte>>, ghost start: Snapshot, ghost written: seq<byte>)
      returns (ok: bool)
      requires StringParts(xs, parts, enc) && i < |xs|
      requires Since(start, written)
      requires UncheckedString(xs[i], enc) ==> offset + |parts[i]| <= buffer.Length
      modifies this, buffer, frames
      ensures Extended(start, written, parts[i], ok)
    {
      assert parts[i] == EncString(xs[i], enc);
      ok := WriteString(xs[i], enc);
      if !ok {
        SinceFailed(start, written, parts[i], written + parts[i]);
        return;
      }
      SinceThen(start, written, parts[i]);
    }

    // ------------------------------------------------------------ dictionaries

    /** Write<T, TV>(IDictionary<T, TV>): -1 for null, 0 for empty, otherwise
        the count and then, per entry, the key as a structure and the value as
        a nested object. */
    method WriteStructObjDictionary(c: Collection<Entry<seq<byte>, Option<Object>>>) returns (ok: bool)
      requires CanWrite(EncValue(StructKeyObjDictV(c)), ValueDepth(StructKeyObjDictV(c)), Unchecked(StructKeyObjDictV(c)))
      modifies this, buffer, frames
      ensures Appended(EncValue(StructKeyObjDictV(c)), ok)
      decreases c, 2
    {
      if c.Null? {
        ok := WriteInt(NullHeader);
        return;
      }
      var xs := c.items;
      if |xs| == 0 {
        ok := WriteInt(0);
        return;
      }
      ok := WriteStructObjEntries(xs, StructObjPartsOf(xs));
    }

    /** The element count and the foreach loop of the structure-keyed
        object dictionary writer. */
    method WriteStructObjEntries(xs: seq<Entry<seq<byte>, Option<Object>>>, ghost parts: seq<seq<byte>>) returns (ok: bool)
      requires Valid() && xs != [] && StructObjParts(xs, parts)
      requires level + StructObjEntriesDepth(xs) < MaxDepthSize
      requires UncheckedStructObjEntries(xs) ==> offset + IntSize + |Concat(parts)| <= buffer.Length
      modifies this, buffer, frames
      ensures Appended(Header(|xs|) + Concat(parts), ok)
      decreases xs, 2
    {
      ghost var start := Snap();
      ok := WriteCount(|xs|, start);
      if !ok {
        return;
      }
      assert [] + Header(|xs|) == Header(|xs|);
      ok := WriteStructObjLoop(xs, parts, start, Header(|xs|));
      if ok {
        SinceStart(Header(|xs|) + Concat(parts));
      }
    }

    /** The foreach loop itself, after `prefix` was appended since `start`. */
    method WriteStructObjLoop(xs: seq<Entry<seq<byte>, Option<Object>>>, ghost parts: seq<seq<byte>>, ghost start: Snapshot, ghost prefix: seq<byte>)
      returns (ok: bool)
      requires Since(start, prefix) && offset <= buffer.Length && StructObjParts(xs, parts)
      requires level + StructObjEntriesDepth(xs) < MaxDepthSize
      requires UncheckedStructObjEntries(xs) ==> offset + |Concat(parts)| <= buffer.Length
      modifies this, buffer, frames
      ensures Extended(start, prefix, Concat(parts), ok)
      decreases xs, 1
    {
      ghost var written := prefix;
      var i := 0;
      while i < |xs|
        invariant 0 <= i <= |xs|
        invariant prefix + Concat(parts) == written + Concat(parts[i..])
        invariant StructObjEntriesDepth(xs[i..]) <= StructObjEntriesDepth(xs)
        invariant UncheckedStructObjEntries(xs[i..]) ==> offset + |Concat(parts[i..])| <= buffer.Length
        invariant Since(start, written) && offset <= buffer.Length
        invariant disposed == old(disposed) && (buffer == old(buffer) || fresh(buffer))
        invariant buffer.Length >= old(buffer.Length)
      {
        assert xs[i..][0] == xs[i] && xs[i..][1..] == xs[i + 1..];
        assert parts[i..][0] == parts[i] && parts[i..][1..] == parts[i + 1..];
        ok := WriteStructObjEntry(xs, i, parts, start, written);
        if !ok {
          return;
        }
        AppendAssoc(written, parts[i], Concat(parts[i + 1..]));
        written := written + parts[i];
        i := i + 1;
      }
      assert parts[i..] == [];
      ok := true;
    }

    /** One iteration of that loop: the key, then the value. */
    method WriteStructObjEntry(xs: seq<Entry<seq<byte>, Option<Object>>>, i: nat, ghost parts: seq<seq<byte>>, ghost start: Snapshot, ghost written: seq<byte>)
      returns (ok: bool)
      requires StructObjParts(xs, parts) && i < |xs|
      requires Since(start, written)
      requires level + StructObjEntryDepth(xs[i]) < MaxDepthSize
      requires UncheckedStructObjEntry(xs[i]) ==> offset + |parts[i]| <= buffer.Length
      modifies this, buffer, frames
      ensures Extended(start, written, parts[i], ok)
      decreases xs[i], 0
    {
      assert parts[i] == EncStructObjEntry(xs[i]);
      ghost var key := EncStruct(xs[i].key);
      ok := WriteStructure(xs[i].key);
      if !ok {
        SinceFailed(start, written, key, written + parts[i]);
        return;
      }
      SinceThen(start, written, key);
      label keyWritten:
      ok := WriteObject(xs[i].val);
      if !ok {
        SinceFailed@keyWritten(start, written + key, EncObj(xs[i].val), written + parts[i]);
        return;
      }
      SinceThen@keyWritten(start, written + key, EncObj(xs[i].val));
      AppendAssoc(written, key, EncObj(xs[i].val));
    }

    /** Write<T>(IDictionary<string, T>) of objects: -1 for null, 0 for empty,
        otherwise the count and then, per entry, the key as a UTF-8 string and
        the value as a nested object. */
    method WriteStrObjDictionary(c: Collection<Entry<string, Option<Object>>>) returns (ok: bool)
      requires CanWrite(EncValue(StrKeyObjDictV(c)), ValueDepth(StrKeyObjDictV(c)), Unchecked(StrKeyObjDictV(c)))
      modifies this, buffer, frames
      ensures Appended(EncValue(StrKeyObjDictV(c)), ok)
      decreases c, 2
    {
      if c.Null? {
        ok := WriteInt(NullHeader);
        return;
      }
      var xs := c.items;
      if |xs| == 0 {
        ok := WriteInt(0);
        return;
      }
      ok := WriteStrObjEntries(xs, StrObjPartsOf(xs));
    }

    /** The element count and the foreach loop of the string-keyed object dictionary writer. */
    method WriteStrObjEntries(xs: seq<Entry<string, Option<Object>>>, ghost parts: seq<seq<byte>>) returns (ok: bool)
      requires Valid() && xs != [] && StrObjParts(xs, parts)
      requires level + StrObjEntriesDepth(xs) < MaxDepthSize
      requires UncheckedStrObjEntries(xs) ==> offset + IntSize + |Concat(parts)| <= buffer.Length
      modifies this, buffer, frames
      ensures Appended(Header(|xs|) + Concat(parts), ok)
      decreases xs, 2
    {
      ghost var start := Snap();
      ok := WriteCount(|xs|, start);
      if !ok {
        return;
      }
      assert [] + Header(|xs|) == Header(|xs|);
      ok := WriteStrObjLoop(xs, parts, start, Header(|xs|));
      if ok {
        SinceStart(Header(|xs|) + Concat(parts));
      }
    }

    /** The foreach loop itself, after `prefix` was appended since `start`. */
    method WriteStrObjLoop(xs: seq<Entry<string, Option<Object>>>, ghost parts: seq<seq<byte>>, ghost start: Snapshot, ghost prefix: seq<byte>)
      returns (ok: bool)
      requires Since(start, prefix) && offset <= buffer.Length && StrObjParts(xs, parts)
      requires level + StrObjEntriesDepth(xs) < MaxDepthSize
      requires UncheckedStrObjEntries(xs) ==> offset + |Concat(parts)| <= buffer.Length
      modifies this, buffer, frames
      ensures Extended(start, prefix, Concat(parts), ok)
      decreases xs, 1
    {
      ghost var written := prefix;
      var i := 0;
      while i < |xs|
        invariant 0 <= i <= |xs|
        invariant prefix + Concat(parts) == written + Concat(parts[i..])
        invariant StrObjEntriesDepth(xs[i..]) <= StrObjEntriesDepth(xs)
        invariant UncheckedStrObjEntries(xs[i..]) ==> offset + |Concat(parts[i..])| <= buffer.Length
        invariant Since(start, written) && offset <= buffer.Length
        invariant disposed == old(disposed) && (buffer == old(buffer) || fresh(buffer))
        invariant buffer.Length >= old(buffer.Length)
      {
        assert xs[i..][0] == xs[i] && xs[i..][1..] == xs[i + 1..];
        assert parts[i..][0] == parts[i] && parts[i..][1..] == parts[i + 1..];
        ok := WriteStrObjEntry(xs, i, parts, start, written);
        if !ok {
          return;
        }
        AppendAssoc(written, parts[i], Concat(parts[i + 1..]));
        written := written + parts[i];
        i := i + 1;
      }
      assert parts[i..] == [];
      ok := true;
    }

    /** One iteration of that loop: the key, then the value. */
    method WriteStrObjEntry(xs: seq<Entry<string, Option<Object>>>, i: nat, ghost parts: seq<seq<byte>>, ghost start: Snapshot, ghost written: seq<byte>)
      returns (ok: bool)
      requires StrObjParts(xs, parts) && i < |xs|
      requires Since(start, written)
      requires level + StrObjEntryDepth(xs[i]) < MaxDepthSize
      requires UncheckedStrObjEntry(xs[i]) ==> offset + |parts[i]| <= buffer.Length
      modifies this, buffer, frames
      ensures Extended(start, written, parts[i], ok)
      decreases xs[i], 0
    {
      assert parts[i] == EncStrObjEntry(xs[i]);
      ghost var key := EncString(Some(xs[i].key), UTF8);
      ok := WriteString(Some(xs[i].key), UTF8);
      if !ok {
        SinceFailed(start, written, key, written + parts[i]);
        return;
      }
      SinceThen(start, written, key);
      label keyWritten:
      ok := WriteObject(xs[i].val);
      if !ok {
        SinceFailed@keyWritten(start, written + key, EncObj(xs[i].val), written + parts[i]);
        return;
      }
      SinceThen@keyWritten(start, written + key, EncObj(xs[i].val));
      AppendAssoc(written, key, EncObj(xs[i].val));
    }

    /** Write<T>(IDictionary<string, T>) of structures: -1 for null, 0 for
        empty, otherwise the count and then, per entry, the key as a UTF-8
        string and the value as a structure. */
    method WriteStrStructDictionary(c: Collection<Entry<string, seq<byte>>>) returns (ok: bool)
      requires Valid()
      modifies this, buffer, frames
      ensures Appended(EncValue(StrKeyStructDictV(c)), ok)
    {
      if c.Null? {
        ok := WriteInt(NullHeader);
        return;
      }
      var xs := c.items;
      if |xs| == 0 {
        ok := WriteInt(0);
        return;
      }
      ok := WriteStrStructEntries(xs, StrStructPartsOf(xs));
    }

    /** The element count and the foreach loop of the string-keyed structure dictionary writer. */
    method WriteStrStructEntries(xs: seq<Entry<string, seq<byte>>>, ghost parts: seq<seq<byte>>) returns (ok: bool)
      requires Valid() && xs != [] && StrStructParts(xs, parts)
      modifies this, buffer, frames
      ensures Appended(Header(|xs|) + Concat(parts), ok)
    {
      ghost var start := Snap();
      ok := WriteCount(|xs|, start);
      if !ok {
        return;
      }
      assert [] + Header(|xs|) == Header(|xs|);
      ok := WriteStrStructLoop(xs, parts, start, Header(|xs|));
      if ok {
        SinceStart(Header(|xs|) + Concat(parts));
      }
    }

    /** The foreach loop itself, after `prefix` was appended since `start`. */
    method WriteStrStructLoop(xs: seq<Entry<string, seq<byte>>>, ghost parts: seq<seq<byte>>, ghost start: Snapshot, ghost prefix: seq<byte>)
      returns (ok: bool)
      requires Since(start, prefix) && offset <= buffer.Length && StrStructParts(xs, parts)
      modifies this, buffer, frames
      ensures Extended(start, prefix, Concat(parts), ok)
    {
      ghost var written := prefix;
      var i := 0;
      while i < |xs|
        invariant 0 <= i <= |xs|
        invariant prefix + Concat(parts) == written + Concat(parts[i..])
        invariant Since(start, written) && offset <= buffer.Length
        invariant disposed == old(disposed) && (buffer == old(buffer) || fresh(buffer))
        invariant buffer.Length >= old(buffer.Length)
      {
        assert parts[i..][0] == parts[i] && parts[i..][1..] == parts[i + 1..];
        ok := WriteStrStructEntry(xs, i, parts, start, written);
        if !ok {
          return;
        }
        AppendAssoc(written, parts[i], Concat(parts[i + 1..]));
        written := written + parts[i];
        i := i + 1;
      }
      assert parts[i..] == [];
      ok := true;
    }

    /** One iteration of that loop: the key, then the value. */
    method WriteStrStructEntry(xs: seq<Entry<string, seq<byte>>>, i: nat, ghost parts: seq<seq<byte>>, ghost start: Snapshot, ghost written: seq<byte>)
      returns (ok: bool)
      requires StrStructParts(xs, parts) && i < |xs|
      requires Since(start, written)
      modifies this, buffer, frames
      ensures Extended(start, written, parts[i], ok)
    {
      assert parts[i] == EncStrStructEntry(xs[i]);
      ghost var key := EncString(Some(xs[i].key), UTF8);
      ok := WriteString(Some(xs[i].key), UTF8);
      if !ok {
        SinceFailed(start, written, key, written + parts[i]);
        return;
      }
      SinceThen(start, written, key);
      label keyWritten:
      ok := WriteStructure(xs[i].val);
      if !ok {
        SinceFailed@keyWritten(start, written + key, EncStruct(xs[i].val), written + parts[i]);
        return;
      }
      SinceThen@keyWritten(start, written + key, EncStruct(xs[i].val));
      AppendAssoc(written, key, EncStruct(xs[i].val));
    }

    /** Write<T>(Dictionary<T, string>): -1 for null, 0 for empty, otherwise
        the count and then, per entry, the key as a structure and the value as
        a string in the given encoding. */
    method WriteStructStrDictionary(c: Collection<Entry<seq<byte>, Option<string>>>, enc: Encoding) returns (ok: bool)
      requires CanWrite(EncValue(StructKeyStrDictV(enc, c)), 0, Unchecked(StructKeyStrDictV(enc, c)))
      modifies this, buffer, frames
      ensures Appended(EncValue(StructKeyStrDictV(enc, c)), ok)
    {
      if c.Null? {
        ok := WriteInt(NullHeader);
        return;
      }
      var xs := c.items;
      if |xs| == 0 {
        ok := WriteInt(0);
        return;
      }
      ok := WriteStructStrEntries(xs, enc, StructStrPartsOf(xs, enc));
    }

    /** The element count and the foreach loop of the structure-keyed string dictionary writer. */
    method WriteStructStrEntries(xs: seq<Entry<seq<byte>, Option<string>>>, enc: Encoding, ghost parts: seq<seq<byte>>) returns (ok: bool)
      requires Valid() && xs != [] && StructStrParts(xs, parts, enc)
      requires UncheckedStructStrEntries(xs, enc) ==> offset + IntSize + |Concat(parts)| <= buffer.Length
      modifies this, buffer, frames
      ensures Appended(Header(|xs|) + Concat(parts), ok)
    {
      ghost var start := Snap();
      ok := WriteCount(|xs|, start);
      if !ok {
        return;
      }
      assert [] + Header(|xs|) == Header(|xs|);
      ok := WriteStructStrLoop(xs, enc, parts, start, Header(|xs|));
      if ok {
        SinceStart(Header(|xs|) + Concat(parts));
      }
    }

    /** The foreach loop itself, after `prefix` was appended since `start`. */
    method WriteStructStrLoop(xs: seq<Entry<seq<byte>, Option<string>>>, enc: Encoding, ghost parts: seq<seq<byte>>, ghost start: Snapshot, ghost prefix: seq<byte>)
      returns (ok: bool)
      requires Since(start, prefix) && offset <= buffer.Length && StructStrParts(xs, parts, enc)
      requires UncheckedStructStrEntries(xs, enc) ==> offset + |Concat(parts)| <= buffer.Length
      modifies this, buffer, frames
      ensures Extended(start, prefix, Concat(parts), ok)
    {
      ghost var written := prefix;
      var i := 0;
      while i < |xs|
        invariant 0 <= i <= |xs|
        invariant prefix + Concat(parts) == written + Concat(parts[i..])
        invariant UncheckedStructStrEntries(xs[i..], enc) ==> offset + |Concat(parts[i..])| <= buffer.Length
        invariant Since(start, written) && offset <= buffer.Length
        invariant disposed == old(disposed) && (buffer == old(buffer) || fresh(buffer))
        invariant buffer.Length >= old(buffer.Length)
      {
        assert xs[i..][0] == xs[i] && xs[i..][1..] == xs[i + 1..];
        assert parts[i..][0] == parts[i] && parts[i..][1..] == parts[i + 1..];
        ok := WriteStructStrEntry(xs, enc, i, parts, start, written);
        if !ok {
          return;
        }
        AppendAssoc(written, parts[i], Concat(parts[i + 1..]));
        written := written + parts[i];
        i := i + 1;
      }
      assert parts[i..] == [];
      ok := true;
    }

    /** One iteration of that loop: the key, then the value. */
    method WriteStructStrEntry(xs: seq<Entry<seq<byte>, Option<string>>>, enc: Encoding, i: nat, ghost parts: seq<seq<byte>>, ghost start: Snapshot, ghost written: seq<byte>)
      returns (ok: bool)
      requires StructStrParts(xs, parts, enc) && i < |xs|
      requires Since(start, written)
      requires UncheckedString(xs[i].val, enc) ==> offset + |parts[i]| <= buffer.Length
      modifies this, buffer, frames
      ensures Extended(start, written, parts[i], ok)
    {
      assert parts[i] == EncStructStrEntry(xs[i], enc);
      ghost var key := EncStruct(xs[i].key);
      ok := WriteStructure(xs[i].key);
      if !ok {
        SinceFailed(start, written, key, written + parts[i]);
        return;
      }
      SinceThen(start, written, key);
      label keyWritten:
      ok := WriteString(xs[i].val, enc);
      if !ok {
        SinceFailed@keyWritten(start, written + key, EncString(xs[i].val, enc), written + parts[i]);
        return;
      }
      SinceThen@keyWritten(start, written + key, EncString(xs[i].val, enc));
      AppendAssoc(written, key, EncString(xs[i].val, enc));
    }
  }
}
