// What the reader promises of any data, well formed or not: the budget
// rule of the fail-soft reads, the meaning of the headers, and the
// bookkeeping that keeps a level's end fixed while it is being read.

module ReaderLaws {
  import opened Bytes
  import opened Text
  import opened Wire
  import opened ReadSpec
  import opened Compat

  // ---------------------------------------------------------------- fixed-width reads

  /** A fixed-width read gives the field's bytes and moves past them when the
      budget allows it and the data holds them; it throws when the budget
      allows it but the data ends first; otherwise it gives the type's
      default and consumes nothing. */
  lemma FixedReadCases(data: seq<byte>, c: Cursor, width: nat)
    requires Wf(c)
    ensures CanRead(data, c, width) && 0 <= c.offset && c.offset + width <= |data| ==>
      ReadFixed(data, c, width) == Done(data[c.offset..c.offset + width], Skip(c, width))
    ensures CanRead(data, c, width) && !(0 <= c.offset && c.offset + width <= |data|) ==>
      ReadFixed(data, c, width) == Fault
    ensures !CanRead(data, c, width) ==> ReadFixed(data, c, width) == Done(Zeros(width), c)
  {
    if 0 <= c.offset && c.offset + width <= |data| {
      SpanIsSlice(data, c.offset, width);
    }
  }

  /** An int the budget does not allow reads as 0, and nothing is consumed. */
  lemma IntDefault(data: seq<byte>, c: Cursor)
    requires Wf(c) && !CanRead(data, c, IntSize)
    ensures ReadInt(data, c) == Done(0, c)
  {
    Int32OfZeros();
  }

  /** At the root level the budget check compares `_offset + n` with the
      length of the data in C# int arithmetic: a read is allowed exactly
      when the data holds it, unless the sum overflows, in which case the
      check lets any read through. */
  lemma {:induction false} CanReadRoot(data: seq<byte>, c: Cursor, n: int)
    requires Wf(c) && c.level == 0 && 0 <= c.offset && 0 <= n <= Int32Max
    ensures c.offset + n <= Int32Max ==> (CanRead(data, c, n) <==> c.offset + n <= |data|)
    ensures c.offset + n > Int32Max ==> CanRead(data, c, n)
  {
    Wrap32Mod(c.offset + n);
  }

  // ---------------------------------------------------------------- headers

  /** A string header of -1 is null and 0 is empty, and a header the budget
      does not allow reads as 0: the string is then empty, not null. */
  lemma StringHeaders(data: seq<byte>, c: Cursor, enc: Encoding)
    requires Wf(c)
    ensures var h := ReadInt(data, c);
      h.Done? && h.value == NullHeader ==> ReadString(data, c, enc) == Done(None, h.next)
    ensures var h := ReadInt(data, c);
      h.Done? && h.value == 0 ==> ReadString(data, c, enc) == Done(Some([]), h.next)
    ensures !CanRead(data, c, IntSize) ==> ReadString(data, c, enc) == Done(Some([]), c)
  {
    if !CanRead(data, c, IntSize) {
      IntDefault(data, c);
    }
  }

  /** The same rule for arrays and lists of objects, and a negative count
      other than -1 throws. */
  lemma ObjectArrayHeaders(data: seq<byte>, c: Cursor, elem: seq<FieldType>)
    requires Wf(c)
    ensures var h := ReadInt(data, c);
      h.Done? && h.value == NullHeader ==> ReadObjectArray(data, c, elem) == Done(Null, h.next)
    ensures var h := ReadInt(data, c);
      h.Done? && h.value == 0 ==> ReadObjectArray(data, c, elem) == Done(Items([]), h.next)
    ensures var h := ReadInt(data, c);
      h.Done? && h.value < NullHeader ==> ReadObjectArray(data, c, elem) == Fault
    ensures !CanRead(data, c, IntSize) ==> ReadObjectArray(data, c, elem) == Done(Items([]), c)
  {
    if !CanRead(data, c, IntSize) {
      IntDefault(data, c);
    }
  }

  /** The same rule for arrays and lists of strings. */
  lemma StringArrayHeaders(data: seq<byte>, c: Cursor, enc: Encoding)
    requires Wf(c)
    ensures var h := ReadInt(data, c);
      h.Done? && h.value == NullHeader ==> ReadStringArray(data, c, enc) == Done(Null, h.next)
    ensures var h := ReadInt(data, c);
      h.Done? && h.value == 0 ==> ReadStringArray(data, c, enc) == Done(Items([]), h.next)
    ensures var h := ReadInt(data, c);
      h.Done? && h.value < NullHeader ==> ReadStringArray(data, c, enc) == Fault
    ensures !CanRead(data, c, IntSize) ==> ReadStringArray(data, c, enc) == Done(Items([]), c)
  {
    if !CanRead(data, c, IntSize) {
      IntDefault(data, c);
    }
  }

  /** The same rule for arrays and lists of unmanaged elements. A negative
      count throws for the list; for the array it throws unless count * size
      wraps around to a length the data holds. */
  lemma StructArrayHeaders(data: seq<byte>, c: Cursor, size: Width)
    requires Wf(c)
    ensures var h := ReadInt(data, c);
      h.Done? && h.value == NullHeader ==>
        ReadStructArray(data, c, size) == Done(Null, h.next) && ReadStructList(data, c, size) == Done(Null, h.next)
    ensures var h := ReadInt(data, c);
      h.Done? && h.value == 0 ==>
        ReadStructArray(data, c, size) == Done(Items([]), h.next) && ReadStructList(data, c, size) == Done(Items([]), h.next)
    ensures var h := ReadInt(data, c);
      h.Done? && h.value < NullHeader ==> ReadStructList(data, c, size) == Fault
    ensures !CanRead(data, c, IntSize) ==>
      ReadStructArray(data, c, size) == Done(Items([]), c) && ReadStructList(data, c, size) == Done(Items([]), c)
  {
    if !CanRead(data, c, IntSize) {
      IntDefault(data, c);
    }
  }

  /** The same rule for the four dictionary readers. */
  lemma DictionaryHeaders(data: seq<byte>, c: Cursor, keySize: Width, vf: seq<FieldType>, enc: Encoding)
    requires Wf(c)
    ensures var h := ReadInt(data, c);
      h.Done? && h.value == NullHeader ==>
        && ReadStructObjDict(data, c, keySize, vf) == Done(Null, h.next)
        && ReadStrObjDict(data, c, vf) == Done(Null, h.next)
        && ReadStrStructDict(data, c, keySize) == Done(Null, h.next)
        && ReadStructStrDict(data, c, keySize, enc) == Done(Null, h.next)
    ensures var h := ReadInt(data, c);
      h.Done? && h.value == 0 ==>
        && ReadStructObjDict(data, c, keySize, vf) == Done(Items([]), h.next)
        && ReadStrObjDict(data, c, vf) == Done(Items([]), h.next)
        && ReadStrStructDict(data, c, keySize) == Done(Items([]), h.next)
        && ReadStructStrDict(data, c, keySize, enc) == Done(Items([]), h.next)
    ensures var h := ReadInt(data, c);
      h.Done? && h.value < NullHeader ==>
        && ReadStructObjDict(data, c, keySize, vf) == Fault
        && ReadStrObjDict(data, c, vf) == Fault
        && ReadStrStructDict(data, c, keySize) == Fault
        && ReadStructStrDict(data, c, keySize, enc) == Fault
    ensures !CanRead(data, c, IntSize) ==>
        && ReadStructObjDict(data, c, keySize, vf) == Done(Items([]), c)
        && ReadStrObjDict(data, c, vf) == Done(Items([]), c)
        && ReadStrStructDict(data, c, keySize) == Done(Items([]), c)
        && ReadStructStrDict(data, c, keySize, enc) == Done(Items([]), c)
  {
    if !CanRead(data, c, IntSize) {
      IntDefault(data, c);
    }
  }

  /** A nested object's header of -1 is null and opens no level; at the
      root (scope 0) no header is read at all and no level is opened. */
  lemma ObjectHeaders(data: seq<byte>, c: Cursor, fs: seq<FieldType>)
    requires Wf(c)
    ensures var h := ReadInt(data, c);
      c.scope > 0 && h.Done? && h.value == NullHeader ==> ReadObject(data, c, fs) == Done(None, h.next)
    ensures c.scope == 0 ==>
      var r := ReadFields(data, c.(scope := 1), fs);
      ReadObject(data, c, fs) == if r.Fault? then Fault else Done(Some(Object(r.value)), r.next.(scope := 0))
  {
  }

  /** ReadStruct: a header of 0, or one the budget does not allow, gives the
      default; otherwise the structure's bytes are read in place and the
      reader moves by the header's value, not by the structure's size. */
  lemma StructAdvance(data: seq<byte>, c: Cursor, size: Width)
    requires Wf(c)
    ensures var h := ReadInt(data, c);
      h.Done? && (h.value == 0 || !CanRead(data, h.next, h.value)) ==> ReadStruct(data, c, size) == Done(Zeros(size), h.next)
    ensures var h := ReadInt(data, c);
      h.Done? && h.value != 0 && CanRead(data, h.next, h.value) && 0 <= h.next.offset && h.next.offset + size <= |data| ==>
        ReadStruct(data, c, size) == Done(data[h.next.offset..h.next.offset + size], Skip(h.next, h.value))
  {
    var h := ReadInt(data, c);
    if h.Done? && 0 <= h.next.offset && h.next.offset + size <= |data| {
      SpanIsSlice(data, h.next.offset, size);
    }
  }

  // ---------------------------------------------------------------- the end of a level

  /** `_offset + _objectDepthSizes[_level]` in C# int arithmetic: where the
      object open at the current level ends. */
  function LevelEnd(c: Cursor): int
    requires Wf(c)
  {
    Wrap32(c.offset + c.frames[c.level])
  }

  /** Adding s to one part of a sum and taking it from the other, each in
      C# int arithmetic, leaves the sum as it was. */
  lemma {:induction false} Wrap32Exchange(a: int, b: int, s: int)
    ensures Wrap32(Wrap32(a + s) + Wrap32(b - s)) == Wrap32(a + b)
  {
    Wrap32Shift(a + s, Wrap32(b - s));
    Wrap32Shift(b - s, a + s);
  }

  /** Every consuming read adds n to the offset and takes n from the current
      frame, so the end of the level stays where it was. */
  lemma {:induction false} SkipKeepsLevelEnd(c: Cursor, n: int)
    requires Wf(c)
    ensures Skip(c, n).offset == Wrap32(c.offset + n)
    ensures LevelEnd(Skip(c, n)) == LevelEnd(c)
    ensures forall i | 0 <= i < MaxDepthSize && i != c.level :: Skip(c, n).frames[i] == c.frames[i]
  {
    Wrap32Exchange(c.offset, c.frames[c.level], n);
  }

  /** A nested object opened after its header at c1 with the declared size:
      whatever its reader did inside, as long as it kept the end of the
      object's level and the frames below it, closing the object leaves the
      reader right after the header plus the declared size, and the end of
      the parent's level is where it was. */
  lemma {:induction false} NestedObjectEnd(c1: Cursor, size: int, d: Cursor)
    requires Wf(c1) && c1.scope > 0 && c1.level + 1 < MaxDepthSize && IsInt32(size)
    requires Wf(d) && d.level == c1.level + 1 && LevelEnd(d) == LevelEnd(Push(c1, size))
    requires d.frames[c1.level] == c1.frames[c1.level]
    ensures Pop(d, size).offset == Wrap32(c1.offset + size)
    ensures Pop(d, size).level == c1.level && LevelEnd(Pop(d, size)) == LevelEnd(c1)
  {
    var l := c1.level;
    PushEnd(c1, size);
    PopEnd(d, size);
    ExchangeAt(c1.offset, c1.frames[l], size, Pop(d, size).offset, Pop(d, size).frames[l]);
  }

  /** Opening a level for an object of the given size puts that level's end
      the size past the reader. */
  lemma {:induction false} PushEnd(c: Cursor, size: int)
    requires Wf(c) && c.scope > 0 && c.level + 1 < MaxDepthSize && IsInt32(size)
    ensures LevelEnd(Push(c, size)) == Wrap32(c.offset + size)
    ensures Push(c, size).frames[c.level] == c.frames[c.level]
  {
  }

  /** Closing a level moves the reader to that level's end and charges the
      object's size to the parent's frame. */
  lemma {:induction false} PopEnd(d: Cursor, size: int)
    requires Wf(d) && d.level > 0 && IsInt32(size)
    ensures Pop(d, size).offset == LevelEnd(d)
    ensures Pop(d, size).frames[d.level - 1] == Wrap32(d.frames[d.level - 1] - size)
    ensures LevelEnd(Pop(d, size)) == Wrap32(Pop(d, size).offset + Pop(d, size).frames[d.level - 1])
  {
  }

  /** Wrap32Exchange with both wrapped parts named. */
  lemma {:induction false} ExchangeAt(a: int, b: int, s: int, x: int, y: int)
    requires x == Wrap32(a + s) && y == Wrap32(b - s)
    ensures Wrap32(x + y) == Wrap32(a + b)
  {
    Wrap32Exchange(a, b, s);
  }
}
