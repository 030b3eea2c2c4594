# LBinarySerializer and LBinaryDeserializer in Dafny

LBinarySerializer is a compact binary format for .NET. It has two classes that
must stay in lockstep. The writer, `LBinarySerializer`, appends fields to a
growable byte buffer. The reader, `LBinaryDeserializer`, consumes the same
fields in the same order.

**The format.**
- Fixed-width values are written little-endian.
- Every reference value has a signed 32-bit header first: a string, a nested
  object, a structure, an array, a list or a dictionary.
- A header of `-1` means null and `0` means empty. Otherwise it is a byte
  length, a structure size or an element count.

**Levels.** Both classes keep one integer per nesting level in
`_objectDepthSizes`.
- In the writer it counts the bytes written at that level.
- A nested object reserves a 4-byte slot and writes its body one level
  deeper. It then back-patches the slot with the body's size.
- In the reader the integer is the budget of the object open at that level.
- A nested object's header opens a level whose budget is that size. When the
  object's `Deserialize` returns, the reader skips whatever it left unread.
  This is how an older reader skips fields that a newer writer appended.

**Scope.** The reader counts open `Deserialize` calls in `_scope`. The
outermost call reads no header and opens no level.

**Fail-soft reads.** A fixed-width read that the budget does not allow
returns the type's default and consumes nothing. At the root level, the
budget is the rest of the data.

**The model.**
- `bytes.dfy` holds the little-endian and two's-complement codecs.
- `text.dfy` holds the four string encodings: UTF-8, ASCII, UTF-16 and UTF-32.
- `wire.dfy` holds the shared wire format:
  - a schema datatype `FieldType`, standing for what a user type's
    `ILBinarySerializable.Deserialize` asks for;
  - a `Value` datatype, standing for what its `Serialize` hands over;
  - the bytes each value becomes.
- `buffer_pool.dfy` holds the growth contract the writer relies on.
- `serializer.dfy` is the writer: a class over an `array<byte>` buffer and an
  `array<int>` of frames.
- `read_spec.dfy` describes every read as a function of the data and a
  cursor. The cursor is offset, level, scope and frames. A read yields a
  value and the next cursor, or a fault where the C# code throws.
- `deserializer.dfy` is the reader: a class whose methods are proved against
  those functions.
- `reader_laws.dfy` states what the reader does on any data:
  - the budget rule;
  - the meaning of each header;
  - where a closed object leaves the reader.
- `compat.dfy` and `compat_objects.dfy` prove that every value read where it
  was written comes back unchanged. This covers strings, structures,
  unmanaged arrays and lists, string arrays, all four dictionary kinds and
  nested objects.
- `round_trip.dfy` composes the two classes. What a fresh writer produces, a
  fresh reader returns. That holds for the same schema and for an older
  reader whose schema is a prefix of the writer's.

**Integer width.** C# `int` arithmetic on the reader's offset and frames
wraps around, and `Wrap32` models that. One consequence is kept as the code
behaves: at the root level, `_offset + size` can overflow. A
`ReadStruct` header near `int.MaxValue` then passes the budget check.

**Exceptions.** Where the C# code throws, a write returns `ok == false`. So
does a read, and the read's function is `Fault`. A write throws when the
buffer would outgrow `Array.MaxLength`. A read throws in these cases:
- the data ends;
- a collection count is negative;
- a string length is below -1 (`new string` throws);
- a dictionary key repeats;
- levels run out.

Some throws of the C# code are not modelled as `ok == false` or `Fault`.
They are listed under "## Left out": the writer's depth limit, the ASCII
`GetBytes` on a short buffer, and the value constructors behind
`ReadDecimal`, `ReadDateTime` and `ReadDateTimeOffset`.

The state after an exception is left unspecified, as in the source.

## Model

| member | source | states |
|---|---|---|
| BufferPool.GetCachedBuffer | src/LBinarySerializer/LBinarySerializer.cs:33 | a fresh buffer of at least the requested size, never beyond Array.MaxLength |
| BufferPool.EnsureCapacity | src/LBinarySerializer/LBinarySerializer.cs:584 | fails exactly when `at + count` exceeds Array.MaxLength; on success there is room for `count` bytes at `at`; a buffer that already has room is kept; a grown buffer is fresh, larger, and keeps every byte before `at` |
| Serializer.LBinarySerializer.constructor | src/LBinarySerializer/LBinarySerializer.cs:31-35 | a writer at offset 0 and level 0, not disposed, with a buffer of at least `bufferSize` bytes |
| Serializer.LBinarySerializer.Reset | src/LBinarySerializer/LBinarySerializer.cs:37-46 | throws (ok false, offset and level unchanged) exactly when disposed; otherwise offset and level return to 0 and the buffer is kept |
| Serializer.LBinarySerializer.Dispose | src/LBinarySerializer/LBinarySerializer.cs:623-631 | the writer is disposed; buffer, offset and level are unchanged |
| Serializer.LBinarySerializer.ToArray | src/LBinarySerializer/LBinarySerializer.cs:534-544 | a fresh array holding exactly the first `offset` bytes of the buffer (empty when nothing was written) |
| Serializer.LBinarySerializer.ToMemory | src/LBinarySerializer/LBinarySerializer.cs:546-549 | exactly the first `offset` bytes of the buffer |
| Serializer.LBinarySerializer.WriteOneByte | src/LBinarySerializer/LBinarySerializer.cs:573-579 | Appended([value]): fails exactly when the buffer would outgrow Array.MaxLength; otherwise the byte sits at the old offset, the offset and a nested level's frame grow by one, earlier bytes and enclosing frames are unchanged |
| Serializer.LBinarySerializer.WriteSpan | src/LBinarySerializer/LBinarySerializer.cs:593-600 | Appended(bytes): the span is copied at the offset with the same growth, offset and frame effects |
| Serializer.LBinarySerializer.WriteBytes | src/LBinarySerializer/LBinarySerializer.cs:602-621 | Appended(bytes): the backward copy loop leaves exactly the array's bytes at the offset |
| Serializer.LBinarySerializer.WriteAt | src/LBinarySerializer/LBinarySerializer.cs:581-591 | copies `size` bytes (all of them when `size` is not positive) at `position`; fails exactly when that passes Array.MaxLength; bytes before `position` kept, and without growth every byte outside the range kept; offset and frame move by the length only when `updateOffset` |
| Serializer.LBinarySerializer.WriteHeader | src/LBinarySerializer/LBinarySerializer.cs:568-571 | the 4-byte little-endian header at `position`; offset, level and frames unchanged; every other byte of an unchanged buffer kept |
| Serializer.LBinarySerializer.WriteBool | src/LBinarySerializer/LBinarySerializer.cs:50-53 | appends one byte: 1 for true, 0 for false |
| Serializer.LBinarySerializer.WriteByte | src/LBinarySerializer/LBinarySerializer.cs:55-58 | appends the byte |
| Serializer.LBinarySerializer.WriteInt | src/LBinarySerializer/LBinarySerializer.cs:75-80 | appends the 4-byte two's-complement little-endian form of the int |
| Serializer.LBinarySerializer.WriteUInt | src/LBinarySerializer/LBinarySerializer.cs:89-94 | appends the 4-byte little-endian form |
| Serializer.LBinarySerializer.WriteShort | src/LBinarySerializer/LBinarySerializer.cs:96-101 | appends the 2-byte two's-complement form |
| Serializer.LBinarySerializer.WriteUShort | src/LBinarySerializer/LBinarySerializer.cs:103-108 | appends the 2-byte little-endian form |
| Serializer.LBinarySerializer.WriteLong | src/LBinarySerializer/LBinarySerializer.cs:110-115 | appends the 8-byte two's-complement form |
| Serializer.LBinarySerializer.WriteULong | src/LBinarySerializer/LBinarySerializer.cs:117-122 | appends the 8-byte little-endian form |
| Serializer.LBinarySerializer.WriteFloat | src/LBinarySerializer/LBinarySerializer.cs:124-129 | appends the 4 bytes of the float's bit pattern |
| Serializer.LBinarySerializer.WriteDouble | src/LBinarySerializer/LBinarySerializer.cs:131-136 | appends the 8 bytes of the double's bit pattern |
| Serializer.LBinarySerializer.WriteDecimal | src/LBinarySerializer/LBinarySerializer.cs:138-145 | appends the decimal's four ints (lo, mid, hi, flags), 16 bytes |
| Serializer.LBinarySerializer.WriteHalf | src/LBinarySerializer/LBinarySerializer.cs:147-152 | appends the 2 bytes of the Half's bit pattern |
| Serializer.LBinarySerializer.WriteGuid | src/LBinarySerializer/LBinarySerializer.cs:154-161 | appends the Guid's 16 bytes |
| Serializer.LBinarySerializer.WriteEnum | src/LBinarySerializer/LBinarySerializer.cs:185-191 | appends the enum's 4-byte int value |
| Serializer.LBinarySerializer.WriteDateTime | src/LBinarySerializer/LBinarySerializer.cs:163-167 | appends the 4-byte kind, then the 8-byte ticks: 12 bytes |
| Serializer.LBinarySerializer.WriteDateTimeOffset | src/LBinarySerializer/LBinarySerializer.cs:169-173 | appends the 8-byte ticks, then the 8-byte offset ticks |
| Serializer.LBinarySerializer.WriteTimeSpan | src/LBinarySerializer/LBinarySerializer.cs:175-178 | appends the 8-byte ticks |
| Serializer.LBinarySerializer.WriteChar | src/LBinarySerializer/LBinarySerializer.cs:180-183 | appends the char's UTF-16 unit, 2 bytes |
| Serializer.LBinarySerializer.WriteString | src/LBinarySerializer/LBinarySerializer.cs:195-255 | appends -1 for null and 0 for empty; otherwise a header equal to the encoded byte count (the UTF-16 unit count for ASCII) and then the encoded bytes; the ASCII bytes are one per UTF-16 unit, as .NET writes them for strings without surrogate pairs |
| Serializer.LBinarySerializer.WriteStructure | src/LBinarySerializer/LBinarySerializer.cs:290-298 | appends a header equal to the structure's size, then exactly its bytes |
| Serializer.LBinarySerializer.WriteObject | src/LBinarySerializer/LBinarySerializer.cs:257-282 | appends -1 for null; otherwise the slot back-patched with the body size, then the body; the level is restored; a nested parent frame grows by body + 4 and an enclosing frame not at all |
| Serializer.LBinarySerializer.FinishObject | src/LBinarySerializer/LBinarySerializer.cs:272-281 | after a body: pops the level, charges the parent, patches the slot, and the result is the header followed by the body since the object's start |
| Serializer.LBinarySerializer.WriteFields | src/LBinarySerializer/LBinarySerializer.cs:270 | a user type's Serialize: appends the encodings of its values in order; nothing at all for no values |
| Serializer.LBinarySerializer.WriteObjects | src/LBinarySerializer/LBinarySerializer.cs:302-321 | arrays and lists of objects: -1 for null, 0 for empty, otherwise the count and each element's object encoding in order |
| Serializer.LBinarySerializer.WriteObjectLoop | src/LBinarySerializer/LBinarySerializer.cs:317-320 | the foreach: every element's encoding appended after what was written, or a failure exactly when they do not fit |
| Serializer.LBinarySerializer.WriteStructs | src/LBinarySerializer/LBinarySerializer.cs:323-341 | unmanaged arrays and lists: the count, then one block of all elements' bytes with no per-element header |
| Serializer.LBinarySerializer.WriteStrings | src/LBinarySerializer/LBinarySerializer.cs:343-363 | string arrays and lists: the count, then each string's encoding in order |
| Serializer.LBinarySerializer.WriteStringLoop | src/LBinarySerializer/LBinarySerializer.cs:359-362 | the foreach over strings, as WriteObjectLoop |
| Serializer.LBinarySerializer.WriteStructObjDictionary | src/LBinarySerializer/LBinarySerializer.cs:437-460 | the count, then each entry's structure key and object value in enumeration order |
| Serializer.LBinarySerializer.WriteStructObjLoop | src/LBinarySerializer/LBinarySerializer.cs:455-459 | the foreach over entries, as WriteObjectLoop |
| Serializer.LBinarySerializer.WriteStrObjDictionary | src/LBinarySerializer/LBinarySerializer.cs:462-483 | the count, then each entry's UTF-8 key and object value |
| Serializer.LBinarySerializer.WriteStrObjLoop | src/LBinarySerializer/LBinarySerializer.cs:478-482 | the foreach over entries, as WriteObjectLoop |
| Serializer.LBinarySerializer.WriteStrStructDictionary | src/LBinarySerializer/LBinarySerializer.cs:485-506 | the count, then each entry's UTF-8 key and structure value |
| Serializer.LBinarySerializer.WriteStrStructLoop | src/LBinarySerializer/LBinarySerializer.cs:501-505 | the foreach over entries, as WriteObjectLoop |
| Serializer.LBinarySerializer.WriteStructStrDictionary | src/LBinarySerializer/LBinarySerializer.cs:508-530 | the count, then each entry's structure key and string value in the given encoding |
| Serializer.LBinarySerializer.WriteStructStrLoop | src/LBinarySerializer/LBinarySerializer.cs:525-529 | the foreach over entries, as WriteObjectLoop |
| ReadSpec.Take | src/LBinarySerializer/LBinaryDeserializer.cs:597-603 | a span read succeeds exactly when the bytes lie in the data, and then yields exactly that many bytes |
| ReadSpec.ReadFields | src/LBinarySerializer/LBinaryDeserializer.cs:65 | a user type's Deserialize yields one value per field it asks for, at the same level and scope |
| ReadSpec.ReadObjects | src/LBinarySerializer/LBinaryDeserializer.cs:371-376 | the element loop yields exactly `count` elements |
| ReadSpec.ReadStructObjEntry | src/LBinarySerializer/LBinaryDeserializer.cs:511-518 | an entry is added only when its key is new: a repeated key throws |
| Deserializer.LBinaryDeserializer.constructor | src/LBinarySerializer/LBinaryDeserializer.cs:30-33 | a reader with no data, at the start cursor |
| Deserializer.LBinaryDeserializer.FromData | src/LBinarySerializer/LBinaryDeserializer.cs:35-38 | a reader over the data, at the start cursor: offset, level, scope and every frame 0 |
| Deserializer.LBinaryDeserializer.Reset | src/LBinarySerializer/LBinaryDeserializer.cs:621-627 | level, scope, offset and every frame back to 0, data kept |
| Deserializer.LBinaryDeserializer.CanReadBytesForCurrentLevel | src/LBinarySerializer/LBinaryDeserializer.cs:606-619 | the budget rule CanRead: at level 0 the data holds the bytes (the sum in int arithmetic), above it the level's frame does |
| Deserializer.LBinaryDeserializer.Advance | src/LBinarySerializer/LBinaryDeserializer.cs:100-101 | a consuming read adds n to the offset and takes n from the current frame |
| Deserializer.LBinaryDeserializer.PushLevel | src/LBinarySerializer/LBinaryDeserializer.cs:60-61 | the level rises by one and its frame is the object's size |
| Deserializer.LBinaryDeserializer.PopLevel | src/LBinarySerializer/LBinaryDeserializer.cs:68-74 | skips what the object left unread, clears its frame, lowers the level and charges the size to the parent |
| Deserializer.LBinaryDeserializer.ReadBool | src/LBinarySerializer/LBinaryDeserializer.cs:122-133 | one byte, true unless zero; false and nothing consumed when the budget does not allow it |
| Deserializer.LBinaryDeserializer.ReadByte | src/LBinarySerializer/LBinaryDeserializer.cs:135-146 | one byte, or 0 with nothing consumed |
| Deserializer.LBinaryDeserializer.ReadInt | src/LBinarySerializer/LBinaryDeserializer.cs:148-159 | the ReadInt function: a 4-byte two's-complement value, or 0 with nothing consumed |
| Deserializer.LBinaryDeserializer.ReadUInt | src/LBinarySerializer/LBinaryDeserializer.cs:161-172 | 4 bytes unsigned, or 0 |
| Deserializer.LBinaryDeserializer.ReadShort | src/LBinarySerializer/LBinaryDeserializer.cs:174-185 | 2 bytes signed, or 0 |
| Deserializer.LBinaryDeserializer.ReadUShort | src/LBinarySerializer/LBinaryDeserializer.cs:187-198 | 2 bytes unsigned, or 0 |
| Deserializer.LBinaryDeserializer.ReadLong | src/LBinarySerializer/LBinaryDeserializer.cs:200-211 | 8 bytes signed, or 0 |
| Deserializer.LBinaryDeserializer.ReadULong | src/LBinarySerializer/LBinaryDeserializer.cs:213-224 | 8 bytes unsigned, or 0 |
| Deserializer.LBinaryDeserializer.ReadFloat | src/LBinarySerializer/LBinaryDeserializer.cs:226-237 | the float's 4-byte bit pattern, or all zero bits |
| Deserializer.LBinaryDeserializer.ReadDouble | src/LBinarySerializer/LBinaryDeserializer.cs:239-250 | the double's 8-byte bit pattern, or all zero bits |
| Deserializer.LBinaryDeserializer.ReadDecimal | src/LBinarySerializer/LBinaryDeserializer.cs:252-269 | the four ints of 16 bytes, or four zeros |
| Deserializer.LBinaryDeserializer.ReadHalf | src/LBinarySerializer/LBinaryDeserializer.cs:271-282 | the Half's 2-byte bit pattern, or zero |
| Deserializer.LBinaryDeserializer.ReadGuid | src/LBinarySerializer/LBinaryDeserializer.cs:284-295 | 16 bytes, or Guid.Empty |
| Deserializer.LBinaryDeserializer.ReadDateTime | src/LBinarySerializer/LBinaryDeserializer.cs:297-307 | one budget check for all 12 bytes, then the 4-byte kind and 8-byte ticks; the default when the check fails |
| Deserializer.LBinaryDeserializer.ReadDateTimeOffset | src/LBinarySerializer/LBinaryDeserializer.cs:309-319 | one budget check for 16 bytes, then two 8-byte tick counts |
| Deserializer.LBinaryDeserializer.ReadTimeSpan | src/LBinarySerializer/LBinaryDeserializer.cs:321-330 | 8-byte ticks, or zero |
| Deserializer.LBinaryDeserializer.ReadChar | src/LBinarySerializer/LBinaryDeserializer.cs:332-340 | one 2-byte UTF-16 unit, or zero |
| Deserializer.LBinaryDeserializer.ReadEnum | src/LBinarySerializer/LBinaryDeserializer.cs:342-353 | the enum's 4-byte int value, as ReadInt |
| Deserializer.LBinaryDeserializer.ReadString | src/LBinarySerializer/LBinaryDeserializer.cs:79-103 | the ReadString function: null for -1, empty for 0, otherwise that many bytes decoded, with no budget check on the body |
| Deserializer.LBinaryDeserializer.ReadStruct | src/LBinarySerializer/LBinaryDeserializer.cs:105-118 | the ReadStruct function: the default for a zero or unaffordable header, otherwise the structure's bytes, advancing by the header's value |
| Deserializer.LBinaryDeserializer.DeserializeData | src/LBinarySerializer/LBinaryDeserializer.cs:40-45 | rebinds the data, resets every counter and frame, and yields the root object read from the start |
| Deserializer.LBinaryDeserializer.Deserialize | src/LBinarySerializer/LBinaryDeserializer.cs:47-77 | the ReadObject function: no header at scope 0; otherwise -1 is null and any other header opens a level for the body |
| Deserializer.LBinaryDeserializer.DeserializeBody | src/LBinarySerializer/LBinaryDeserializer.cs:64-74 | the ReadBody function: the fields read with the scope raised, then the level closed |
| Deserializer.LBinaryDeserializer.ReadFields | src/LBinarySerializer/LBinaryDeserializer.cs:65 | the ReadFields function |
| Deserializer.LBinaryDeserializer.ReadField | src/LBinarySerializer/LBinaryDeserializer.cs:65 | the ReadField function: the read call the field type asks for |
| Deserializer.LBinaryDeserializer.ReadArrayOf | src/LBinarySerializer/LBinaryDeserializer.cs:359-379 | the ReadObjectArray function; ReadListOf (lines 425-445) is the same code |
| Deserializer.LBinaryDeserializer.ReadObjectsFrom | src/LBinarySerializer/LBinaryDeserializer.cs:371-376 | the ReadObjects function: each element read with the scope raised, so that it reads its own header |
| Deserializer.LBinaryDeserializer.ReadArrayOfStructs | src/LBinarySerializer/LBinaryDeserializer.cs:381-399 | the ReadStructArray function: the count, then one block of count × size bytes (product in int arithmetic) cut into elements |
| Deserializer.LBinaryDeserializer.ReadListOfStructs | src/LBinarySerializer/LBinaryDeserializer.cs:447-471 | the ReadStructList function: a negative count throws, and so does a block with fewer than count elements |
| Deserializer.LBinaryDeserializer.ReadArrayOfStrings | src/LBinarySerializer/LBinaryDeserializer.cs:401-419 | the ReadStringArray function; ReadListOfStrings (lines 473-491) is the same code |
| Deserializer.LBinaryDeserializer.ReadStringsFrom | src/LBinarySerializer/LBinaryDeserializer.cs:413-417 | the ReadStrings function: count strings in a row |
| Deserializer.LBinaryDeserializer.ReadDictionaryOf | src/LBinarySerializer/LBinaryDeserializer.cs:497-521 | the ReadStructObjDict function |
| Deserializer.LBinaryDeserializer.ReadStructObjFrom | src/LBinarySerializer/LBinaryDeserializer.cs:511-518 | the entry loop: structure key, then object value, a repeated key throws |
| Deserializer.LBinaryDeserializer.ReadStringKeyDictionaryOf | src/LBinarySerializer/LBinaryDeserializer.cs:523-546 | the ReadStrObjDict function: keys read as ASCII |
| Deserializer.LBinaryDeserializer.ReadStrObjFrom | src/LBinarySerializer/LBinaryDeserializer.cs:536-543 | the entry loop: ASCII key, then object value |
| Deserializer.LBinaryDeserializer.ReadDictionaryOfStructs | src/LBinarySerializer/LBinaryDeserializer.cs:548-569 | the ReadStrStructDict function |
| Deserializer.LBinaryDeserializer.ReadStrStructFrom | src/LBinarySerializer/LBinaryDeserializer.cs:561-566 | the entry loop: ASCII key, then structure value |
| Deserializer.LBinaryDeserializer.ReadDictionaryOfStrings | src/LBinarySerializer/LBinaryDeserializer.cs:571-592 | the ReadStructStrDict function |
| Deserializer.LBinaryDeserializer.ReadStructStrFrom | src/LBinarySerializer/LBinaryDeserializer.cs:584-590 | the entry loop: structure key, then string value |
| ReaderLaws.FixedReadCases | src/LBinarySerializer/LBinaryDeserializer.cs:148-159 | a fixed-width read yields the field's bytes and moves past them when the budget allows and the data holds them; throws when the budget allows but the data ends; otherwise yields zeros and consumes nothing |
| ReaderLaws.IntDefault | src/LBinarySerializer/LBinaryDeserializer.cs:150-153 | an int the budget does not allow reads as 0 and leaves the cursor where it was |
| ReaderLaws.CanReadRoot | src/LBinarySerializer/LBinaryDeserializer.cs:608 | at level 0 a read is allowed exactly when the data holds it, unless `_offset + size` overflows, in which case every read is allowed |
| ReaderLaws.StringHeaders | src/LBinarySerializer/LBinaryDeserializer.cs:79-89 | -1 reads as null, 0 as empty; an unaffordable header reads as empty, not null, with nothing consumed |
| ReaderLaws.ObjectArrayHeaders | src/LBinarySerializer/LBinaryDeserializer.cs:359-368 | -1 null, 0 empty, any other negative count throws, unaffordable header empty |
| ReaderLaws.StringArrayHeaders | src/LBinarySerializer/LBinaryDeserializer.cs:401-411 | the same for arrays and lists of strings |
| ReaderLaws.StructArrayHeaders | src/LBinarySerializer/LBinaryDeserializer.cs:381-391 | the same for unmanaged arrays and lists; a negative count throws for the list |
| ReaderLaws.DictionaryHeaders | src/LBinarySerializer/LBinaryDeserializer.cs:497-509 | the same for all four dictionary readers |
| ReaderLaws.ObjectHeaders | src/LBinarySerializer/LBinaryDeserializer.cs:47-64 | a nested object's -1 is null with no level opened; at scope 0 no header is read and the fields are read at the root level |
| ReaderLaws.StructAdvance | src/LBinarySerializer/LBinaryDeserializer.cs:105-118 | a zero or unaffordable structure header yields the default; otherwise the bytes are read in place and the reader advances by the header, not by the structure's size |
| ReaderLaws.SkipKeepsLevelEnd | src/LBinarySerializer/LBinaryDeserializer.cs:155-158 | a consuming read keeps `_offset + frame` fixed (in int arithmetic) and changes no other frame |
| ReaderLaws.NestedObjectEnd | src/LBinarySerializer/LBinaryDeserializer.cs:68-74 | whatever a nested reader consumed within its level, closing the object leaves the reader right after the header plus the declared size, and the parent level's end where it was |
| Compat.FixedRoundTrip | src/LBinarySerializer/LBinaryDeserializer.cs:122-133 | bytes written where the budget covers them are read back exactly, and the cursor moves past them |
| Compat.IntRoundTrip | src/LBinarySerializer/LBinaryDeserializer.cs:148-159 | an int written is read back |
| Compat.ReadStringRoundTrip | src/LBinarySerializer/LBinaryDeserializer.cs:79-103 | a string written in one encoding and read in another comes back whenever its bytes decode to it |
| Compat.StringValueRoundTrip | src/LBinarySerializer/LBinarySerializer.cs:195-255 | every string the encoding represents, and null, comes back as written |
| Compat.StringsRoundTrip | src/LBinarySerializer/LBinaryDeserializer.cs:413-417 | a run of strings comes back in order |
| Compat.StructRoundTrip | src/LBinarySerializer/LBinaryDeserializer.cs:105-118 | WriteStructure's output reads back as the same structure |
| Compat.StructArrayRoundTrip | src/LBinarySerializer/LBinaryDeserializer.cs:381-399 | an unmanaged array (null, empty or not) comes back element by element |
| Compat.StructListRoundTrip | src/LBinarySerializer/LBinaryDeserializer.cs:447-471 | an unmanaged list comes back element by element |
| Compat.StringArrayRoundTrip | src/LBinarySerializer/LBinaryDeserializer.cs:401-419 | a string array or list comes back |
| Compat.KeyRoundTrip | src/LBinarySerializer/LBinaryDeserializer.cs:538 | a string key written as UTF-8 and read as ASCII comes back when it is ASCII |
| Compat.StrStructDictRoundTrip | src/LBinarySerializer/LBinaryDeserializer.cs:548-569 | a string-keyed dictionary of structures with distinct ASCII keys comes back in order |
| Compat.StructStrDictRoundTrip | src/LBinarySerializer/LBinaryDeserializer.cs:571-592 | a structure-keyed dictionary of strings with distinct keys comes back |
| Compat.PushSkipPop | src/LBinarySerializer/LBinaryDeserializer.cs:68-74 | reading part of a nested object and closing it is the same as skipping the whole declared size |
| ObjectCompat.FieldRoundTrip | src/LBinarySerializer/LBinaryDeserializer.cs:65 | any value read with the field type that fits it comes back, and the reader moves past exactly its bytes |
| ObjectCompat.FieldsRoundTrip | src/LBinarySerializer/LBinaryDeserializer.cs:65 | a user type's fields come back in order |
| ObjectCompat.ObjRoundTrip | src/LBinarySerializer/LBinaryDeserializer.cs:47-77 | a nested object (or null) comes back, and the reader ends right after it with the parent's budget charged |
| ObjectCompat.ObjectArrayRoundTrip | src/LBinarySerializer/LBinaryDeserializer.cs:359-379 | an array or list of objects comes back |
| ObjectCompat.StructObjDictRoundTrip | src/LBinarySerializer/LBinaryDeserializer.cs:497-521 | a structure-keyed dictionary of objects with distinct keys comes back |
| ObjectCompat.StrObjDictRoundTrip | src/LBinarySerializer/LBinaryDeserializer.cs:523-546 | a string-keyed dictionary of objects with distinct ASCII keys comes back |
| RoundTrip.FieldsOlderRoundTrip | src/LBinarySerializer/LBinaryDeserializer.cs:65 | a reader whose schema is a prefix of the writer's reads back the prefix of the values |
| RoundTrip.ObjOlderRoundTrip | src/LBinarySerializer/LBinaryDeserializer.cs:68-74 | an older reader gets each nested object cut to the fields it knows, and still ends right after the object |
| RoundTrip.ObjectArrayOlderRoundTrip | tests/LBinarySerializer.Tests/DeserializerTest/LBinaryDeserializerBackwardCompatibilityTests.cs:7-19 | an older reader gets an array of newer objects, each cut to the fields it knows |
| RoundTrip.RootOlderRoundTrip | src/LBinarySerializer/LBinaryDeserializer.cs:47-77 | the root object read by an older reader is the writer's object cut to the reader's fields |
| RoundTrip.RootRoundTrip | src/LBinarySerializer/LBinaryDeserializer.cs:40-45 | the root object read with the writer's own schema is the object written, and the reader ends at the end of the data |
| RoundTrip.SerializeThenDeserialize | tests/LBinarySerializer.Tests/DeserializerTest/LBinaryDeserializerBackwardCompatibilityTests.cs:7-19 | a fresh writer, ToArray, then Deserialize: writing fails exactly when the message would outgrow Array.MaxLength, otherwise the reader returns the object (cut to its schema) |
| RoundTrip.PrimitivesRoundTrip | tests/LBinarySerializer.Tests/SerializerTests/LBinarySerializerCoreTests.cs:91-111 | an int, a bool and a long make a 13-byte message that reads back as the same three values |
| Bytes.FromLittleEndianInverse | src/LBinarySerializer/LBinaryDeserializer.cs:161-172 | an unsigned value written little-endian reads back |
| Bytes.LittleEndianInverse | src/LBinarySerializer/LBinarySerializer.cs:89-94 | any bytes read as an unsigned value write back to the same bytes |
| Bytes.SignedInverse | src/LBinarySerializer/LBinaryDeserializer.cs:200-211 | a signed value written in two's complement reads back |
| Bytes.Int32RoundTrip | src/LBinarySerializer/LBinaryDeserializer.cs:148-159 | an int written reads back |
| Bytes.ZerosReadAsZero | src/LBinarySerializer/LBinaryDeserializer.cs:163-166 | the default of zero bytes reads as 0 |
| Text.Utf8RoundTrip | src/LBinarySerializer/LBinarySerializer.cs:212-219 | UTF-8 decoding inverts UTF-8 encoding |
| Text.AsciiRoundTrip | src/LBinarySerializer/LBinarySerializer.cs:220-226 | ASCII decoding inverts ASCII encoding exactly for ASCII strings |
| Text.Utf16RoundTrip | src/LBinarySerializer/LBinarySerializer.cs:227-243 | UTF-16 decoding inverts UTF-16 encoding, surrogate pairs included |
| Text.Utf32RoundTrip | src/LBinarySerializer/LBinarySerializer.cs:244-251 | UTF-32 decoding inverts UTF-32 encoding |
| Text.StringRoundTrip | src/LBinarySerializer/LBinaryDeserializer.cs:91-97 | a string comes back through its encoding exactly when the encoding represents it |
| Text.HeaderValue | src/LBinarySerializer/LBinarySerializer.cs:212-251 | the string header equals the model's encoded byte count, and is positive for a non-empty string; for ASCII the count is the UTF-16 unit count, which .NET's encoder matches only on strings without surrogate pairs |
| Text.Utf8KeyReadAsAscii | src/LBinarySerializer/LBinaryDeserializer.cs:538 | a key written as UTF-8 reads back as ASCII exactly when it is ASCII |
| Text.NonAsciiKeyExample | src/LBinarySerializer/LBinarySerializer.cs:480 | "é" is written as two UTF-8 bytes and read back as "??" |

## Left out

- Integer width on the writer: `_offset` and the frames are unbounded there. A buffer is bounded by Array.MaxLength, so they cannot wrap before a write throws. The reader models int wrap-around in full.
- BufferPool is not part of this model. Its growth policy is modelled as any reallocation that keeps the written prefix. The thread-shared pool and `ReleaseToPool` are left out.
- SerializerSettings is not part of this model. `MaxDepthSize` is fixed at 64.
- Enums are modelled with an `int` underlying type only.
- Float, double, Half, decimal, Guid, DateTime, DateTimeOffset and TimeSpan are modelled as their bit patterns. No numeric semantics are modelled.
- Deserializer.LBinaryDeserializer.ReadDecimal, ReadDateTime and ReadDateTimeOffset never fault in the model: they return the raw bits. In C# the value constructors throw on invalid input: `new decimal(int[])` on invalid flags, `new DateTime` on a kind above 3 or ticks out of range, and `new DateTimeOffset` on an invalid offset.
- Serializer.LBinarySerializer.WriteObject: the C# writer throws `IndexOutOfRangeException` when `++_level` reaches 64. The model does not model that throw. Its callers must stay below `MaxDepthSize`, through the `level + depth < MaxDepthSize` precondition.
- `ToMemory` returns the bytes as a value. Its aliasing of the live buffer is not modelled.
- The finalizer, `GC.SuppressFinalize`, threads and the state after an exception are not modelled.
- `Unsafe.ReadUnaligned`/`WriteUnaligned` and `MemoryMarshal.Cast` are modelled as opaque blocks of bytes.
- A read past the end of the data is modelled as a fault, even where the C# code reads unmanaged memory without a check. This covers a string body, a structure, and an unmanaged block.
- Dictionaries are modelled as sequences of entries in enumeration order. Keys are compared as values, structures by their bytes. `StringComparer` and hashing are not modelled.
- Arrays and lists of objects and strings share one model each, because the C# code for them is the same. Unmanaged lists have their own.
- Deserializer.LBinaryDeserializer.ReadObjectsFrom: the C# `for` loops of the collection readers are modelled as recursive methods over the remaining count, one per loop.
- The other collection readers are modelled the same way: ReadStringsFrom, ReadStructObjFrom, ReadStrObjFrom, ReadStrStructFrom and ReadStructStrFrom.
- String encoders and decoders are Dafny functions. The .NET `Encoding` classes are not used. Invalid UTF-16 in a C# string (a lone surrogate) is outside the model, since strings are sequences of Unicode scalar values.
- Serializer.LBinarySerializer.WriteString: for ASCII and UTF-16, which never grow the buffer, the method requires room for the whole string. The model does not cover a short buffer. There the UTF-16 `Buffer.MemoryCopy` would overrun the buffer, and the ASCII `GetBytes` overload throws `ArgumentException`.
- Serializer.LBinarySerializer.WriteString: the ASCII encoding writes one byte per UTF-16 unit, with '?' for each unit outside ASCII. .NET's encoder emits one '?' per surrogate pair, so for "😀" it writes one byte. The header and `_offset` still advance by `value.Length` = 2, which leaves one stale buffer byte after the '?'. The model writes `3F 3F` there. It agrees with .NET on every string without surrogate pairs, which includes every ASCII string that the round-trip lemmas cover.
- Text.HeaderValue: "header equals the encoded byte count" holds for the model's ASCII encoder by construction. For .NET it fails on ASCII strings with surrogate pairs, as described in the line above.
- Text.Utf8Decode: `Utf8DecodeOne` replaces each byte of a truncated or invalid sequence with its own U+FFFD. `E2 82 41` decodes to two U+FFFD and then `A`. .NET emits one U+FFFD per maximal subpart, which gives one U+FFFD and then `A`. Valid UTF-8, which is all the writer produces, decodes the same way in both.
- RoundTrip.FieldsOlderRoundTrip: only the older-reader direction of version tolerance is proved. A newer reader over older data, which reads defaults for the fields that were not written, is not proved.
- RoundTrip.ObjOlderRoundTrip: backward compatibility is proved for nested objects, arrays of objects and the root object. It is not proved for dictionaries of objects read by an older value schema, nor for a newer reader over older data.
- ReaderLaws.NestedObjectEnd: the offset law is stated for one nested object given a reader that keeps its level's end. It is not proved by induction over every read of arbitrary data.
- Disposal: only `Reset` checks it, as in the C# code. The write methods ignore it.
