/** The growth contract the writer relies on from BufferPool. The pool itself
    (shared, thread-safe reuse of arrays) is not part of this model: a buffer
    is handed out fresh and growth is any reallocation that keeps the bytes
    already written. */
module BufferPool {
  import opened Bytes
  import opened Wire

  /** BufferPool.GetCachedBuffer: a buffer of at least the requested size. */
  method GetCachedBuffer(size: nat) returns (b: array<byte>)
    requires size <= MaxArrayLength
    ensures fresh(b)
    ensures size <= b.Length <= MaxArrayLength
  {
    b := new byte[size];
  }

  /** BufferPool.EnsureCapacity(ref buffer, at, count): make room for `count`
      bytes at position `at`. Growing past Array.MaxLength fails ("The buffer
      is too big"); the failure is reported as `ok == false` with the buffer
      untouched. A buffer that already has room is returned as is. A grown
      buffer keeps every byte before `at`. */
  method EnsureCapacity(buffer: array<byte>, at: nat, count: nat) returns (r: array<byte>, ok: bool)
    requires buffer.Length <= MaxArrayLength
    ensures ok <==> at + count <= MaxArrayLength
    ensures ok ==> at + count <= r.Length
    ensures r.Length <= MaxArrayLength
    ensures !ok || at + count <= buffer.Length ==> r == buffer
    ensures r != buffer ==> fresh(r) && r.Length > buffer.Length
    ensures forall i | 0 <= i < at && i < buffer.Length :: r[i] == buffer[i]
  {
    if at + count <= buffer.Length {
      return buffer, true;
    }
    if at + count > MaxArrayLength {
      return buffer, false;
    }
    var size := at + count;
    if size < 2 * buffer.Length {
      size := if 2 * buffer.Length <= MaxArrayLength then 2 * buffer.Length else MaxArrayLength;
    }
    r := new byte[size];
    var keep := if at < buffer.Length then at else buffer.Length;
    forall i | 0 <= i < keep {
      r[i] := buffer[i];
    }
    ok := true;
  }
}
