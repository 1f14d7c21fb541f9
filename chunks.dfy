/**
 * Chunk arithmetic and payload slicing of `Core`: how many chunks a file of
 * a given length is cut into, how long each chunk is, and the bytes a chunk
 * read returns.  The file is its contents, a sequence of bytes.
 */
module Chunks {
  import opened Wrappers

  type byte = b: int | 0 <= b < 256

  /** Core.DEFAULT_CHUNK_SIZE (1 MiB) and Core.DEFAULT_MAX_ATTEMPTS. */
  const DefaultChunkSize: int := 1024 * 1024
  const DefaultMaxAttempts: int := 5

  function Min(a: int, b: int): int
  {
    if a <= b then a else b
  }

  lemma MulMonotone(i: int, j: int, size: int)
    requires i <= j && size >= 0
    ensures i * size <= j * size
  {
    assert j * size - i * size == (j - i) * size;
  }

  /** Math.Ceiling of the exact quotient a / b, for b > 0. */
  function CeilDiv(a: int, b: int): (q: int)
    requires b > 0
    ensures (q - 1) * b < a <= q * b
  {
    var k := (-a) / b;
    assert -a == b * k + (-a) % b;
    assert (-k) * b == a + (-a) % b;
    assert (-k - 1) * b == (-k) * b - b;
    -k
  }

  /** Core.GetChunksCount(long, int): a negative chunk size means one chunk
      (the whole file), zero means none, and otherwise the smallest count of
      chunk-size pieces that covers the file. */
  function ChunksCount(fileSize: int, chunkSize: int): (n: int)
    ensures chunkSize < 0 ==> n == 1
    ensures chunkSize == 0 ==> n == 0
    ensures chunkSize > 0 ==> (n - 1) * chunkSize < fileSize <= n * chunkSize
    ensures chunkSize > 0 && fileSize >= 0 ==> n >= 0
  {
    if chunkSize < 0 then 1
    else if chunkSize == 0 then 0
    else
      var n := CeilDiv(fileSize, chunkSize);
      assert fileSize >= 0 ==> n >= 0 by {
        if fileSize >= 0 && n < 0 {
          MulMonotone(n, -1, chunkSize);
        }
      }
      n
  }

  /** Core.GetChunkSize(long, long, long): the size of chunk `index`, cut
      short where it would run past the end of the file; a size of zero or
      less stands for the whole file.  A chunk starting past the end comes
      out negative. */
  function ChunkSize(fileSize: int, index: int, size: int): (r: int)
    ensures size <= 0 ==> r == fileSize
    ensures size > 0 && 0 <= index * size <= fileSize ==>
      0 <= r <= size && index * size + r == Min(fileSize, (index + 1) * size)
    ensures size > 0 && index * size > fileSize ==> r < 0
  {
    assert (index + 1) * size == index * size + size;
    var startByte := index * size;
    if size > 0 then
      if size + startByte > fileSize then fileSize - startByte else size
    else fileSize
  }

  /** The sum of the sizes of chunks 0 .. k-1. */
  function SumOfSizes(fileSize: int, size: int, k: nat): int
  {
    if k == 0 then 0 else SumOfSizes(fileSize, size, k - 1) + ChunkSize(fileSize, k - 1, size)
  }

  lemma {:induction false} FullChunks(fileSize: int, size: int, k: nat)
    requires size > 0 && k * size <= fileSize
    ensures SumOfSizes(fileSize, size, k) == k * size
    ensures forall i :: 0 <= i < k ==> ChunkSize(fileSize, i, size) == size
  {
    if k > 0 {
      MulMonotone(k - 1, k, size);
      FullChunks(fileSize, size, k - 1);
      assert size + (k - 1) * size == k * size;
    }
  }

  /** Chunks tile the file: for a positive chunk size every chunk is
      non-empty and at most `size` long, and their sizes add up to the file
      length. */
  lemma ChunksTileFile(fileSize: int, size: int)
    requires fileSize >= 0 && size > 0
    ensures var n := ChunksCount(fileSize, size);
      && SumOfSizes(fileSize, size, n) == fileSize
      && forall i :: 0 <= i < n ==> 0 < ChunkSize(fileSize, i, size) <= size
  {
    var n := ChunksCount(fileSize, size);
    if n > 0 {
      FullChunks(fileSize, size, n - 1);
      assert size + (n - 1) * size == n * size;
    }
  }

  /** The exceptions GetPayload lets escape: seeking before the start of the
      file (IOException) and allocating a negative-length buffer
      (OverflowException) when the start lies past the end. */
  datatype PayloadError = SeekBeforeBegin | NegativeLength

  /** The bytes Core.GetPayload(path, startbyte, psize) returns: the bytes
      from `startByte`, at most `size` of them when a positive size is given
      and all the rest otherwise (a null size counts as -1). */
  function Payload(file: seq<byte>, startByte: int, psize: Option<int>): (r: Result<seq<byte>, PayloadError>)
    ensures r.Success? <==> 0 <= startByte <= |file|
    ensures r.Success? ==>
      var size := if psize.Some? then psize.value else -1;
      && |r.value| == (if size > 0 then Min(size, |file| - startByte) else |file| - startByte)
      && r.value == file[startByte..startByte + |r.value|]
  {
    var size := if psize.Some? then psize.value else -1;
    if startByte < 0 then Failure(SeekBeforeBegin)
    else if startByte > |file| then Failure(NegativeLength)
    else if size > 0 then Success(file[startByte..startByte + Min(size, |file| - startByte)])
    else Success(file[startByte..])
  }

  /** Core.GetPayload: clamps the size, allocates the buffer and fills it
      from the file. */
  method GetPayload(file: seq<byte>, startByte: int, psize: Option<int>) returns (r: Result<seq<byte>, PayloadError>)
    ensures r == Payload(file, startByte, psize)
  {
    var size := if psize.Some? then psize.value else -1;
    if startByte < 0 {
      return Failure(SeekBeforeBegin);
    }
    var n: int;
    if size > 0 {
      if size + startByte > |file| {
        size := |file| - startByte;
      }
      n := size;
    } else {
      n := |file| - startByte;
    }
    if n < 0 {
      return Failure(NegativeLength);
    }
    var data := new byte[n];
    var i := 0;
    while i < n
      invariant 0 <= i <= n
      invariant data[..i] == file[startByte..startByte + i]
    {
      data[i] := file[startByte + i];
      i := i + 1;
    }
    assert data[..] == data[..n];
    assert n == |Payload(file, startByte, psize).value|;
    return Success(data[..]);
  }

  /** The first k chunk payloads, one after the other. */
  function ChunkBytes(file: seq<byte>, size: int, k: nat): seq<byte>
    requires size > 0
  {
    if k == 0 then []
    else
      match Payload(file, (k - 1) * size, Some(size))
      case Success(p) => ChunkBytes(file, size, k - 1) + p
      case Failure(_) => ChunkBytes(file, size, k - 1)
  }

  lemma {:induction false} ChunkBytesPrefix(file: seq<byte>, size: int, k: nat)
    requires size > 0 && k * size <= |file|
    ensures ChunkBytes(file, size, k) == file[..k * size]
  {
    if k > 0 {
      MulMonotone(k - 1, k, size);
      ChunkBytesPrefix(file, size, k - 1);
      assert (k - 1) * size + size == k * size;
      var p := Payload(file, (k - 1) * size, Some(size));
      assert p.value == file[(k - 1) * size..k * size];
      assert file[..k * size] == file[..(k - 1) * size] + file[(k - 1) * size..k * size];
    }
  }

  /** All the chunk payloads, one after the other, are the file. */
  lemma ChunkBytesWhole(file: seq<byte>, size: int)
    requires size > 0
    ensures ChunkBytes(file, size, ChunksCount(|file|, size)) == file
  {
    var n := ChunksCount(|file|, size);
    if n > 0 {
      var start := (n - 1) * size;
      assert start + size == n * size;
      ChunkBytesPrefix(file, size, n - 1);
      LastPayload(file, start, size);
      assert file == file[..start] + file[start..];
    }
  }

  /** A chunk starting within `size` bytes of the end reads the rest. */
  lemma LastPayload(file: seq<byte>, start: int, size: int)
    requires 0 <= start <= |file| <= start + size
    ensures Payload(file, start, Some(size)).Success?
    ensures Payload(file, start, Some(size)).value == file[start..]
  {
  }

  /** Chunk i of a file cut into ChunksCount pieces can be read, and it is
      ChunkSize(length, i, size) bytes long. */
  lemma ChunkPayloadSize(file: seq<byte>, size: int, i: int)
    requires size > 0 && 0 <= i < ChunksCount(|file|, size)
    ensures Payload(file, i * size, Some(size)).Success?
    ensures |Payload(file, i * size, Some(size)).value| == ChunkSize(|file|, i, size)
  {
    MulMonotone(i, ChunksCount(|file|, size) - 1, size);
  }

  /** Reading chunk after chunk with GetPayload rebuilds the file exactly,
      and chunk i is ChunkSize(length, i, size) bytes long. */
  lemma ChunkPayloadsRebuildFile(file: seq<byte>, size: int)
    requires size > 0
    ensures ChunkBytes(file, size, ChunksCount(|file|, size)) == file
    ensures forall i :: 0 <= i < ChunksCount(|file|, size) ==>
      Payload(file, i * size, Some(size)).Success? &&
      |Payload(file, i * size, Some(size)).value| == ChunkSize(|file|, i, size)
  {
    ChunkBytesWhole(file, size);
    forall i | 0 <= i < ChunksCount(|file|, size)
      ensures Payload(file, i * size, Some(size)).Success?
      ensures |Payload(file, i * size, Some(size)).value| == ChunkSize(|file|, i, size)
    {
      ChunkPayloadSize(file, size, i);
    }
  }
}
