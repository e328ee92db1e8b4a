/**
 In-memory model of the binary file handles the comparator reads from: a
 handle is the file's whole content plus a read position, `Read` hands out
 the next chunk of at most `n` bytes, and `Chunks` is the reference
 splitting of a content into the fixed-size pieces a streaming reader sees.
 */
module FileIO {

  type byte = bv8

  /** The buffer size both streaming loops pass to `read`. */
  const ChunkSize: nat := 4096

  function Min(a: int, b: int): int {
    if a <= b then a else b
  }

  /** An open file opened in binary mode: its content and the current position. */
  datatype Handle = Handle(content: seq<byte>, pos: nat)

  /** What one `read` call yields: the bytes read and the handle afterwards. */
  datatype ReadResult = ReadResult(chunk: seq<byte>, rest: Handle)

  /** `seek(p)`: moves the position without touching the content. */
  function Seek(h: Handle, p: nat): Handle {
    Handle(h.content, p)
  }

  /** `read(n)`: the next at most `n` bytes; an empty chunk exactly at end of file. */
  function Read(h: Handle, n: nat): (r: ReadResult)
    ensures r.rest.content == h.content
    ensures r.rest.pos <= |h.content|
    ensures |r.chunk| <= n
    ensures h.pos + n <= |h.content| ==> |r.chunk| == n
    ensures n > 0 ==> (r.chunk == [] <==> h.pos >= |h.content|)
    ensures h.pos <= |h.content| ==>
              h.pos <= r.rest.pos && h.content[h.pos..] == r.chunk + h.content[r.rest.pos..]
  {
    var start := Min(h.pos, |h.content|);
    var end := Min(start + n, |h.content|);
    ReadResult(h.content[start..end], Handle(h.content, end))
  }

  /** Concatenation of a sequence of chunks. */
  function Flatten(cs: seq<seq<byte>>): seq<byte> {
    if cs == [] then [] else cs[0] + Flatten(cs[1..])
  }

  /**
   The chunks a reader obtains by calling `read(ChunkSize)` from position 0
   until the first empty read. Together they are the whole content, the
   trailing partial chunk included.
   */
  function Chunks(data: seq<byte>): (cs: seq<seq<byte>>)
    ensures Flatten(cs) == data
    decreases |data|
  {
    if |data| == 0 then []
    else if |data| <= ChunkSize then
      assert Flatten([data]) == data + Flatten([]);
      [data]
    else
      var tail := Chunks(data[ChunkSize..]);
      assert ([data[..ChunkSize]] + tail)[1..] == tail;
      [data[..ChunkSize]] + tail
  }

  /**
   Shape of the chunking: every chunk is non-empty and at most `ChunkSize`
   long, all but the last are full, and there are `ceil(|data| / ChunkSize)`
   of them.
   */
  lemma {:induction false} ChunksShape(data: seq<byte>)
    ensures var cs := Chunks(data);
            && (forall i :: 0 <= i < |cs| ==> 0 < |cs[i]| <= ChunkSize)
            && (forall i :: 0 <= i < |cs| - 1 ==> |cs[i]| == ChunkSize)
            && |cs| == (|data| + ChunkSize - 1) / ChunkSize
    decreases |data|
  {
    if |data| > ChunkSize {
      ChunksShape(data[ChunkSize..]);
      var tail := Chunks(data[ChunkSize..]);
      assert Chunks(data) == [data[..ChunkSize]] + tail;
    }
  }

  /** The first chunk of `data` and what is left after it. */
  lemma ChunksStep(data: seq<byte>)
    requires |data| > 0
    ensures Chunks(data) == [data[..Min(ChunkSize, |data|)]] + Chunks(data[Min(ChunkSize, |data|)..])
  {
  }

  /**
   One `read(ChunkSize)` before end of file takes exactly the first of the
   remaining chunks, and the bytes consumed so far grow by that chunk.
   */
  lemma ReadTakesNextChunk(content: seq<byte>, pos: nat)
    requires pos < |content|
    ensures var r := Read(Handle(content, pos), ChunkSize);
            && Chunks(content[pos..]) == [r.chunk] + Chunks(content[r.rest.pos..])
            && content[..r.rest.pos] == content[..pos] + r.chunk
  {
    var r := Read(Handle(content, pos), ChunkSize);
    var left := content[pos..];
    ChunksStep(left);
    assert r.chunk == left[..Min(ChunkSize, |left|)];
    assert content[r.rest.pos..] == left[Min(ChunkSize, |left|)..];
  }

  /** Appending the chunk just read keeps `done` a prefix of the chunking of `content`. */
  lemma ChunkedPrefixGrows(done: seq<seq<byte>>, content: seq<byte>, pos: nat)
    requires pos < |content|
    requires done + Chunks(content[pos..]) == Chunks(content)
    ensures var r := Read(Handle(content, pos), ChunkSize);
            (done + [r.chunk]) + Chunks(content[r.rest.pos..]) == Chunks(content)
  {
    var r := Read(Handle(content, pos), ChunkSize);
    ReadTakesNextChunk(content, pos);
    assert (done + [r.chunk]) + Chunks(content[r.rest.pos..])
        == done + ([r.chunk] + Chunks(content[r.rest.pos..]));
  }

  /** The end of the `ChunkSize`-aligned chunk that holds index `k` of an `n`-byte file. */
  function ChunkEnd(k: nat, n: nat): nat {
    Min(n, (k / ChunkSize + 1) * ChunkSize)
  }

  /** An index `i` into the chunk starting at the aligned `offset` lies in that chunk. */
  lemma ChunkEndOfAligned(offset: nat, i: nat, n: nat)
    requires offset % ChunkSize == 0 && i < ChunkSize
    ensures ChunkEnd(offset + i, n) == Min(n, offset + ChunkSize)
  {
  }
}
