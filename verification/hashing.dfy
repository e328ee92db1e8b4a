/**
 The streaming digest of `BinaryComparator._calculate_sha256`. The SHA-256
 function itself is a parameter `sha`; the hasher is modelled by the bytes it
 has absorbed, so `update(a); update(b)` digests `a + b`, as the streaming
 interface of a hash guarantees.
 */
module Hashing {
  import opened FileIO

  /** A `hashlib.sha256()` object, represented by the bytes fed to it so far. */
  datatype Sha256 = Sha256(absorbed: seq<byte>) {

    function Update(chunk: seq<byte>): Sha256 {
      Sha256(absorbed + chunk)
    }

    function HexDigest<D>(sha: seq<byte> -> D): D {
      sha(absorbed)
    }
  }

  const NewSha256: Sha256 := Sha256([])

  /** A digest function under which equal digests mean equal contents. */
  ghost predicate Injective<D>(sha: seq<byte> -> D) {
    forall a, b :: sha(a) == sha(b) ==> a == b
  }

  /**
   Rewinds the handle, feeds it to a fresh hasher in `ChunkSize` pieces until
   the first empty read, and returns the digest and the handle left at end
   of file. The pieces fed are exactly `Chunks(content)`, so the digest is
   that of the whole content.
   */
  method CalculateSha256<D>(h: Handle, sha: seq<byte> -> D)
      returns (digest: D, h': Handle, ghost fed: seq<seq<byte>>)
    ensures digest == sha(h.content)
    ensures h' == Handle(h.content, |h.content|)
    ensures fed == Chunks(h.content)
  {
    var hasher := NewSha256;
    var f := Seek(h, 0);
    fed := [];
    while true
      invariant f.content == h.content && f.pos <= |h.content|
      invariant hasher.absorbed == h.content[..f.pos]
      invariant fed + Chunks(h.content[f.pos..]) == Chunks(h.content)
      decreases |h.content| - f.pos
    {
      var r := Read(f, ChunkSize);
      if r.chunk == [] {
        f := r.rest;
        break;
      }
      ReadTakesNextChunk(h.content, f.pos);
      ChunkedPrefixGrows(fed, h.content, f.pos);
      hasher := hasher.Update(r.chunk);
      fed := fed + [r.chunk];
      f := r.rest;
    }
    assert h.content[..f.pos] == h.content;
    assert Chunks(h.content[f.pos..]) == [];
    assert fed + [] == fed;
    digest := hasher.HexDigest(sha);
    h' := f;
  }
}
