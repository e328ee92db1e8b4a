/**
 `BinaryComparator.compare`: a size check, then a whole-content digest
 check, then a chunked byte scan that locates the first difference. The
 declarative `Expected` says what the verdict must be; `Compare` is the
 streaming algorithm, proved to produce exactly that verdict.
 */
module BinaryComparator {
  import opened FileIO
  import opened Hashing

  datatype Option<T> = None | Some(value: T)

  /**
   The comparison result. Only `FullMatch` counts as a match, and it carries
   no address or byte values; `Unknown` is the fallback when the scan runs to
   end of file without finding a difference.
   */
  datatype Verdict =
    | SizeDiffers(goldenSize: nat, targetSize: nat)
    | FullMatch
    | ByteMismatch(addr: nat, goldenByte: byte, targetByte: byte)
    | Unknown
  {
    /** The `match` flag of the result. */
    predicate Matched() {
      FullMatch?
    }
  }

  /** `k` is the lowest index at which `g` and `t` hold different bytes. */
  ghost predicate IsFirstDifference(g: seq<byte>, t: seq<byte>, k: nat) {
    && k < |g| && k < |t|
    && g[k] != t[k]
    && forall j :: 0 <= j < k ==> g[j] == t[j]
  }

  /** The lowest index below both lengths where the two contents differ, if any. */
  function FirstDifference(g: seq<byte>, t: seq<byte>): (r: Option<nat>)
    ensures forall k: nat :: IsFirstDifference(g, t, k) <==> r == Some(k)
    ensures r.None? <==> forall j :: 0 <= j < |g| && j < |t| ==> g[j] == t[j]
    decreases |g|
  {
    if |g| == 0 || |t| == 0 then None
    else if g[0] != t[0] then Some(0)
    else
      match FirstDifference(g[1..], t[1..])
      case None => None
      case Some(k) => Some(k + 1)
  }

  /**
   The verdict the comparator must give: sizes first (golden size, then
   target size), then digests, then the first differing byte.
   */
  function Expected<D(==)>(g: seq<byte>, t: seq<byte>, sha: seq<byte> -> D): (v: Verdict)
    ensures v.SizeDiffers? <==> |g| != |t|
    ensures v.SizeDiffers? ==> v.goldenSize == |g| && v.targetSize == |t|
    ensures v.Matched() <==> |g| == |t| && sha(g) == sha(t)
    ensures v.ByteMismatch? ==>
              && IsFirstDifference(g, t, v.addr)
              && v.goldenByte == g[v.addr] && v.targetByte == t[v.addr]
    ensures v.Unknown? ==> forall j :: 0 <= j < |g| ==> g[j] == t[j]
  {
    if |g| != |t| then SizeDiffers(|g|, |t|)
    else if sha(g) == sha(t) then FullMatch
    else
      match FirstDifference(g, t)
      case Some(k) => ByteMismatch(k, g[k], t[k])
      case None => Unknown
  }

  /**
   The per-byte scan of two differing chunks of equal length: the lowest
   index where they differ.
   */
  method ScanChunk(b1: seq<byte>, b2: seq<byte>) returns (i: nat)
    requires |b1| == |b2| && b1 != b2
    ensures i < |b1| && b1[i] != b2[i]
    ensures forall j :: 0 <= j < i ==> b1[j] == b2[j]
  {
    i := 0;
    while i < |b1| && b1[i] == b2[i]
      invariant i <= |b1|
      invariant forall j :: 0 <= j < i ==> b1[j] == b2[j]
    {
      i := i + 1;
    }
  }

  /**
   Stage 3 of `compare`: rewinds the handles of both equal-length files
   (wherever the digest pass left them) and reads them in
   lock-step `ChunkSize` chunks; in the first pair of chunks that differ it
   scans for the first differing byte and reports its absolute address,
   `offset + i`. `bytesRead` counts the bytes the `read` calls deliver.
   */
  method LocateMismatch(golden: seq<byte>, target: seq<byte>, h1: Handle, h2: Handle)
      returns (v: Verdict, bytesRead: nat)
    requires |golden| == |target|
    requires h1.content == golden && h2.content == target
    ensures v.ByteMismatch? || v.Unknown?
    ensures v.ByteMismatch? ==>
              && IsFirstDifference(golden, target, v.addr)
              && v.goldenByte == golden[v.addr] && v.targetByte == target[v.addr]
              && bytesRead == 2 * ChunkEnd(v.addr, |golden|)
    ensures v.Unknown? ==>
              && (forall j :: 0 <= j < |golden| ==> golden[j] == target[j])
              && bytesRead == 2 * |golden|
  {
    var f1 := Seek(h1, 0);
    var f2 := Seek(h2, 0);
    var offset := 0;
    bytesRead := 0;
    while true
      invariant f1 == Handle(golden, offset) && f2 == Handle(target, offset)
      invariant offset <= |golden|
      invariant offset % ChunkSize == 0 || offset == |golden|
      invariant forall j :: 0 <= j < offset ==> golden[j] == target[j]
      invariant bytesRead == 2 * offset
      decreases |golden| - offset
    {
      var r1 := Read(f1, ChunkSize);
      var r2 := Read(f2, ChunkSize);
      bytesRead := bytesRead + |r1.chunk| + |r2.chunk|;
      f1 := r1.rest;
      f2 := r2.rest;
      if r1.chunk == [] {
        break;
      }
      if r1.chunk != r2.chunk {
        var i := ScanChunk(r1.chunk, r2.chunk);
        var addr := offset + i;
        ChunkEndOfAligned(offset, i, |golden|);
        return ByteMismatch(addr, r1.chunk[i], r2.chunk[i]), bytesRead;
      }
      offset := offset + |r1.chunk|;
    }
    return Unknown, bytesRead;
  }

  /**
   Compares golden content `golden` with target content `target`, giving
   exactly the `Expected` verdict. `hashPasses` counts the files run
   through the digest (none when the sizes differ, even for empty files),
   and `bytesRead` counts the bytes the `read`
   calls deliver after the size check: none when the sizes differ, one full
   pass over each file for the digests, and for a byte mismatch a second
   pass over each file that stops at the end of the chunk holding the first
   difference.
   */
  method Compare<D(==)>(golden: seq<byte>, target: seq<byte>, sha: seq<byte> -> D)
      returns (v: Verdict, hashPasses: nat, bytesRead: nat)
    ensures v == Expected(golden, target, sha)
    ensures hashPasses == (if v.SizeDiffers? then 0 else 2)
    ensures v.SizeDiffers? ==> bytesRead == 0
    ensures v.Matched() ==> bytesRead == 2 * |golden|
    ensures v.ByteMismatch? ==> bytesRead == 2 * |golden| + 2 * ChunkEnd(v.addr, |golden|)
    // vacuous by NeverUnknown; states what the fallback path would have read
    ensures v.Unknown? ==> bytesRead == 4 * |golden|
  {
    // 1. size check
    if |golden| != |target| {
      return SizeDiffers(|golden|, |target|), 0, 0;
    }

    // 2. digest check
    var hash1, f1, fed1 := CalculateSha256(Handle(golden, 0), sha);
    var hash2, f2, fed2 := CalculateSha256(Handle(target, 0), sha);
    hashPasses := 2;
    var hashed := f1.pos + f2.pos;
    if hash1 == hash2 {
      return FullMatch, hashPasses, hashed;
    }

    // 3. byte-level localization
    var scanned;
    v, scanned := LocateMismatch(golden, target, f1, f2);
    bytesRead := hashed + scanned;
  }

  /**
   The fallback verdict is unreachable: differing digests imply differing
   contents, and equal-length differing contents have a first difference,
   so a digest mismatch always ends in a located byte mismatch.
   */
  lemma NeverUnknown<D>(g: seq<byte>, t: seq<byte>, sha: seq<byte> -> D)
    ensures !Expected(g, t, sha).Unknown?
    ensures |g| == |t| && sha(g) != sha(t) ==> Expected(g, t, sha).ByteMismatch?
  {
    if |g| == |t| && sha(g) != sha(t) {
      assert g != t;
    }
  }

  /**
   Identical contents, the empty ones included, match whatever the digest
   function; under an injective digest a match also means the contents are
   identical.
   */
  lemma MatchIffIdentical<D>(g: seq<byte>, t: seq<byte>, sha: seq<byte> -> D)
    ensures g == t ==> Expected(g, t, sha).Matched()
    ensures Injective(sha) && Expected(g, t, sha).Matched() ==> g == t
  {
  }

  /**
   Two equal-length contents that differ at exactly one index `k` are
   reported as a byte mismatch at `k` with the golden and then the target
   byte, wherever `k` falls relative to chunk boundaries.
   */
  lemma SingleByteDifference<D>(g: seq<byte>, t: seq<byte>, k: nat, sha: seq<byte> -> D)
    requires Injective(sha)
    requires |g| == |t| && k < |g| && g[k] != t[k]
    requires forall j :: 0 <= j < |g| && j != k ==> g[j] == t[j]
    ensures Expected(g, t, sha) == ByteMismatch(k, g[k], t[k])
  {
  }
}
