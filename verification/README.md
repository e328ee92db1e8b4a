# Binary image comparator — Dafny model

This project models the core of a small tool that checks "golden" reference
binaries against candidate files of the same name. It has two parts.

- **`BinaryComparator.compare`** gives a verdict for one golden/target pair in
  three stages, and each stage can return early. The first stage compares the
  two sizes. The second compares the SHA-256 digests of the whole contents,
  which are read in 4096-byte chunks. The third rewinds both files, reads them
  in lock-step 4096-byte chunks and reports the absolute address of the first
  differing byte with the two byte values. If the scan finds no difference,
  the verdict is "unknown error".
- **`ImageComparatorApp.run` / `print_summary`** keep the `.bin` entries of
  the golden directory in listing order. For each one the runner records SKIP
  when no same-named target exists, and otherwise MATCH or MISMATCH from the
  verdict. The exit code is 1 exactly when some result is MISMATCH.

Modules, one per part of the program:

- `FileIO` (`fileio.dfy`) holds bytes (`bv8`), an open file as a content plus
  a position (`Handle`), `read`/`seek`, and `Chunks`. `Chunks` is the
  reference splitting of a content into the pieces a `read(4096)` loop
  returns.
- `Hashing` (`hashing.dfy`) models the streaming digest. The SHA-256 function
  is a parameter `sha: seq<byte> -> D`. A `hashlib` hasher is modelled by the
  bytes it has absorbed, so feeding `a` and then `b` digests `a + b`.
  `Injective(sha)` is the explicit collision-freedom assumption. It is used
  only by the lemmas that need "equal digests mean equal bytes".
- `BinaryComparator` (`binary_comparator.dfy`) holds `Verdict`, the
  declarative `Expected` verdict, and the streaming `Compare`. `Compare` is
  proved to return exactly `Expected`.
- `ImageComparatorApp` (`image_comparator_app.dfy`) holds the batch runner.
  The directory listing is a `seq<Entry>` (name and content, in listing
  order). The working directory is a `map<string, seq<byte>>`: a name is
  present when it is a key. `Run` also returns `compared`, the names it
  handed to the comparator, so that "no comparison for SKIP" can be stated.

`Compare` also returns `hashPasses`, the number of files run through the
digest, and `bytesRead`, the number of bytes the `read` calls deliver after
the size check. They make the short-circuit claims checkable:

- a size mismatch hashes nothing and reads nothing;
- a full match reads each file once;
- a byte mismatch adds a second pass that stops at the end of the chunk
  holding the first difference.

## Model

| member | source | states |
|---|---|---|
| FileIO.Read | comparator.py:36-37 | A `read(n)` on a regular file: the content is unchanged, the chunk is what lies between the old and new positions, at most `n` bytes, exactly `n` bytes when that many remain, and empty exactly at end of file. |
| FileIO.Chunks | comparator.py:57-59 | The chunks of a `read(4096)` loop from position 0 to the first empty read, concatenated, are the whole content, including a trailing partial chunk. |
| FileIO.ChunksShape | comparator.py:58 | Every chunk is non-empty and at most 4096 bytes. All but the last are exactly 4096 bytes. There are ceil(size / 4096) chunks. |
| Hashing.CalculateSha256 | comparator.py:55-60 | After rewinding, the pieces fed to the hasher are exactly `Chunks(content)`. The digest is therefore that of the entire content. The handle is left at end of file. |
| BinaryComparator.FirstDifference | comparator.py:41-49 | Returns `Some(k)` exactly when `k` is the lowest index where the contents differ. Returns `None` exactly when they agree on every common index. |
| BinaryComparator.Expected | comparator.py:12-52 | Size mismatch iff the sizes differ, recording the golden size then the target size. Match iff the sizes are equal and the digests are equal. A byte mismatch names the lowest differing index and the golden then target byte there. "Unknown" only when all bytes agree. |
| BinaryComparator.ScanChunk | comparator.py:43-49 | For two differing chunks of equal length, the per-byte scan returns the lowest index where they differ. |
| BinaryComparator.LocateMismatch | comparator.py:30-52 | Starting from the handles the digest pass left behind and rewinding them, the lock-step chunked scan keeps `offset` chunk-aligned, and all bytes below `offset` are equal. It reports address `offset + i`, which is the lowest differing index, with `golden[addr]` then `target[addr]`. It reads both files up to the end of that chunk. If it reaches end of file, every byte agrees and the result is "unknown". |
| BinaryComparator.Compare | comparator.py:12-52 | The verdict is exactly `Expected`. A size mismatch runs no digest pass (even for empty files) and reads no bytes, so there is no hashing and no scan; otherwise both files are hashed. A match reads each file once. A byte mismatch re-reads both files only up to the end of the 4096-byte chunk holding the first difference. |
| BinaryComparator.NeverUnknown | comparator.py:25-52 | The "Unknown error" fallback is never the verdict. Equal sizes with differing digests always end in a located byte mismatch, so a digest mismatch is never reported as a match. |
| BinaryComparator.MatchIffIdentical | comparator.py:22-26 | Identical contents, empty ones included, match for every digest function. Under an injective digest, a match also means the contents are identical. |
| BinaryComparator.SingleByteDifference | comparator.py:41-49 | Under an injective digest, equal-length contents that differ only at index `k` give a byte mismatch at `k` with `golden[k]` and `target[k]`, for every `k` (0, 4095, 4096, the last byte). |
| ImageComparatorApp.BinFiles | comparator.py:75 | The golden files are exactly the listed entries whose name ends in `.bin`. |
| ImageComparatorApp.BinFilesAppend | comparator.py:75 | The `.bin` filter distributes over concatenation, so it keeps listing order. |
| ImageComparatorApp.Invoked | comparator.py:88-89 | The names handed to the comparator are exactly the golden names whose target exists. |
| ImageComparatorApp.CompareFile | comparator.py:82-99 | For one golden file: SKIP iff the target is absent, and then the comparator is not called. Otherwise MATCH iff the verdict matched, else MISMATCH. The result carries the file name. |
| ImageComparatorApp.CompareAll | comparator.py:82-99 | One result per golden file, in order, each as `CompareFile` states. The comparator is called in order on the golden files whose target exists, and on no others. |
| ImageComparatorApp.Mismatches | comparator.py:106-110 | The mismatch count is at most the number of results, and positive iff some result is MISMATCH. |
| ImageComparatorApp.MismatchesAppend | comparator.py:106-110 | The count is additive over concatenation, so it is the number of MISMATCH results. |
| ImageComparatorApp.Summary | comparator.py:106-114 | The exit code is 0 or 1, and it is 1 iff some result is MISMATCH. SKIP does not count. |
| ImageComparatorApp.Run | comparator.py:75-101 | With no `.bin` entry, the run ends early with no results and no exit code. Otherwise there is one result per `.bin` entry, in listing order, with statuses and invocations as above, and an exit code of 1 iff some result is MISMATCH. |
| ImageComparatorApp.ReportsUnderInjectiveDigest | comparator.py:88-99 | Under an injective digest: MATCH iff the target exists with the same bytes, MISMATCH iff it exists with other bytes. |

## Left out

- SHA-256 itself: the digest is a function parameter. That streaming updates digest the concatenation is a modelling assumption about the hash library.
- Filesystem access (`getsize`, `open`, `listdir`, `exists`, `join`): contents are in-memory sequences. The size is the sequence length. Presence in the working directory is membership in a map.
- The missing-golden-directory branch (comparator.py:70-73): it is a pure filesystem check followed by an early return.
- Console output and the formatting of reasons (hex addresses, padding, banners): reasons are `Verdict` constructors, not strings.
- `wait_for_any_key` and `sys.exit`: these are interactive and process actions. Only the computed exit code is modelled. With no `.bin` files the run ends as `NoFiles`, with no exit code derived from mismatches.
- I/O errors (unreadable files, a directory named like a `.bin` file, files changing between passes): the model reads whole, stable contents.
- BinaryComparator.ScanChunk: this covers only the case that can occur, two differing chunks of equal length. The source's path where the per-byte scan of differing chunks finds nothing and the outer loop continues is unreachable once stage 1 has fixed equal sizes, and it is not modelled.
- BinaryComparator.LocateMismatch: requires equal sizes. The source only reaches this stage after the size check has passed.
