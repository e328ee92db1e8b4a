/**
 The batch runner of `ImageComparatorApp`: keeps the golden directory's
 `.bin` entries in listing order, compares each with the same-named file of
 the working directory (or records SKIP when there is none), and derives the
 exit code from the number of mismatches.
 */
module ImageComparatorApp {
  import opened FileIO
  import opened Hashing
  import opened BinaryComparator

  /** An entry of the golden directory: its name and content. */
  datatype Entry = Entry(name: string, content: seq<byte>)

  datatype Status = Match | Mismatch | Skip

  /** One line of the summary. */
  datatype FileResult = FileResult(file: string, status: Status)

  /**
   How a run ends: early when the golden directory holds no `.bin` file,
   otherwise with one result per golden file and the exit code.
   */
  datatype RunOutcome =
    | NoFiles
    | Finished(results: seq<FileResult>, exitCode: int)

  /** The name ends in `.bin` (case-sensitive; `.bin` alone qualifies). */
  predicate IsBin(name: string) {
    |name| >= 4 && name[|name| - 4..] == ".bin"
  }

  /** The golden files: the listed entries whose name ends in `.bin`, in listing order. */
  function BinFiles(listing: seq<Entry>): (files: seq<Entry>)
    ensures |files| <= |listing|
    ensures forall e :: e in files <==> e in listing && IsBin(e.name)
  {
    if listing == [] then []
    else (if IsBin(listing[0].name) then [listing[0]] else []) + BinFiles(listing[1..])
  }

  /**
   The filter distributes over concatenation; with the one-entry case of its
   definition this pins down that it keeps order and drops nothing else.
   */
  lemma {:induction false} BinFilesAppend(a: seq<Entry>, b: seq<Entry>)
    ensures BinFiles(a + b) == BinFiles(a) + BinFiles(b)
  {
    if a == [] {
      assert a + b == b;
    } else {
      assert (a + b)[1..] == a[1..] + b;
      BinFilesAppend(a[1..], b);
    }
  }

  /** The names of the golden files that have a same-named target, in order. */
  function Invoked(files: seq<Entry>, targets: map<string, seq<byte>>): (names: seq<string>)
    ensures |names| <= |files|
    ensures forall n :: n in names <==> exists e :: e in files && e.name == n && n in targets
  {
    if files == [] then []
    else
      var last := files[|files| - 1];
      assert forall e :: e in files <==> e in files[..|files| - 1] || e == last;
      Invoked(files[..|files| - 1], targets) + (if last.name in targets then [last.name] else [])
  }

  /** Extending the processed prefix by one file extends the invocations by at most its name. */
  lemma InvokedStep(files: seq<Entry>, k: nat, targets: map<string, seq<byte>>)
    requires k < |files|
    ensures Invoked(files[..k + 1], targets)
         == Invoked(files[..k], targets) + (if files[k].name in targets then [files[k].name] else [])
  {
    assert files[..k + 1][..k] == files[..k];
  }

  /** `r` is the result the runner records for the golden file `e`. */
  ghost predicate Reports<D>(e: Entry, r: FileResult, targets: map<string, seq<byte>>, sha: seq<byte> -> D) {
    && r.file == e.name
    && (r.status == Skip <==> e.name !in targets)
    && (r.status == Match <==> e.name in targets && Expected(e.content, targets[e.name], sha).Matched())
  }

  /**
   Number of MISMATCH results, the count `print_summary` accumulates:
   positive exactly when some result is MISMATCH.
   */
  function Mismatches(results: seq<FileResult>): (n: nat)
    ensures n <= |results|
    ensures n > 0 <==> exists i :: 0 <= i < |results| && results[i].status == Mismatch
  {
    if results == [] then 0
    else
      var init := results[..|results| - 1];
      assert forall i :: 0 <= i < |init| ==> init[i] == results[i];
      Mismatches(init) + (if results[|results| - 1].status == Mismatch then 1 else 0)
  }

  /**
   The count is additive over concatenation; with the one-result case of its
   definition this makes it the number of MISMATCH results.
   */
  lemma {:induction false} MismatchesAppend(a: seq<FileResult>, b: seq<FileResult>)
    ensures Mismatches(a + b) == Mismatches(a) + Mismatches(b)
    decreases |b|
  {
    if b == [] {
      assert a + b == a;
    } else {
      var init := b[..|b| - 1];
      assert (a + b)[..|a + b| - 1] == a + init;
      MismatchesAppend(a, init);
    }
  }

  /** `print_summary`: counts the mismatches and picks the exit code. */
  method Summary(results: seq<FileResult>) returns (exitCode: int)
    ensures exitCode == 0 || exitCode == 1
    ensures exitCode == 1 <==> exists i :: 0 <= i < |results| && results[i].status == Mismatch
  {
    var mismatchCount := 0;
    for k := 0 to |results|
      invariant mismatchCount == Mismatches(results[..k])
    {
      assert results[..k + 1][..k] == results[..k];
      if results[k].status == Mismatch {
        mismatchCount := mismatchCount + 1;
      }
    }
    assert results[..|results|] == results;
    exitCode := if mismatchCount > 0 then 1 else 0;
  }

  /**
   The body of the loop of `run` for one golden file: SKIP without calling
   the comparator when the target is absent, otherwise MATCH or MISMATCH
   after the verdict. `invoked` tells whether the comparator was called.
   */
  method CompareFile<D(==)>(e: Entry, targets: map<string, seq<byte>>, sha: seq<byte> -> D)
      returns (r: FileResult, invoked: bool)
    ensures Reports(e, r, targets, sha)
    ensures invoked <==> e.name in targets
  {
    if e.name in targets {
      var v, _, _ := Compare(e.content, targets[e.name], sha);
      invoked := true;
      if v.Matched() {
        r := FileResult(e.name, Match);
      } else {
        r := FileResult(e.name, Mismatch);
      }
    } else {
      invoked := false;
      r := FileResult(e.name, Skip);
    }
  }

  /**
   The loop of `run`: one result per golden file, in order, and the names
   handed to the comparator, in order.
   */
  method CompareAll<D(==)>(files: seq<Entry>, targets: map<string, seq<byte>>, sha: seq<byte> -> D)
      returns (results: seq<FileResult>, compared: seq<string>)
    ensures |results| == |files|
    ensures forall i :: 0 <= i < |files| ==> Reports(files[i], results[i], targets, sha)
    ensures compared == Invoked(files, targets)
  {
    results := [];
    compared := [];
    for k := 0 to |files|
      invariant |results| == k
      invariant forall i :: 0 <= i < k ==> Reports(files[i], results[i], targets, sha)
      invariant compared == Invoked(files[..k], targets)
    {
      InvokedStep(files, k, targets);
      var r, invoked := CompareFile(files[k], targets, sha);
      results := results + [r];
      if invoked {
        compared := compared + [files[k].name];
      }
    }
    assert files[..|files|] == files;
  }

  /**
   `run`, from the listing of the golden directory on: `targets` maps each
   name present in the working directory to its content. `compared` lists,
   in order, the names passed to the comparator.
   */
  method Run<D(==)>(listing: seq<Entry>, targets: map<string, seq<byte>>, sha: seq<byte> -> D)
      returns (outcome: RunOutcome, compared: seq<string>)
    ensures outcome.NoFiles? <==> BinFiles(listing) == []
    ensures outcome.Finished? ==>
              && |outcome.results| == |BinFiles(listing)|
              && (forall i :: 0 <= i < |outcome.results| ==>
                    Reports(BinFiles(listing)[i], outcome.results[i], targets, sha))
              && (outcome.exitCode == 0 || outcome.exitCode == 1)
              && (outcome.exitCode == 1 <==>
                    exists i :: 0 <= i < |outcome.results| && outcome.results[i].status == Mismatch)
    ensures compared == Invoked(BinFiles(listing), targets)
  {
    var files := BinFiles(listing);
    if files == [] {
      return NoFiles, [];
    }
    var results;
    results, compared := CompareAll(files, targets, sha);
    var exitCode := Summary(results);
    outcome := Finished(results, exitCode);
  }

  /**
   Under an injective digest a golden file is reported MATCH exactly when
   its target exists and holds the same bytes, MISMATCH when the target
   exists with other bytes, and SKIP when it does not exist.
   */
  lemma ReportsUnderInjectiveDigest<D>(e: Entry, r: FileResult, targets: map<string, seq<byte>>, sha: seq<byte> -> D)
    requires Injective(sha) && Reports(e, r, targets, sha)
    ensures r.status == Match <==> e.name in targets && targets[e.name] == e.content
    ensures r.status == Mismatch <==> e.name in targets && targets[e.name] != e.content
  {
  }
}
