/** The patch engine of lib/patcher.js.

    `applyPatches` reads the original bundle, skips all work when the hash
    stored beside the patched bundle matches the original's hash, runs the
    registry's patches in order over the text, aborts when a required patch
    failed, and otherwise writes the patched bundle (through a temporary
    file and a rename) and then the new hash.

    The loop over the patches is the method `RunPatches`, proved equal to
    the fold `RunAll` of the single step `Step`; the properties of a run are
    proved about `RunAll`. The file system is the class `FileSystem`, whose
    map from paths to contents the engine's writes update; `Expected` says
    what the outcome and the new files are, and `ApplyPatches` is proved to
    do exactly that. */
module Patcher {
  import opened Wrappers
  import opened Text
  import PatchBase

  const HASH_CACHE_SUFFIX: string := ".hash"
  const TMP_SUFFIX: string := ".tmp"
  const FATAL_HEADER: string := "Required patch(es) failed:\n"
  const GUIDANCE: string :=
    "The upstream Claude CLI may have changed. Please report this at:\n"
      + "https://github.com/nikolanovoselec/claude-unleashed/issues"

  const NOT_FOUND: string := "pattern not found"
  const NOT_FOUND_FAILURE: string := "Target pattern not found in source"
  const NOT_VERIFIED: string := "verification failed"
  const NOT_VERIFIED_FAILURE: string := "Patch applied but verification failed"
  const NO_EFFECT: string := "no effect"

  datatype Status = OK | SKIPPED | FAILED

  /** One line of the patch report. */
  datatype Entry = Entry(id: string, status: Status, reason: Option<string>)

  /** A failed required patch. */
  datatype Failure = Failure(id: string, reason: string)

  /** The loop's variables: the text so far, the report, the failures. */
  datatype Progress = Progress(patched: string, results: seq<Entry>, failures: seq<Failure>)

  /** One iteration of the loop over the patches; a hook that throws ends
      the run with its error. */
  function Step(st: Progress, p: PatchBase.Patch): (r: Result<Progress, string>)
    ensures r.Ok? ==> |r.value.results| == |st.results| + 1 && r.value.results[..|st.results|] == st.results
    ensures r.Ok? ==> r.value.results[|st.results|].id == p.id
    ensures r.Ok? && r.value.results[|st.results|].status != OK ==> r.value.patched == st.patched
  {
    var can := PatchBase.CanApply(p, st.patched);
    if can.Err? then Err(can.error)
    else if !can.value then
      if p.required then
        Ok(Progress(st.patched, st.results + [Entry(p.id, FAILED, Some(NOT_FOUND))],
          st.failures + [Failure(p.id, NOT_FOUND_FAILURE)]))
      else
        Ok(Progress(st.patched, st.results + [Entry(p.id, SKIPPED, Some(NOT_FOUND))], st.failures))
    else
      var after := PatchBase.Apply(p, st.patched);
      if after.Err? then Err(after.error)
      else if PatchBase.Verify(p, st.patched, after.value) then
        Ok(Progress(after.value, st.results + [Entry(p.id, OK, None)], st.failures))
      else if p.required then
        Ok(Progress(st.patched, st.results + [Entry(p.id, FAILED, Some(NOT_VERIFIED))],
          st.failures + [Failure(p.id, NOT_VERIFIED_FAILURE)]))
      else
        Ok(Progress(st.patched, st.results + [Entry(p.id, SKIPPED, Some(NO_EFFECT))], st.failures))
  }

  /** The loop from progress `st` over the remaining patches. */
  function RunFrom(st: Progress, patches: seq<PatchBase.Patch>): Result<Progress, string>
    decreases |patches|
  {
    if patches == [] then Ok(st)
    else
      match Step(st, patches[0])
      case Err(e) => Err(e)
      case Ok(next) => RunFrom(next, patches[1..])
  }

  /** The whole loop over `patches`, starting from the original text. */
  function RunAll(patches: seq<PatchBase.Patch>, source: string): Result<Progress, string> {
    RunFrom(Progress(source, [], []), patches)
  }

  /** The loop of `applyPatches`. */
  method RunPatches(patches: seq<PatchBase.Patch>, source: string) returns (r: Result<Progress, string>)
    ensures r == RunAll(patches, source)
  {
    var patched := source;
    var results: seq<Entry> := [];
    var failures: seq<Failure> := [];
    for k := 0 to |patches|
      invariant RunFrom(Progress(patched, results, failures), patches[k..]) == RunAll(patches, source)
    {
      var p := patches[k];
      assert patches[k..][0] == p && patches[k..][1..] == patches[k + 1..];
      var before := patched;
      var can := PatchBase.CanApply(p, patched);
      if can.Err? {
        return Err(can.error);
      }
      if !can.value {
        if p.required {
          failures := failures + [Failure(p.id, NOT_FOUND_FAILURE)];
          results := results + [Entry(p.id, FAILED, Some(NOT_FOUND))];
        } else {
          results := results + [Entry(p.id, SKIPPED, Some(NOT_FOUND))];
        }
        continue;
      }
      var after := PatchBase.Apply(p, patched);
      if after.Err? {
        return Err(after.error);
      }
      if PatchBase.Verify(p, before, after.value) {
        patched := after.value;
        results := results + [Entry(p.id, OK, None)];
      } else if p.required {
        failures := failures + [Failure(p.id, NOT_VERIFIED_FAILURE)];
        results := results + [Entry(p.id, FAILED, Some(NOT_VERIFIED))];
      } else {
        results := results + [Entry(p.id, SKIPPED, Some(NO_EFFECT))];
      }
    }
    return Ok(Progress(patched, results, failures));
  }

  // ---------------------------------------------------------------------
  // Properties of a run

  /** A patch whose `canApply` and `apply` hooks are supplied never throws. */
  predicate Supplied(p: PatchBase.Patch) {
    p.canApply.Custom? && p.apply.Custom?
  }

  /** A run whose patches all supply their hooks never throws; a run whose
      first patch lacks `canApply` throws that patch's error. */
  lemma {:induction false} RunNoThrow(st: Progress, patches: seq<PatchBase.Patch>)
    ensures (forall k :: 0 <= k < |patches| ==> Supplied(patches[k])) ==> RunFrom(st, patches).Ok?
    ensures patches != [] && patches[0].canApply.Default? ==>
      RunFrom(st, patches) == Err(patches[0].id + ": canApply() not implemented")
    decreases |patches|
  {
    if patches != [] && Supplied(patches[0]) {
      var next := Step(st, patches[0]);
      assert next.Ok?;
      RunNoThrow(next.value, patches[1..]);
      if forall k :: 0 <= k < |patches| ==> Supplied(patches[k]) {
        assert forall k :: 0 <= k < |patches[1..]| ==> Supplied(patches[1..][k]) by {
          forall k | 0 <= k < |patches[1..]| ensures Supplied(patches[1..][k]) {
            assert patches[1..][k] == patches[k + 1];
          }
        }
      }
    }
  }

  /** The report has one entry per patch, in the registry's order, with the
      patch's id. */
  lemma {:induction false} RunReport(st: Progress, patches: seq<PatchBase.Patch>)
    requires RunFrom(st, patches).Ok?
    ensures var r := RunFrom(st, patches).value;
      |r.results| == |st.results| + |patches| && r.results[..|st.results|] == st.results &&
      forall k :: 0 <= k < |patches| ==> r.results[|st.results| + k].id == patches[k].id
    decreases |patches|
  {
    if patches != [] {
      var next := Step(st, patches[0]).value;
      RunReport(next, patches[1..]);
      var r := RunFrom(st, patches).value;
      assert r == RunFrom(next, patches[1..]).value;
      assert r.results[..|st.results|] == r.results[..|next.results|][..|st.results|];
      forall k | 0 <= k < |patches|
        ensures r.results[|st.results| + k].id == patches[k].id
      {
        if k > 0 {
          assert patches[1..][k - 1] == patches[k];
        } else {
          assert r.results[|st.results|] == r.results[..|next.results|][|st.results|];
        }
      }
    }
  }

  /** The failures a report implies: one per FAILED entry, in order, with
      the long form of the entry's reason. */
  function FailuresOf(results: seq<Entry>): seq<Failure> {
    if results == [] then []
    else
      var e := results[|results| - 1];
      FailuresOf(results[..|results| - 1]) +
        (if e.status != FAILED then []
         else [Failure(e.id, if e.reason == Some(NOT_FOUND) then NOT_FOUND_FAILURE else NOT_VERIFIED_FAILURE)])
  }

  /** An entry records a patch's status consistently with its kind: only a
      required patch fails, only an optional one is skipped, and a patch
      whose `apply` changes every text its `canApply` accepts is never
      turned down by `verify`. */
  ghost predicate Consistent(e: Entry, p: PatchBase.Patch) {
    e.id == p.id &&
    (e.status == FAILED ==> p.required && (e.reason == Some(NOT_FOUND) || e.reason == Some(NOT_VERIFIED))) &&
    (e.status == SKIPPED ==> !p.required) &&
    (PatchBase.Effective(p) ==> e.reason != Some(NOT_VERIFIED) && e.reason != Some(NO_EFFECT))
  }

  lemma StepKeeps(st: Progress, p: PatchBase.Patch)
    requires Step(st, p).Ok? && st.failures == FailuresOf(st.results)
    ensures var next := Step(st, p).value;
      |next.results| == |st.results| + 1 && next.results[..|st.results|] == st.results &&
      Consistent(next.results[|st.results|], p) &&
      next.failures == FailuresOf(next.results)
  {
    var next := Step(st, p).value;
    assert next.results[..|next.results| - 1] == st.results;
  }

  /** Throughout a run the failures are exactly those the report implies,
      and every entry is consistent with its patch. */
  lemma {:induction false} RunFailures(st: Progress, patches: seq<PatchBase.Patch>)
    requires RunFrom(st, patches).Ok? && st.failures == FailuresOf(st.results)
    ensures var r := RunFrom(st, patches).value;
      |r.results| == |st.results| + |patches| &&
      r.failures == FailuresOf(r.results) &&
      forall k :: 0 <= k < |patches| ==> Consistent(r.results[|st.results| + k], patches[k])
    decreases |patches|
  {
    if patches != [] {
      var next := Step(st, patches[0]).value;
      StepKeeps(st, patches[0]);
      RunFailures(next, patches[1..]);
      RunReport(next, patches[1..]);
      var r := RunFrom(st, patches).value;
      assert r == RunFrom(next, patches[1..]).value;
      forall k | 0 <= k < |patches|
        ensures Consistent(r.results[|st.results| + k], patches[k])
      {
        if k > 0 {
          assert patches[1..][k - 1] == patches[k];
        } else {
          assert r.results[|st.results|] == r.results[..|next.results|][|st.results|];
        }
      }
    }
  }

  /** A run of patches that supply their hooks completes, with one
      consistent entry per patch, and failures exactly those entries imply. */
  lemma RunConsistent(patches: seq<PatchBase.Patch>, source: string)
    requires forall k :: 0 <= k < |patches| ==> Supplied(patches[k])
    ensures var run := RunAll(patches, source);
      run.Ok? && |run.value.results| == |patches| && run.value.failures == FailuresOf(run.value.results) &&
      forall k :: 0 <= k < |patches| ==> Consistent(run.value.results[k], patches[k])
  {
    var init := Progress(source, [], []);
    RunNoThrow(init, patches);
    RunFailures(init, patches);
  }

  /** The text of a run: the patches reported OK applied in order, the
      others left out. */
  function Replay(patches: seq<PatchBase.Patch>, statuses: seq<Status>, s: string): string
    requires |patches| == |statuses|
    requires forall k :: 0 <= k < |patches| && statuses[k] == OK ==> patches[k].apply.Custom?
    decreases |patches|
  {
    if patches == [] then s
    else
      var t := if statuses[0] == OK then patches[0].apply.f(s) else s;
      Replay(patches[1..], statuses[1..], t)
  }

  function Statuses(results: seq<Entry>): (r: seq<Status>)
    ensures |r| == |results| && forall k :: 0 <= k < |r| ==> r[k] == results[k].status
  {
    if results == [] then [] else [results[0].status] + Statuses(results[1..])
  }

  /** A patch reported OK supplied `apply` and its `verify` accepted the
      change, and the run's text is the OK patches applied in order. */
  lemma {:induction false} RunText(st: Progress, patches: seq<PatchBase.Patch>)
    requires RunFrom(st, patches).Ok?
    ensures var r := RunFrom(st, patches).value;
      |r.results| == |st.results| + |patches| &&
      var statuses := Statuses(r.results[|st.results|..]);
      (forall k :: 0 <= k < |patches| && statuses[k] == OK ==> patches[k].apply.Custom?) &&
      r.patched == Replay(patches, statuses, st.patched)
    decreases |patches|
  {
    RunReport(st, patches);
    if patches != [] {
      var next := Step(st, patches[0]).value;
      RunText(next, patches[1..]);
      RunReport(next, patches[1..]);
      var r := RunFrom(st, patches).value;
      assert r == RunFrom(next, patches[1..]).value;
      var all := Statuses(r.results[|st.results|..]);
      var rest := Statuses(r.results[|next.results|..]);
      assert r.results[|next.results|..] == r.results[|st.results|..][1..];
      assert all == [all[0]] + rest by {
        assert |all| == |rest| + 1;
        forall k | 0 <= k < |all| ensures all[k] == ([all[0]] + rest)[k] {
          if k > 0 {
            assert r.results[|st.results|..][k] == r.results[|next.results|..][k - 1];
          }
        }
      }
      assert all[0] == r.results[|st.results|].status;
      assert r.results[|st.results|] == r.results[..|next.results|][|st.results|];
      forall k | 0 <= k < |patches| && all[k] == OK
        ensures patches[k].apply.Custom?
      {
        if k > 0 {
          assert patches[1..][k - 1] == patches[k];
        }
      }
    }
  }

  // ---------------------------------------------------------------------
  // The file system and `applyPatches`

  /** A change the engine makes to the file system. */
  datatype Op = Written(path: string, content: string) | Renamed(from: string, to: string)

  /** The files after one change. Renaming a missing file throws in Node;
      the engine only renames the file it has just written, and here such a
      rename changes nothing. */
  function Do(files: map<string, string>, op: Op): map<string, string> {
    match op
    case Written(path, content) => files[path := content]
    case Renamed(from, to) => if from in files then (files - {from})[to := files[from]] else files
  }

  /** The files after the changes `ops`, made in order. */
  function Perform(files: map<string, string>, ops: seq<Op>): map<string, string>
    decreases |ops|
  {
    if ops == [] then files else Perform(Do(files, ops[0]), ops[1..])
  }

  /** The files the engine reads and writes, by path, and the changes made
      to them so far, in order. */
  class FileSystem {
    var files: map<string, string>
    ghost var log: seq<Op>

    constructor(files: map<string, string>)
      ensures this.files == files && log == []
    {
      this.files := files;
      log := [];
    }

    /** `fs.existsSync(path)`. */
    function Exists(path: string): bool
      reads this
    {
      path in files
    }

    /** `fs.readFileSync(path, 'utf8')`; a missing file throws. */
    method ReadFile(path: string) returns (r: Result<string, string>)
      ensures r == if path in files then Ok(files[path]) else Err(NoSuchFile(path))
    {
      if path in files {
        return Ok(files[path]);
      }
      return Err(NoSuchFile(path));
    }

    /** `fs.writeFileSync(path, content)`. */
    method WriteFile(path: string, content: string)
      modifies this
      ensures files == old(files)[path := content]
      ensures log == old(log) + [Written(path, content)]
    {
      files := files[path := content];
      log := log + [Written(path, content)];
    }

    /** `fs.renameSync(from, to)`. */
    method Rename(from: string, to: string)
      requires from in files
      modifies this
      ensures files == (old(files) - {from})[to := old(files)[from]]
      ensures log == old(log) + [Renamed(from, to)]
    {
      files := (files - {from})[to := files[from]];
      log := log + [Renamed(from, to)];
    }
  }

  /** The error `fs.readFileSync` throws for a missing file. */
  function NoSuchFile(path: string): string {
    "ENOENT: no such file or directory, open '" + path + "'"
  }

  datatype Paths = Paths(original: string, patched: string)

  /** An error `applyPatches` throws: the fatal error of failed required
      patches, or an error thrown inside it. */
  datatype Error = Fatal(message: string, guidance: string) | Thrown(message: string)

  datatype Outcome = Done(skippedViaCache: bool, results: seq<Entry>) | Threw(error: Error)

  /** What `applyPatches` returns or throws, the changes it makes, in
      order, and the files afterwards. */
  datatype Effect = Effect(outcome: Outcome, ops: seq<Op>, files: map<string, string>)

  /** The changes of a run that writes, in order: the patched text to the
      temporary file, the rename of that file onto the patched path, and
      then the original's hash beside the patched file. */
  function Writes(paths: Paths, patched: string, sourceHash: string): seq<Op> {
    var tmp := paths.patched + TMP_SUFFIX;
    [Written(tmp, patched), Renamed(tmp, paths.patched), Written(paths.patched + HASH_CACHE_SUFFIX, sourceHash)]
  }

  function Join(lines: seq<string>, sep: string): string {
    if lines == [] then [] else if |lines| == 1 then lines[0] else lines[0] + sep + Join(lines[1..], sep)
  }

  function FailureLines(failures: seq<Failure>): (r: seq<string>)
    ensures |r| == |failures|
    ensures forall k :: 0 <= k < |r| ==> r[k] == "  - " + failures[k].id + ": " + failures[k].reason
  {
    if failures == [] then [] else ["  - " + failures[0].id + ": " + failures[0].reason] + FailureLines(failures[1..])
  }

  /** The message of the fatal error: a header and one line per failure. */
  function FatalMessage(failures: seq<Failure>): string {
    FATAL_HEADER + Join(FailureLines(failures), "\n")
  }

  /** What `applyPatches` returns or throws, the changes it makes and the
      files afterwards; `hash` is the SHA-256 hex digest. */
  function Expected(files: map<string, string>, paths: Paths, hash: string -> string,
                    patches: seq<PatchBase.Patch>): Effect
  {
    if paths.original !in files then Effect(Threw(Thrown(NoSuchFile(paths.original))), [], files)
    else
      var source := files[paths.original];
      var hashPath := paths.patched + HASH_CACHE_SUFFIX;
      if paths.patched in files && hashPath in files && Trim(files[hashPath]) == hash(source) then
        Effect(Done(true, []), [], files)
      else
        match RunAll(patches, source)
        case Err(e) => Effect(Threw(Thrown(e)), [], files)
        case Ok(run) =>
          if |run.failures| > 0 then Effect(Threw(Fatal(FatalMessage(run.failures), GUIDANCE)), [], files)
          else
            var tmp := paths.patched + TMP_SUFFIX;
            Effect(Done(false, run.results), Writes(paths, run.patched, hash(source)),
              ((files[tmp := run.patched] - {tmp})[paths.patched := run.patched])[hashPath := hash(source)])
  }

  /** `applyPatches({ originalCliPath, patchedCliPath })`. */
  method ApplyPatches(fs: FileSystem, paths: Paths, hash: string -> string, patches: seq<PatchBase.Patch>)
    returns (r: Outcome)
    modifies fs
    ensures var e := Expected(old(fs.files), paths, hash, patches);
      r == e.outcome && fs.files == e.files && fs.log == old(fs.log) + e.ops
  {
    var read := fs.ReadFile(paths.original);
    if read.Err? {
      return Threw(Thrown(read.error));
    }
    var source := read.value;
    var sourceHash := hash(source);
    var hashPath := paths.patched + HASH_CACHE_SUFFIX;
    if fs.Exists(paths.patched) && fs.Exists(hashPath) {
      var cached := fs.ReadFile(hashPath);
      if Trim(cached.value) == sourceHash {
        return Done(true, []);
      }
    }
    var run := RunPatches(patches, source);
    if run.Err? {
      return Threw(Thrown(run.error));
    }
    if |run.value.failures| > 0 {
      return Threw(Fatal(FatalMessage(run.value.failures), GUIDANCE));
    }
    var tmp := paths.patched + TMP_SUFFIX;
    fs.WriteFile(tmp, run.value.patched);
    fs.Rename(tmp, paths.patched);
    fs.WriteFile(hashPath, sourceHash);
    return Done(false, run.value.results);
  }

  // ---------------------------------------------------------------------
  // Properties of `applyPatches`

  /** Every file other than `paths` keeps its content, and nothing is
      written unless the run completed without a failed required patch. */
  lemma WritesOnlyOnSuccess(files: map<string, string>, paths: Paths, hash: string -> string,
                            patches: seq<PatchBase.Patch>)
    ensures var e := Expected(files, paths, hash, patches);
      (e.outcome.Threw? || e.outcome.skippedViaCache ==> e.files == files) &&
      (e.outcome.Done? && !e.outcome.skippedViaCache ==>
        paths.original in files &&
        var run := RunAll(patches, files[paths.original]);
        var tmp := paths.patched + TMP_SUFFIX;
        var hashPath := paths.patched + HASH_CACHE_SUFFIX;
        run.Ok? && run.value.failures == [] && e.outcome.results == run.value.results &&
        e.files[paths.patched] == run.value.patched &&
        e.files[hashPath] == hash(files[paths.original]) &&
        tmp !in e.files &&
        forall path :: path != paths.patched && path != hashPath && path != tmp ==>
          (path in e.files <==> path in files) && (path in files ==> e.files[path] == files[path]))
  {
    var tmp := paths.patched + TMP_SUFFIX;
    var hashPath := paths.patched + HASH_CACHE_SUFFIX;
    assert tmp != hashPath by {
      assert tmp[|paths.patched| + 1] == 't' && hashPath[|paths.patched| + 1] == 'h';
    }
    assert tmp != paths.patched;
  }

  /** The changes of a run that writes, made in order, leave the temporary
      path gone, the patched path holding the text and the hash beside it. */
  lemma {:induction false} WritesPerform(files: map<string, string>, paths: Paths, patched: string, sourceHash: string)
    ensures var tmp := paths.patched + TMP_SUFFIX;
      Perform(files, Writes(paths, patched, sourceHash)) ==
      ((files[tmp := patched] - {tmp})[paths.patched := patched])[paths.patched + HASH_CACHE_SUFFIX := sourceHash]
  {
    var tmp := paths.patched + TMP_SUFFIX;
    var ops := Writes(paths, patched, sourceHash);
    var f1 := Do(files, ops[0]);
    var f2 := Do(f1, ops[1]);
    var f3 := Do(f2, ops[2]);
    assert f1 == files[tmp := patched];
    assert f2 == (f1 - {tmp})[paths.patched := patched];
    assert Perform(f3, ops[3..]) == f3;
    assert ops[2..][1..] == ops[3..];
    assert Perform(f2, ops[2..]) == f3;
    assert ops[1..][1..] == ops[2..];
    assert Perform(f1, ops[1..]) == f3;
  }

  /** The changes `Expected` lists, made in order, leave exactly the files it
      states; a run that does not write changes nothing. */
  lemma ExpectedReplays(files: map<string, string>, paths: Paths, hash: string -> string,
                        patches: seq<PatchBase.Patch>)
    ensures var e := Expected(files, paths, hash, patches);
      Perform(files, e.ops) == e.files
  {
    if paths.original in files {
      var source := files[paths.original];
      var run := RunAll(patches, source);
      if run.Ok? {
        WritesPerform(files, paths, run.value.patched, hash(source));
      }
    }
  }

  /** A run that completes without failure writes, and one with a failed
      required patch throws the fatal error listing every failure. */
  lemma FailuresAbort(files: map<string, string>, paths: Paths, hash: string -> string,
                      patches: seq<PatchBase.Patch>)
    requires paths.original in files
    requires var hashPath := paths.patched + HASH_CACHE_SUFFIX;
      !(paths.patched in files && hashPath in files && Trim(files[hashPath]) == hash(files[paths.original]))
    requires RunAll(patches, files[paths.original]).Ok?
    ensures var run := RunAll(patches, files[paths.original]).value;
      var e := Expected(files, paths, hash, patches);
      (run.failures == [] <==> e.outcome.Done?) &&
      (run.failures == [] <==> forall k :: 0 <= k < |run.results| ==> run.results[k].status != FAILED) &&
      (run.failures != [] ==> e.outcome == Threw(Fatal(FatalMessage(run.failures), GUIDANCE)))
  {
    var run := RunAll(patches, files[paths.original]).value;
    RunFailures(Progress(files[paths.original], [], []), patches);
    FailuresEmpty(run.results);
  }

  lemma {:induction false} FailuresEmpty(results: seq<Entry>)
    ensures FailuresOf(results) == [] <==> forall k :: 0 <= k < |results| ==> results[k].status != FAILED
  {
    if results != [] {
      var init := results[..|results| - 1];
      FailuresEmpty(init);
      assert forall k :: 0 <= k < |init| ==> init[k] == results[k];
    }
  }

  /** A hexadecimal digest. */
  predicate Digest(h: string) {
    forall i :: 0 <= i < |h| ==> '0' <= h[i] <= '9' || 'a' <= h[i] <= 'f'
  }

  /** After a run that wrote the patched bundle, running again on the same
      original is served from the cache and changes nothing. */
  lemma SecondRunCached(files: map<string, string>, paths: Paths, hash: string -> string,
                        patches: seq<PatchBase.Patch>)
    requires paths.original != paths.patched
    requires paths.original != paths.patched + HASH_CACHE_SUFFIX
    requires paths.original != paths.patched + TMP_SUFFIX
    requires forall s :: Digest(hash(s))
    requires Expected(files, paths, hash, patches).outcome.Done?
    requires !Expected(files, paths, hash, patches).outcome.skippedViaCache
    ensures var next := Expected(files, paths, hash, patches).files;
      Expected(next, paths, hash, patches) == Effect(Done(true, []), [], next)
  {
    WritesOnlyOnSuccess(files, paths, hash, patches);
    var next := Expected(files, paths, hash, patches).files;
    var h := hash(files[paths.original]);
    var hashPath := paths.patched + HASH_CACHE_SUFFIX;
    assert paths.original in next && next[paths.original] == files[paths.original];
    assert paths.patched in next && hashPath in next && next[hashPath] == h;
    assert Digest(h);
    TrimFixed(h);
    assert Trim(next[hashPath]) == hash(next[paths.original]);
  }
}
