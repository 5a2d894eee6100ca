/**
  The driver: `processFile` decides for one source whether its artifact is
  fresh, and otherwise translates, stamps and writes it; `main` handles the
  discovered sources one at a time and maps the run to an exit code
  (0 nothing written, 1 something written or no API key, 127 a failure).
  The translation service and SHA-256 are parameters (`Env`), the file system
  is a map from path to content.
 */
module Orchestrator {
  import opened Wrappers
  import opened Paths
  import opened Discovery
  import opened HashMarker
  import opened Staleness
  import opened Stamper

  type FileSystem = map<string, string>

  /** The external calls: the translation request (which may fail) and the digest of a file's content. */
  datatype Env = Env(translate: string -> Result<string>, hash: string -> Digest)

  /** What `processFile` did with one source. `Failed` is the `process.exit(127)` path. */
  datatype Step = UpToDate | Translated(artifact: string, text: string) | Failed

  const ExitNoChanges := 0
  const ExitUpdated := 1
  const ExitFailure := 127

  /** `fs.existsSync` followed by `fs.readFileSync`. */
  function Lookup(fs: FileSystem, path: string): (r: Option<string>)
    ensures r.Some? <==> path in fs
    ensures r.Some? ==> r.value == fs[path]
  {
    if path in fs then Some(fs[path]) else None
  }

  /**
    The decision `processFile` makes for `file` against the file system `fs`.
    Reading a missing source throws (the hash is computed before the `try`,
    and the exception reaches `main`'s handler), which also exits with 127.
   */
  function FileStep(fs: FileSystem, file: string, env: Env): (r: Step)
    ensures file !in fs ==> r == Failed
    ensures r.UpToDate? <==>
      file in fs && ArtifactPath(file) in fs && FirstHash(fs[ArtifactPath(file)]) == Some(env.hash(fs[file]))
    ensures r.Failed? ==> file !in fs || env.translate(fs[file]).Failure?
    ensures r.Translated? ==>
      && file in fs && env.translate(fs[file]).Success?
      && r.artifact == ArtifactPath(file) && r.artifact != file
      && r.text == Stamp(env.translate(fs[file]).value, env.hash(fs[file]))
  {
    match Lookup(fs, file)
    case None => Failed
    case Some(content) =>
      var sourceHash := env.hash(content);
      var check := CheckTranslation(file, Lookup(fs, ArtifactPath(file)), sourceHash);
      if check.artifactExists && !check.needsUpdate then UpToDate
      else
        match env.translate(content)
        case Failure(_) => Failed
        case Success(translated) => Translated(check.translationFile, Stamp(translated, sourceHash))
  }

  /** The effect of a step on the file system: only a translation writes. */
  function Apply(fs: FileSystem, s: Step): FileSystem {
    if s.Translated? then fs[s.artifact := s.text] else fs
  }

  function ApplyAll(fs: FileSystem, steps: seq<Step>): FileSystem
    decreases |steps|
  {
    if steps == [] then fs else ApplyAll(Apply(fs, steps[0]), steps[1..])
  }

  /** An exit code, the final file system, and the steps taken, in order. */
  datatype Outcome = Outcome(code: int, fs: FileSystem, steps: seq<Step>)

  /** A per-file handler: the decision for a file against the current file system. */
  type Handler = (FileSystem, string) -> Step

  /** `processFile` as a handler. */
  function ProcessFileStep(env: Env): Handler {
    (fs: FileSystem, file: string) => FileStep(fs, file, env)
  }

  /**
    The `for` loop of `main` from some point on, with the current `hasUpdates`
    flag, for any per-file handler: each file is handled against the file
    system the earlier ones left, and the first failure ends the run.
   */
  function RunFrom(files: seq<string>, fs: FileSystem, hasUpdates: bool, handle: Handler): (r: Outcome)
    ensures r.code == ExitNoChanges || r.code == ExitUpdated || r.code == ExitFailure
    ensures |r.steps| <= |files|
    ensures r.code != ExitFailure ==> |r.steps| == |files|
    decreases |files|
  {
    if files == [] then Outcome(if hasUpdates then ExitUpdated else ExitNoChanges, fs, [])
    else
      var s := handle(fs, files[0]);
      if s.Failed? then Outcome(ExitFailure, fs, [s])
      else
        var rest := RunFrom(files[1..], Apply(fs, s), hasUpdates || s.Translated?, handle);
        Outcome(rest.code, rest.fs, [s] + rest.steps)
  }

  /** A whole run: without an API key the script exits 1 at once; otherwise it handles the discovered sources. */
  function RunSpec(apiKeyPresent: bool, globbed: seq<string>, fs: FileSystem, env: Env): (r: Outcome)
    ensures !apiKeyPresent ==> r == Outcome(ExitUpdated, fs, [])
    ensures r.code == ExitNoChanges || r.code == ExitUpdated || r.code == ExitFailure
    ensures apiKeyPresent ==> |r.steps| <= |Discover(globbed)|
  {
    if !apiKeyPresent then Outcome(ExitUpdated, fs, [])
    else RunFrom(Discover(globbed), fs, false, ProcessFileStep(env))
  }

  predicate NoFailure(steps: seq<Step>) {
    forall k :: 0 <= k < |steps| ==> !steps[k].Failed?
  }

  predicate SomeTranslated(steps: seq<Step>) {
    exists k :: 0 <= k < |steps| && steps[k].Translated?
  }

  predicate AllUpToDate(steps: seq<Step>) {
    forall k :: 0 <= k < |steps| ==> steps[k].UpToDate?
  }

  lemma StepsSnoc(done: seq<Step>, s: Step)
    ensures NoFailure(done + [s]) <==> NoFailure(done) && !s.Failed?
    ensures SomeTranslated(done + [s]) <==> SomeTranslated(done) || s.Translated?
  {
    var steps := done + [s];
    assert steps[|done|] == s;
    assert forall k :: 0 <= k < |done| ==> steps[k] == done[k];
  }

  lemma ConcatShift(done: seq<Step>, s: Step, rest: seq<Step>)
    ensures done + ([s] + rest) == (done + [s]) + rest
  {
  }

  lemma StepsCons(s: Step, rest: seq<Step>)
    ensures NoFailure([s] + rest) <==> !s.Failed? && NoFailure(rest)
    ensures SomeTranslated([s] + rest) <==> s.Translated? || SomeTranslated(rest)
    ensures AllUpToDate([s] + rest) <==> s.UpToDate? && AllUpToDate(rest)
  {
    var steps := [s] + rest;
    assert steps[0] == s;
    assert forall k :: 0 < k < |steps| ==> steps[k] == rest[k - 1];
    assert forall k :: 0 <= k < |rest| ==> rest[k] == steps[k + 1];
    if SomeTranslated(rest) {
      var k :| 0 <= k < |rest| && rest[k].Translated?;
      assert steps[k + 1].Translated?;
    }
  }

  // ---------------------------------------------------------------------------
  // the imperative driver

  /** The content directory, updated in place by `writeFileSync`. */
  class FileStore {
    var files: FileSystem

    constructor(initial: FileSystem)
      ensures files == initial
    {
      files := initial;
    }

    /** `existsSync` and `readFileSync`; changes nothing. */
    method Read(path: string) returns (r: Option<string>)
      ensures r == Lookup(files, path)
    {
      r := Lookup(files, path);
    }

    /** `writeFileSync`: creates or overwrites one file. */
    method Write(path: string, text: string)
      modifies this
      ensures files == old(files)[path := text]
    {
      files := files[path := text];
    }
  }

  /**
    `processFile`: `Some(true)` when it wrote a translation, `Some(false)`
    when the artifact was fresh, `None` when the script exits with 127.
   */
  method ProcessFile(store: FileStore, file: string, env: Env) returns (updated: Option<bool>)
    modifies store
    ensures updated.None? <==> FileStep(old(store.files), file, env).Failed?
    ensures updated == Some(true) <==> FileStep(old(store.files), file, env).Translated?
    ensures store.files == Apply(old(store.files), FileStep(old(store.files), file, env))
  {
    var content := store.Read(file);
    if content.None? {
      return None;
    }
    var artifact := store.Read(ArtifactPath(file));
    var sourceHash := env.hash(content.value);
    var check := CheckTranslation(file, artifact, sourceHash);
    if check.artifactExists && !check.needsUpdate {
      return Some(false);
    }
    var translated := env.translate(content.value);
    if translated.Failure? {
      return None;
    }
    var finalContent := Stamp(translated.value, sourceHash);
    store.Write(check.translationFile, finalContent);
    return Some(true);
  }

  /** `main`: returns the exit code and leaves the file system as the run specification says. */
  method Run(store: FileStore, apiKeyPresent: bool, globbed: seq<string>, env: Env) returns (code: int)
    modifies store
    ensures code == RunSpec(apiKeyPresent, globbed, old(store.files), env).code
    ensures store.files == RunSpec(apiKeyPresent, globbed, old(store.files), env).fs
  {
    if !apiKeyPresent {
      return ExitUpdated;
    }
    var files := Discover(globbed);
    ghost var handle := ProcessFileStep(env);
    ghost var whole := RunFrom(files, store.files, false, handle);
    ghost var done: seq<Step> := [];
    var hasUpdates := false;
    var i := 0;
    while i < |files|
      invariant 0 <= i <= |files| && |done| == i
      invariant RunFrom(files[i..], store.files, hasUpdates, handle).code == whole.code
      invariant RunFrom(files[i..], store.files, hasUpdates, handle).fs == whole.fs
      invariant whole.steps == done + RunFrom(files[i..], store.files, hasUpdates, handle).steps
      invariant NoFailure(done)
      invariant hasUpdates <==> SomeTranslated(done)
    {
      ghost var s := handle(store.files, files[i]);
      ghost var after := RunFrom(files[i + 1..], Apply(store.files, s), hasUpdates || s.Translated?, handle);
      LoopStep(files, i, store.files, hasUpdates, handle);
      StepsSnoc(done, s);
      ConcatShift(done, s, after.steps);
      var updated := ProcessFile(store, files[i], env);
      if updated.None? {
        return ExitFailure;
      }
      if updated.value {
        hasUpdates := true;
      }
      done := done + [s];
      i := i + 1;
    }
    code := if hasUpdates then ExitUpdated else ExitNoChanges;
  }

  /** One turn of `main`'s loop: the run from file `i` is the step for it followed by the run from `i + 1`, unless it failed. */
  lemma LoopStep(files: seq<string>, i: nat, fs: FileSystem, hasUpdates: bool, handle: Handler)
    requires i < |files|
    ensures var s := handle(fs, files[i]);
      var r := RunFrom(files[i..], fs, hasUpdates, handle);
      var r' := RunFrom(files[i + 1..], Apply(fs, s), hasUpdates || s.Translated?, handle);
      if s.Failed? then r == Outcome(ExitFailure, fs, [s])
      else r.code == r'.code && r.fs == r'.fs && r.steps == [s] + r'.steps
  {
    assert files[i..][1..] == files[i + 1..];
  }

  // ---------------------------------------------------------------------------
  // exit codes

  /**
    The loop stops at the first failure: 127 exactly when the last step failed,
    no earlier step failed, and without a failure every file was handled.
   */
  lemma {:induction false} FailureStopsTheRun(files: seq<string>, fs: FileSystem, hasUpdates: bool, handle: Handler)
    ensures var r := RunFrom(files, fs, hasUpdates, handle);
      && |r.steps| <= |files|
      && (|r.steps| > 0 ==> NoFailure(r.steps[..|r.steps| - 1]))
      && (r.code == ExitFailure <==> |r.steps| > 0 && r.steps[|r.steps| - 1].Failed?)
      && (r.code != ExitFailure ==> |r.steps| == |files|)
    decreases |files|
  {
    if files != [] {
      var s := handle(fs, files[0]);
      if !s.Failed? {
        var rest := RunFrom(files[1..], Apply(fs, s), hasUpdates || s.Translated?, handle);
        FailureStopsTheRun(files[1..], Apply(fs, s), hasUpdates || s.Translated?, handle);
        var steps := [s] + rest.steps;
        if |rest.steps| > 0 {
          assert steps[..|steps| - 1] == [s] + rest.steps[..|rest.steps| - 1];
        }
      }
    }
  }

  /** Exit 1 from the loop exactly when nothing failed and something was written (or had been before). */
  lemma {:induction false} UpdatedIff(files: seq<string>, fs: FileSystem, hasUpdates: bool, handle: Handler)
    ensures var r := RunFrom(files, fs, hasUpdates, handle);
      r.code == ExitUpdated <==> NoFailure(r.steps) && (hasUpdates || SomeTranslated(r.steps))
    decreases |files|
  {
    if files != [] {
      var s := handle(fs, files[0]);
      StepsCons(s, []);
      assert [s] + [] == [s];
      if !s.Failed? {
        var rest := RunFrom(files[1..], Apply(fs, s), hasUpdates || s.Translated?, handle);
        UpdatedIff(files[1..], Apply(fs, s), hasUpdates || s.Translated?, handle);
        StepsCons(s, rest.steps);
      }
    }
  }

  /** Exit 0 from the loop exactly when no update had been seen and every file turned out fresh. */
  lemma {:induction false} NoChangesIff(files: seq<string>, fs: FileSystem, hasUpdates: bool, handle: Handler)
    ensures var r := RunFrom(files, fs, hasUpdates, handle);
      r.code == ExitNoChanges <==>
        !hasUpdates && |r.steps| == |files| && AllUpToDate(r.steps)
    decreases |files|
  {
    if files != [] {
      var s := handle(fs, files[0]);
      StepsCons(s, []);
      assert [s] + [] == [s];
      if !s.Failed? {
        var rest := RunFrom(files[1..], Apply(fs, s), hasUpdates || s.Translated?, handle);
        NoChangesIff(files[1..], Apply(fs, s), hasUpdates || s.Translated?, handle);
        StepsCons(s, rest.steps);
      }
    }
  }

  /** For a whole run with the key set: 0 means every source was fresh, 1 means something was written and nothing failed. */
  lemma ExitCodeMeaning(globbed: seq<string>, fs: FileSystem, env: Env)
    ensures var r := RunSpec(true, globbed, fs, env);
      && (r.code == ExitNoChanges <==>
            |r.steps| == |Discover(globbed)| && AllUpToDate(r.steps))
      && (r.code == ExitUpdated <==> NoFailure(r.steps) && SomeTranslated(r.steps))
      && (r.code == ExitFailure <==> |r.steps| > 0 && r.steps[|r.steps| - 1].Failed?)
  {
    var handle := ProcessFileStep(env);
    NoChangesIff(Discover(globbed), fs, false, handle);
    UpdatedIff(Discover(globbed), fs, false, handle);
    FailureStopsTheRun(Discover(globbed), fs, false, handle);
  }

  // ---------------------------------------------------------------------------
  // order and state

  /** Applying a step and then the rest is applying them all. */
  lemma ApplyAllCons(fs: FileSystem, s: Step, rest: seq<Step>)
    ensures ApplyAll(fs, [s] + rest) == ApplyAll(Apply(fs, s), rest)
  {
    assert ([s] + rest)[1..] == rest;
  }

  /**
    The sources are handled in order: step `k` is the decision for the `k`-th
    source against the file system left by the steps before it, and the final
    file system is the one all steps leave.
   */
  lemma {:induction false} StepsInOrder(files: seq<string>, fs: FileSystem, hasUpdates: bool, handle: Handler)
    ensures var r := RunFrom(files, fs, hasUpdates, handle);
      && |r.steps| <= |files|
      && (forall k :: 0 <= k < |r.steps| ==> r.steps[k] == handle(ApplyAll(fs, r.steps[..k]), files[k]))
      && r.fs == ApplyAll(fs, r.steps)
    decreases |files|
  {
    if files != [] {
      var s := handle(fs, files[0]);
      if s.Failed? {
        assert ApplyAll(fs, [s]) == ApplyAll(Apply(fs, s), []);
      } else {
        var fs1 := Apply(fs, s);
        var rest := RunFrom(files[1..], fs1, hasUpdates || s.Translated?, handle);
        StepsInOrder(files[1..], fs1, hasUpdates || s.Translated?, handle);
        var steps := [s] + rest.steps;
        assert steps[1..] == rest.steps;
        forall k | 0 < k < |steps|
          ensures steps[k] == handle(ApplyAll(fs, steps[..k]), files[k])
        {
          assert steps[..k] == [s] + rest.steps[..k - 1];
          ApplyAllCons(fs, s, rest.steps[..k - 1]);
          assert files[k] == files[1..][k - 1];
        }
      }
    }
  }

  // ---------------------------------------------------------------------------
  // one file

  /** Whether a file is fresh does not depend on the translation service, so a fresh file is never sent to it. */
  lemma FreshDoesNotTranslate(fs: FileSystem, file: string, env: Env, other: string -> Result<string>)
    requires FileStep(fs, file, env).UpToDate?
    ensures FileStep(fs, file, Env(other, env.hash)).UpToDate?
    ensures Apply(fs, FileStep(fs, file, env)) == fs
  {
  }

  /** A translation is written next to its source, never over it. */
  lemma TranslationTarget(fs: FileSystem, file: string, env: Env)
    requires FileStep(fs, file, env).Translated?
    ensures FileStep(fs, file, env).artifact == ArtifactPath(file) != file
    ensures Apply(fs, FileStep(fs, file, env)).Keys == fs.Keys + {ArtifactPath(file)}
    ensures forall p :: p in fs && p != ArtifactPath(file) ==> Apply(fs, FileStep(fs, file, env))[p] == fs[p]
  {
  }

  /**
    Handling a source again right after its artifact was written finds it fresh,
    provided the translated text is of a shape whose stamp survives (see
    `MarkerSurvives`).
   */
  lemma WrittenArtifactIsFresh(fs: FileSystem, file: string, env: Env)
    requires FileStep(fs, file, env).Translated?
    requires MarkerSurvives(env.translate(fs[file]).value)
    ensures FileStep(Apply(fs, FileStep(fs, file, env)), file, env) == UpToDate
  {
    var s := FileStep(fs, file, env);
    var fs1 := Apply(fs, s);
    assert fs1[file] == fs[file];
    var t := env.translate(fs[file]).value;
    StampedArtifactIsFresh(file, t, env.hash(fs[file]));
  }
}
