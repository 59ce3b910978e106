/** Incremental replay of source files into an embedded workspace database, guarded by content hashes. */
module IncrementalReplay {
  import opened Ordering
  import Texts

  // The components of a path; directory listings are sorted component by component.
  type Path = seq<Name>

  predicate PathLess(a: Path, b: Path) {
    b != [] && (a == [] || NameLess(a[0], b[0]) || (a[0] == b[0] && PathLess(a[1..], b[1..])))
  }

  lemma {:induction false} PathLessAsymmetric(a: Path, b: Path)
    ensures !(PathLess(a, b) && PathLess(b, a))
  {
    if a != [] && b != [] {
      NameLessAsymmetric(a[0], b[0]);
      PathLessAsymmetric(a[1..], b[1..]);
    }
  }

  lemma {:induction false} PathLessSplits(a: Path, b: Path, c: Path)
    requires PathLess(a, c)
    ensures PathLess(a, b) || PathLess(b, c)
  {
    if a != [] && b != [] {
      NameLessAsymmetric(a[0], c[0]);
      NameLessTotal(a[0], b[0]);
      NameLessTotal(b[0], c[0]);
      if a[0] == b[0] == c[0] {
        PathLessSplits(a[1..], b[1..], c[1..]);
      } else if NameLess(a[0], c[0]) {
        NameLessSplits(a[0], b[0], c[0]);
      }
    }
  }

  lemma {:induction false} PathLessTotal(a: Path, b: Path)
    ensures PathLess(a, b) || PathLess(b, a) || a == b
  {
    if a != [] && b != [] {
      NameLessTotal(a[0], b[0]);
      PathLessTotal(a[1..], b[1..]);
      assert a == [a[0]] + a[1..] && b == [b[0]] + b[1..];
    }
  }

  lemma PathOrder()
    ensures TotalOrder(PathLess)
  {
    forall a, b ensures !(PathLess(a, b) && PathLess(b, a)) { PathLessAsymmetric(a, b); }
    forall a, b, c | PathLess(a, c) ensures PathLess(a, b) || PathLess(b, c) { PathLessSplits(a, b, c); }
    forall a, b ensures PathLess(a, b) || PathLess(b, a) || a == b { PathLessTotal(a, b); }
  }

  datatype Outcome<S> = Outcome(state: S, ok: bool)

  /** A fresh workspace, what running a file on one leaves, and the content hash. */
  datatype Env<!S> = Env(empty: S, run: (string, S) -> Outcome<S>, hash: string -> string)

  datatype FileStatus = FileStatus(hash: string, size: nat, error: bool)

  datatype MigrationResult = MigrationResult(total: nat, applied: nat, skipped: nat, errors: seq<Path>)

  /** Files on disk by path; `None` is one that cannot be read. */
  type Files = map<Path, Option<string>>

  function Readable(files: Files): map<Path, string> {
    map p | p in files && files[p].Some? :: files[p].value
  }

  /** A file is run exactly when it can be read, with what is in it. */
  lemma ReadableMeans(files: Files, p: Path, content: string)
    ensures p in Readable(files) && Readable(files)[p] == content <==> p in files && files[p] == Some(content)
  {
  }

  /** Run files in order on a workspace; one that fails leaves whatever it did. */
  function RunFiles<S>(env: Env<S>, contents: map<Path, string>, paths: seq<Path>, s: S): S
    requires forall p | p in paths :: p in contents
  {
    if paths == [] then s
    else env.run(contents[paths[|paths| - 1]], RunFiles(env, contents, paths[..|paths| - 1], s)).state
  }

  /** `s` is what replaying all the files in path order from nothing leaves. */
  ghost predicate FullReplay<S>(env: Env<S>, contents: map<Path, string>, s: S) {
    exists paths :: Increasing(paths, PathLess) && Elements(paths) == contents.Keys && ReplayOf(env, contents, paths, s)
  }

  ghost predicate ReplayOf<S>(env: Env<S>, contents: map<Path, string>, paths: seq<Path>, s: S) {
    (forall p | p in paths :: p in contents) && s == RunFiles(env, contents, paths, env.empty)
  }

  /** The file at place `i` fails on what the files before it left. */
  ghost predicate FailsAt<S>(env: Env<S>, contents: map<Path, string>, paths: seq<Path>, i: nat)
    requires i < |paths| && forall p | p in paths :: p in contents
  {
    !env.run(contents[paths[i]], RunFiles(env, contents, paths[..i], env.empty)).ok
  }

  /** In order, `errors` are those of the first `n` files that fail. */
  ghost predicate FailedSoFar<S>(env: Env<S>, contents: map<Path, string>, paths: seq<Path>, n: nat, errors: seq<Path>)
    requires n <= |paths| && forall p | p in paths :: p in contents
  {
    && (forall i | 0 <= i < n :: paths[i] in errors <==> FailsAt(env, contents, paths, i))
    && (forall e | e in errors :: e in paths[..n])
    && Increasing(errors, PathLess)
  }

  /** In path order, `errors` are the files that fail in a full replay. */
  ghost predicate FailedFiles<S>(env: Env<S>, contents: map<Path, string>, errors: seq<Path>) {
    exists paths ::
      && Increasing(paths, PathLess) && Elements(paths) == contents.Keys && (forall p | p in paths :: p in contents)
      && FailedSoFar(env, contents, paths, |paths|, errors)
  }

  lemma NothingFailed<S>(env: Env<S>, contents: map<Path, string>, paths: seq<Path>)
    requires forall p | p in paths :: p in contents
    ensures FailedSoFar(env, contents, paths, 0, [])
  {
  }

  lemma FailedNext<S>(env: Env<S>, contents: map<Path, string>, paths: seq<Path>, n: nat, errors: seq<Path>)
    requires n < |paths| && (forall p | p in paths :: p in contents) && Increasing(paths, PathLess)
    requires FailedSoFar(env, contents, paths, n, errors)
    ensures FailedSoFar(env, contents, paths, n + 1,
                        if FailsAt(env, contents, paths, n) then errors + [paths[n]] else errors)
  {
    hide FailsAt, PathLess, RunFiles;
    PathOrder();
    assert paths[..n + 1] == paths[..n] + [paths[n]];
    NewestPath(paths, n, errors);
    if FailsAt(env, contents, paths, n) { IncreasingAppend(errors, paths[n]); }
  }

  lemma NewestPath(paths: seq<Path>, n: nat, errors: seq<Path>)
    requires n < |paths| && Increasing(paths, PathLess) && forall e | e in errors :: e in paths[..n]
    ensures paths[n] !in errors && (forall i | 0 <= i < n :: paths[i] != paths[n])
    ensures forall e | e in errors :: PathLess(e, paths[n])
  {
    PathOrder();
    forall i | 0 <= i < n ensures paths[i] != paths[n] { assert PathLess(paths[i], paths[n]); }
  }

  lemma IncreasingAppend(errors: seq<Path>, p: Path)
    requires Increasing(errors, PathLess) && forall e | e in errors :: PathLess(e, p)
    ensures Increasing(errors + [p], PathLess)
  {
  }

  /** There is one full replay. */
  lemma FullReplayUnique<S>(env: Env<S>, contents: map<Path, string>, s: S, t: S)
    requires FullReplay(env, contents, s) && FullReplay(env, contents, t)
    ensures s == t
  {
    PathOrder();
    var ps :| Increasing(ps, PathLess) && Elements(ps) == contents.Keys && ReplayOf(env, contents, ps, s);
    var qs :| Increasing(qs, PathLess) && Elements(qs) == contents.Keys && ReplayOf(env, contents, qs, t);
    ListingUnique(ps, qs, PathLess);
  }

  /** A file needs running again: it is not on record or its hash is not. */
  predicate NeedsReapply<S>(env: Env<S>, meta: map<Path, FileStatus>, p: Path, content: string) {
    p in meta ==> meta[p].hash != env.hash(content)
  }

  ghost predicate SomeChanged<S>(env: Env<S>, meta: map<Path, FileStatus>, contents: map<Path, string>) {
    exists p :: p in contents && NeedsReapply(env, meta, p, contents[p])
  }

  /** The record holds the hashes of the given contents. */
  ghost predicate OnRecord<S>(env: Env<S>, meta: map<Path, FileStatus>, contents: map<Path, string>) {
    forall p | p in contents :: p in meta && meta[p].hash == env.hash(contents[p])
  }

  /** The record after a replay: every replayed file with its hash, size and outcome, the others as before. */
  function MetaAfter<S>(env: Env<S>, meta: map<Path, FileStatus>, contents: map<Path, string>,
                        errors: seq<Path>): map<Path, FileStatus> {
    map p | p in meta.Keys + contents.Keys ::
      if p in contents then FileStatus(env.hash(contents[p]), Texts.ByteLen(contents[p]), p in errors) else meta[p]
  }

  function Only(contents: map<Path, string>, paths: seq<Path>): map<Path, string> {
    map p | p in contents && p in paths :: contents[p]
  }

  lemma NothingRunYet<S>(env: Env<S>, meta: map<Path, FileStatus>, contents: map<Path, string>)
    ensures ReplayOf(env, contents, [], env.empty) && MetaAfter(env, meta, Only(contents, []), []) == meta
  {
  }

  lemma FailsOn<S>(env: Env<S>, contents: map<Path, string>, paths: seq<Path>, i: nat, s: S)
    requires i < |paths| && (forall p | p in paths :: p in contents) && ReplayOf(env, contents, paths[..i], s)
    ensures FailsAt(env, contents, paths, i) <==> !env.run(contents[paths[i]], s).ok
  {
  }

  lemma ReplayIsFull<S>(env: Env<S>, contents: map<Path, string>, paths: seq<Path>, s: S)
    requires Increasing(paths, PathLess) && Elements(paths) == contents.Keys && ReplayOf(env, contents, paths, s)
    ensures FullReplay(env, contents, s)
  {
  }

  lemma OnlyAll(contents: map<Path, string>, paths: seq<Path>)
    requires forall p | p in contents :: p in paths
    ensures Only(contents, paths) == contents
  {
  }

  lemma ReplayOneMore<S>(env: Env<S>, contents: map<Path, string>, paths: seq<Path>, i: nat, s: S)
    requires i < |paths| && paths[i] in contents && ReplayOf(env, contents, paths[..i], s)
    ensures ReplayOf(env, contents, paths[..i + 1], env.run(contents[paths[i]], s).state)
  {
    assert paths[..i + 1][..i] == paths[..i];
  }

  lemma OnlyOneMore(contents: map<Path, string>, paths: seq<Path>, i: nat)
    requires i < |paths| && paths[i] in contents
    ensures Only(contents, paths[..i + 1]) == Only(contents, paths[..i])[paths[i] := contents[paths[i]]]
  {
    assert paths[..i + 1] == paths[..i] + [paths[i]];
  }

  lemma MetaInsert<S>(env: Env<S>, meta: map<Path, FileStatus>, done: map<Path, string>, p: Path, content: string,
                      errors: seq<Path>, failed: bool)
    requires p !in errors
    ensures
      var status := FileStatus(env.hash(content), Texts.ByteLen(content), failed);
      MetaAfter(env, meta, done, errors)[p := status]
        == MetaAfter(env, meta, done[p := content], if failed then errors + [p] else errors)
  {
    assert forall q | q != p :: q in errors + [p] <==> q in errors;
  }

  lemma MetaOneMore<S>(env: Env<S>, meta: map<Path, FileStatus>, contents: map<Path, string>, paths: seq<Path>, i: nat,
                       errors: seq<Path>, failed: bool)
    requires i < |paths| && paths[i] in contents && Distinct(paths)
    requires forall p | p in errors :: p in paths[..i]
    ensures
      var p := paths[i];
      var status := FileStatus(env.hash(contents[p]), Texts.ByteLen(contents[p]), failed);
      MetaAfter(env, meta, Only(contents, paths[..i]), errors)[p := status]
        == MetaAfter(env, meta, Only(contents, paths[..i + 1]), if failed then errors + [p] else errors)
  {
    hide MetaAfter, Only;
    assert paths[i] !in paths[..i];
    OnlyOneMore(contents, paths, i);
    MetaInsert(env, meta, Only(contents, paths[..i]), paths[i], contents[paths[i]], errors, failed);
  }

  method AnyChanged<S>(env: Env<S>, meta: map<Path, FileStatus>, contents: map<Path, string>, paths: seq<Path>)
    returns (anyChanged: bool)
    requires forall p :: p in paths <==> p in contents
    ensures anyChanged <==> SomeChanged(env, meta, contents)
  {
    anyChanged := false;
    for i := 0 to |paths|
      invariant anyChanged <==> exists p :: p in paths[..i] && NeedsReapply(env, meta, p, contents[p])
    {
      assert paths[..i + 1] == paths[..i] + [paths[i]];
      if NeedsReapply(env, meta, paths[i], contents[paths[i]]) {
        anyChanged := true;
      }
    }
    assert paths[..|paths|] == paths;
  }

  lemma PathsListed(contents: map<Path, string>, paths: seq<Path>)
    requires Increasing(paths, PathLess) && Elements(paths) == contents.Keys
    ensures |paths| == |contents|
    ensures Distinct(paths) && forall p :: p in paths <==> p in contents
  {
    PathOrder();
    forall i, j | 0 <= i < j < |paths| ensures paths[i] != paths[j] { assert PathLess(paths[i], paths[j]); }
    DistinctCounts(paths);
    assert |contents| == |contents.Keys|;
    assert forall p :: p in paths <==> p in Elements(paths);
  }

  class DualEngine<S> {
    const env: Env<S>
    var workspace: S
    var meta: map<Path, FileStatus>

    constructor (env: Env<S>)
      ensures this.env == env && workspace == env.empty && meta == map[]
    {
      this.env, this.workspace, this.meta := env, env.empty, map[];
    }

    /** Destroy and recreate the workspace; the record of files stays. */
    method ResetWorkspace()
      modifies this`workspace
      ensures workspace == env.empty
    {
      workspace := env.empty;
    }

    method MarkFileApplied(p: Path, hash: string, size: nat, error: bool)
      modifies this`meta
      ensures meta == old(meta)[p := FileStatus(hash, size, error)]
    {
      meta := meta - {p};
      meta := meta[p := FileStatus(hash, size, error)];
    }

    /**
     Skip everything if no readable file changed; otherwise start over and run them all, recording each
     one whether or not it failed.
     */
    method ApplyMigrations(files: Files) returns (r: MigrationResult)
      modifies this
      ensures old(SomeChanged(env, meta, Readable(files))) ==>
        && FullReplay(env, Readable(files), workspace) && meta == MetaAfter(env, old(meta), Readable(files), r.errors)
        && FailedFiles(env, Readable(files), r.errors)
        && forall p | p in Readable(files) :: p in meta && meta[p].error == (p in r.errors)
      ensures !old(SomeChanged(env, meta, Readable(files))) ==> workspace == old(workspace) && meta == old(meta)
      ensures r.total == |Readable(files)|
      ensures if old(SomeChanged(env, meta, Readable(files)))
              then r.skipped == 0 && r.applied + |r.errors| == r.total
              else r.skipped == r.total && r.applied == 0 && r.errors == []
    {
      var contents := Readable(files);
      PathOrder();
      var paths := ListMembers(contents.Keys, PathLess);
      PathsListed(contents, paths);
      var anyChanged := AnyChanged(env, meta, contents, paths);
      if !anyChanged {
        return MigrationResult(|contents|, 0, |contents|, []);
      }
      ResetWorkspace();
      var applied, errors := RunAll(contents, paths);
      r := MigrationResult(|contents|, applied, 0, errors);
    }

    method RunAll(contents: map<Path, string>, paths: seq<Path>) returns (applied: nat, errors: seq<Path>)
      requires Increasing(paths, PathLess) && Elements(paths) == contents.Keys
      requires Distinct(paths) && forall p :: p in paths <==> p in contents
      requires workspace == env.empty
      modifies this
      ensures FullReplay(env, contents, workspace)
      ensures meta == MetaAfter(env, old(meta), contents, errors)
      ensures applied + |errors| == |paths| && FailedSoFar(env, contents, paths, |paths|, errors)
    {
      hide MetaAfter, Only, ReplayOf, FailedSoFar, FailsAt, RunFiles, FullReplay, Increasing, Elements;
      applied, errors := 0, [];
      NothingRunYet(env, meta, contents);
      NothingFailed(env, contents, paths);
      for i := 0 to |paths|
        invariant ReplayOf(env, contents, paths[..i], workspace)
        invariant meta == MetaAfter(env, old(meta), Only(contents, paths[..i]), errors)
        invariant forall p | p in errors :: p in paths[..i]
        invariant applied + |errors| == i
        invariant FailedSoFar(env, contents, paths, i, errors)
      {
        var p := paths[i];
        var o := env.run(contents[p], workspace);
        FailsOn(env, contents, paths, i, workspace);
        FailedNext(env, contents, paths, i, errors);
        ReplayOneMore(env, contents, paths, i, workspace);
        workspace := o.state;
        MarkFileApplied(p, env.hash(contents[p]), Texts.ByteLen(contents[p]), !o.ok);
        MetaOneMore(env, old(meta), contents, paths, i, errors, !o.ok);
        if o.ok {
          applied := applied + 1;
        } else {
          errors := errors + [p];
        }
      }
      assert paths[..|paths|] == paths;
      OnlyAll(contents, paths);
      ReplayIsFull(env, contents, paths, workspace);
    }
  }

  // --- Agreement with a full replay, over runs ---

  /** Files are only added or edited from one set to the next. */
  predicate NothingDeleted(before: map<Path, string>, after: map<Path, string>) {
    before.Keys <= after.Keys
  }

  /** An edit changes the hash. */
  ghost predicate HashTells<S>(env: Env<S>, before: map<Path, string>, after: map<Path, string>) {
    forall p | p in before && p in after && env.hash(before[p]) == env.hash(after[p]) :: before[p] == after[p]
  }

  /** What the runs so far come to: the content last applied under every path ever, and the files last replayed. */
  datatype Progress = Progress(known: map<Path, string>, replayed: map<Path, string>)

  /** Some file was never applied with its present content last. */
  predicate NewOrEdited(known: map<Path, string>, after: map<Path, string>) {
    exists p :: p in after && (p !in known || after[p] != known[p])
  }

  function Next(t: Progress, now: map<Path, string>): Progress {
    if NewOrEdited(t.known, now) then Progress(t.known + now, now) else t
  }

  function Replayed(states: seq<Files>): Progress {
    if states == [] then Progress(map[], map[])
    else Next(Replayed(states[..|states| - 1]), Readable(states[|states| - 1]))
  }

  /**
   The record holds what was last applied under every path ever, deleted ones included, and the workspace
   is the full replay of the files last replayed, whose contents are all on record.
   */
  ghost predicate InSync<S>(env: Env<S>, workspace: S, meta: map<Path, FileStatus>, t: Progress) {
    && meta.Keys == t.known.Keys && OnRecord(env, meta, t.known)
    && (forall p | p in t.replayed :: p in t.known && t.known[p] == t.replayed[p])
    && FullReplay(env, t.replayed, workspace)
  }

  /** The scan's verdict is the truth: a change is seen iff some file is new or edited since last applied. */
  lemma ChangeSeenIff<S>(env: Env<S>, workspace: S, meta: map<Path, FileStatus>, t: Progress, after: map<Path, string>)
    requires InSync(env, workspace, meta, t) && HashTells(env, t.known, after)
    ensures SomeChanged(env, meta, after) <==> NewOrEdited(t.known, after)
  {
    if p :| p in after && (p !in t.known || after[p] != t.known[p]) {
      assert NeedsReapply(env, meta, p, after[p]);
    }
  }

  /** With no file ever applied now missing, an unchanged verdict means the files are those last applied. */
  lemma UnchangedMeansSame<S>(env: Env<S>, workspace: S, meta: map<Path, FileStatus>, t: Progress,
                              after: map<Path, string>)
    requires InSync(env, workspace, meta, t) && HashTells(env, t.known, after)
    requires NothingDeleted(t.known, after) && !SomeChanged(env, meta, after)
    ensures after == t.known
  {
    ChangeSeenIff(env, workspace, meta, t, after);
    assert forall p | p in after :: p in t.known && after[p] == t.known[p];
  }

  lemma SyncKept<S>(env: Env<S>, workspace: S, meta: map<Path, FileStatus>, t: Progress, after: map<Path, string>,
                    workspace': S, meta': map<Path, FileStatus>, errors: seq<Path>)
    requires InSync(env, workspace, meta, t) && HashTells(env, t.known, after)
    requires if SomeChanged(env, meta, after)
             then FullReplay(env, after, workspace') && meta' == MetaAfter(env, meta, after, errors)
             else workspace' == workspace && meta' == meta
    ensures InSync(env, workspace', meta', Next(t, after))
  {
    ChangeSeenIff(env, workspace, meta, t, after);
    if SomeChanged(env, meta, after) {
      assert meta'.Keys == (t.known + after).Keys;
    }
  }

  lemma NothingReplayed<S>(env: Env<S>)
    ensures InSync(env, env.empty, map[], Progress(map[], map[]))
  {
    var none: seq<Path> := [];
    assert Increasing(none, PathLess) && Elements(none) == {} && ReplayOf(env, map[], none, env.empty);
  }

  /** The hash tells each state of the files from whatever was last applied. */
  ghost predicate RunHashTells<S>(env: Env<S>, states: seq<Files>) {
    forall i | 0 <= i < |states| :: HashTells(env, Replayed(states[..i]).known, Readable(states[i]))
  }

  ghost predicate RunDeletesNothing(states: seq<Files>) {
    forall i | 0 < i < |states| :: NothingDeleted(Readable(states[i - 1]), Readable(states[i]))
  }

  /** In a run that deletes nothing, what was last replayed and what is on record are the current files. */
  lemma {:induction false} NothingLeftBehind(states: seq<Files>, n: nat)
    requires RunDeletesNothing(states) && 0 < n <= |states|
    ensures Replayed(states[..n]) == Progress(Readable(states[n - 1]), Readable(states[n - 1]))
  {
    var now := Readable(states[n - 1]);
    assert states[..n][..n - 1] == states[..n - 1];
    if n > 1 {
      NothingLeftBehind(states, n - 1);
      assert NothingDeleted(Readable(states[n - 1 - 1]), Readable(states[n - 1]));
      var last := Readable(states[n - 2]);
      assert last + now == now;
      assert !NewOrEdited(last, now) ==> last == now;
    } else {
      assert states[..0] == [];
      assert map[] + now == now;
      assert !NewOrEdited(map[], now) ==> now == map[];
    }
  }

  /**
   Drive an engine through states of the files, deletions and all: the record and the workspace are always
   those of `Replayed`, and in a run that deletes nothing the workspace is the full replay of the current files.
   */
  method ReplayRun<S>(engine: DualEngine<S>, states: seq<Files>)
    requires engine.meta == map[] && engine.workspace == engine.env.empty
    requires RunHashTells(engine.env, states)
    modifies engine
    ensures InSync(engine.env, engine.workspace, engine.meta, Replayed(states))
    ensures states != [] && RunDeletesNothing(states) ==>
      FullReplay(engine.env, Readable(states[|states| - 1]), engine.workspace)
  {
    NothingReplayed(engine.env);
    for i := 0 to |states|
      invariant InSync(engine.env, engine.workspace, engine.meta, Replayed(states[..i]))
    {
      assert states[..i + 1][..i] == states[..i];
      ghost var workspace, meta := engine.workspace, engine.meta;
      var r := engine.ApplyMigrations(states[i]);
      SyncKept(engine.env, workspace, meta, Replayed(states[..i]), Readable(states[i]),
               engine.workspace, engine.meta, r.errors);
    }
    assert states[..|states|] == states;
    if states != [] && RunDeletesNothing(states) { NothingLeftBehind(states, |states|); }
  }

  // --- When an apply is sure to agree ---

  function ContentsOf(contents: map<Path, string>, paths: seq<Path>): seq<string>
    requires forall p | p in paths :: p in contents
  {
    seq(|paths|, i requires 0 <= i < |paths| => contents[paths[i]])
  }

  ghost predicate Lists(contents: map<Path, string>, paths: seq<Path>) {
    Increasing(paths, PathLess) && Elements(paths) == contents.Keys && forall p | p in paths :: p in contents
  }

  /** In path order both sets of files hold the same contents, whatever the files are called. */
  ghost predicate SameContents(before: map<Path, string>, after: map<Path, string>) {
    exists ps, qs :: Lists(before, ps) && Lists(after, qs) && ContentsOf(before, ps) == ContentsOf(after, qs)
  }

  lemma {:induction false} SameRun<S>(env: Env<S>, before: map<Path, string>, ps: seq<Path>,
                                      after: map<Path, string>, qs: seq<Path>, s: S)
    requires (forall p | p in ps :: p in before) && (forall q | q in qs :: q in after)
    requires ContentsOf(before, ps) == ContentsOf(after, qs)
    ensures RunFiles(env, before, ps, s) == RunFiles(env, after, qs, s)
    decreases |ps|
  {
    assert |ps| == |ContentsOf(before, ps)| == |qs|;
    if ps != [] {
      var n := |ps| - 1;
      assert before[ps[n]] == ContentsOf(before, ps)[n] == ContentsOf(after, qs)[n] == after[qs[n]];
      assert ContentsOf(before, ps[..n]) == ContentsOf(before, ps)[..n] == ContentsOf(after, qs[..n]);
      SameRun(env, before, ps[..n], after, qs[..n], s);
    }
  }

  lemma SameContentsSameReplay<S>(env: Env<S>, before: map<Path, string>, after: map<Path, string>, s: S)
    requires SameContents(before, after) && FullReplay(env, before, s)
    ensures FullReplay(env, after, s)
  {
    var ps, qs :| Lists(before, ps) && Lists(after, qs) && ContentsOf(before, ps) == ContentsOf(after, qs);
    SameRun(env, before, ps, after, qs, env.empty);
    assert ReplayOf(env, before, ps, RunFiles(env, before, ps, env.empty));
    FullReplayUnique(env, before, s, RunFiles(env, before, ps, env.empty));
    assert ReplayOf(env, after, qs, s);
  }

  /** By the contract of `ApplyMigrations`, whether an apply of the given files ends with their full replay. */
  ghost predicate AgreesAfter<S>(env: Env<S>, workspace: S, meta: map<Path, FileStatus>, after: map<Path, string>) {
    SomeChanged(env, meta, after) || FullReplay(env, after, workspace)
  }

  lemma SureToAgree<S>(env: Env<S>, workspace: S, meta: map<Path, FileStatus>, t: Progress, after: map<Path, string>)
    requires InSync(env, workspace, meta, t) && HashTells(env, t.known, after)
    requires NewOrEdited(t.known, after) || SameContents(t.replayed, after)
    ensures AgreesAfter(env, workspace, meta, after)
  {
    ChangeSeenIff(env, workspace, meta, t, after);
    if SameContents(t.replayed, after) { SameContentsSameReplay(env, t.replayed, after, workspace); }
  }

  /** Whatever files do when run, an apply of `after` ends with its full replay. */
  ghost predicate ReplaySafe(t: Progress, after: map<Path, string>) {
    forall env: Env<seq<string>>, workspace, meta |
      InSync(env, workspace, meta, t) && HashTells(env, t.known, after) :: AgreesAfter(env, workspace, meta, after)
  }

  // A workspace that keeps the contents run on it, under a hash that keeps everything.
  function Recorder(): Env<seq<string>> {
    Env([], (sql: string, s: seq<string>) => Outcome(s + [sql], true), (content: string) => content)
  }

  function RecordedMeta(contents: map<Path, string>): map<Path, FileStatus> {
    map p | p in contents :: FileStatus(contents[p], 0, false)
  }

  lemma {:induction false} RunRecords(contents: map<Path, string>, paths: seq<Path>)
    requires forall p | p in paths :: p in contents
    ensures RunFiles(Recorder(), contents, paths, []) == ContentsOf(contents, paths)
  {
    if paths != [] {
      var front := paths[..|paths| - 1];
      RunRecords(contents, front);
      assert ContentsOf(contents, paths) == ContentsOf(contents, front) + [contents[paths[|paths| - 1]]];
    }
  }

  lemma RecorderInSync(t: Progress) returns (workspace: seq<string>)
    requires forall p | p in t.replayed :: p in t.known && t.known[p] == t.replayed[p]
    ensures InSync(Recorder(), workspace, RecordedMeta(t.known), t)
    ensures forall after | FullReplay(Recorder(), after, workspace) :: SameContents(t.replayed, after)
  {
    PathOrder();
    var ps := ListingExists(t.replayed.Keys, PathLess);
    assert forall p | p in ps :: p in Elements(ps);
    RunRecords(t.replayed, ps);
    workspace := ContentsOf(t.replayed, ps);
    assert ReplayOf(Recorder(), t.replayed, ps, workspace);
    forall after | FullReplay(Recorder(), after, workspace) ensures SameContents(t.replayed, after) {
      var qs :| Increasing(qs, PathLess) && Elements(qs) == after.Keys && ReplayOf(Recorder(), after, qs, workspace);
      RunRecords(after, qs);
      assert Lists(t.replayed, ps) && Lists(after, qs);
    }
  }

  /**
   An apply is sure to end with the full replay iff some file is new or edited since it was last applied, or
   in path order the files hold what the files last replayed held.
   */
  lemma ReplaySafeIff(t: Progress, after: map<Path, string>)
    requires forall p | p in t.replayed :: p in t.known && t.known[p] == t.replayed[p]
    ensures ReplaySafe(t, after) <==> NewOrEdited(t.known, after) || SameContents(t.replayed, after)
  {
    if NewOrEdited(t.known, after) || SameContents(t.replayed, after) {
      forall env: Env<seq<string>>, workspace, meta | InSync(env, workspace, meta, t) && HashTells(env, t.known, after)
        ensures AgreesAfter(env, workspace, meta, after)
      {
        SureToAgree(env, workspace, meta, t, after);
      }
    } else {
      var workspace := RecorderInSync(t);
      ChangeSeenIff(Recorder(), workspace, RecordedMeta(t.known), t, after);
      assert !AgreesAfter(Recorder(), workspace, RecordedMeta(t.known), after);
    }
  }

  /** The condition holds of every state a run reaches. */
  lemma {:induction false} ReplayedIsKnown(states: seq<Files>)
    ensures var t := Replayed(states); forall p | p in t.replayed :: p in t.known && t.known[p] == t.replayed[p]
  {
    if states != [] {
      var front, now := states[..|states| - 1], Readable(states[|states| - 1]);
      ReplayedIsKnown(front);
      assert Replayed(states) == Next(Replayed(front), now);
    }
  }

  /**
   From any state one apply agrees with a full replay iff it saw a change or the workspace was that replay
   already; in a state that a run has reached it does if some file is new or edited since it was last
   applied, or the files hold what those last replayed held.
   */
  method ApplyAgrees<S>(engine: DualEngine<S>, files: Files, ghost t: Progress) returns (r: MigrationResult)
    modifies engine
    ensures FullReplay(engine.env, Readable(files), engine.workspace)
       <==> old(SomeChanged(engine.env, engine.meta, Readable(files)))
            || FullReplay(engine.env, Readable(files), old(engine.workspace))
    ensures
      var after := Readable(files);
      old(InSync(engine.env, engine.workspace, engine.meta, t)) && HashTells(engine.env, t.known, after) ==>
        && InSync(engine.env, engine.workspace, engine.meta, Next(t, after))
        && (NewOrEdited(t.known, after) || SameContents(t.replayed, after) ==>
              FullReplay(engine.env, after, engine.workspace))
  {
    ghost var workspace, meta := engine.workspace, engine.meta;
    r := engine.ApplyMigrations(files);
    if InSync(engine.env, workspace, meta, t) && HashTells(engine.env, t.known, Readable(files)) {
      SyncKept(engine.env, workspace, meta, t, Readable(files), engine.workspace, engine.meta, r.errors);
      if NewOrEdited(t.known, Readable(files)) || SameContents(t.replayed, Readable(files)) {
        SureToAgree(engine.env, workspace, meta, t, Readable(files));
      }
    }
  }

  /** Deleting the last file whose run had an effect leaves that effect in the workspace. */
  lemma DeletionGoesUnnoticed<S>(env: Env<S>, workspace: S, meta: map<Path, FileStatus>, p: Path, content: string)
    requires InSync(env, workspace, meta, Progress(map[p := content], map[p := content]))
    requires env.run(content, env.empty).state != env.empty
    ensures !SomeChanged(env, meta, map[]) && !FullReplay(env, map[], workspace)
  {
    NothingReplayed(env);
    if FullReplay(env, map[], workspace) {
      FullReplayUnique(env, map[], workspace, env.empty);
    }
    OneFile(env, p, content);
    FullReplayUnique(env, map[p := content], workspace, env.run(content, env.empty).state);
  }

  lemma OneFile<S>(env: Env<S>, p: Path, content: string)
    ensures FullReplay(env, map[p := content], env.run(content, env.empty).state)
  {
    var one := [p];
    assert one[..0] == [];
    assert Increasing(one, PathLess) && Elements(one) == {p};
    assert ReplayOf(env, map[p := content], one, env.run(content, env.empty).state);
  }

  lemma TwoFiles<S>(env: Env<S>, a: Path, x: string, b: Path, y: string)
    requires PathLess(a, b)
    ensures FullReplay(env, map[a := x, b := y], env.run(y, env.run(x, env.empty).state).state)
  {
    PathLessAsymmetric(a, b);
    var both := [a, b];
    var contents := map[a := x, b := y];
    assert both[..1] == [a] && [a][..0] == [];
    assert RunFiles(env, contents, [a], env.empty) == env.run(x, env.empty).state;
    assert Increasing(both, PathLess) && Elements(both) == {a, b} == map[a := x, b := y].Keys;
    assert ReplayOf(env, map[a := x, b := y], both, env.run(y, env.run(x, env.empty).state).state);
  }

  /** File `b` goes while `a` is edited, and then comes back as it was. */
  predicate Restores(states: seq<Files>, a: Path, z: string, b: Path, y: string) {
    && |states| == 3 && a in Readable(states[0]) && Readable(states[0])[a] != z
    && Readable(states[0]).Keys == {a, b} && Readable(states[0])[b] == y
    && Readable(states[1]) == map[a := z] && Readable(states[2]) == map[a := z, b := y]
  }

  lemma ReplayedThrice(states: seq<Files>)
    requires |states| == 3
    ensures Replayed(states)
         == Next(Next(Next(Progress(map[], map[]), Readable(states[0])), Readable(states[1])), Readable(states[2]))
  {
    assert states[..2][..1] == states[..1] && states[..1][..0] == [];
    assert Replayed(states[..1]) == Next(Progress(map[], map[]), Readable(states[0]));
    assert Replayed(states[..2]) == Next(Replayed(states[..1]), Readable(states[1]));
  }

  lemma NextNoticed(t: Progress, now: map<Path, string>, p: Path)
    requires p in now && (p !in t.known || now[p] != t.known[p])
    ensures Next(t, now) == Progress(t.known + now, now)
  {
  }

  /** Two changes noticed, and then nothing new against both together. */
  lemma TwiceNoticed(first: map<Path, string>, second: map<Path, string>, p: Path)
    requires p in first && p in second && first[p] != second[p]
    ensures
      var t := Next(Next(Progress(map[], map[]), first), second);
      t == Progress(first + second, second) && Next(t, first + second) == t
  {
    NextNoticed(Progress(map[], map[]), first, p);
    assert map[] + first == first;
    NextNoticed(Progress(first, first), second, p);
  }

  lemma RestoringReplayed(states: seq<Files>, a: Path, z: string, b: Path, y: string)
    requires a != b && Restores(states, a, z, b, y)
    ensures Replayed(states) == Progress(map[a := z, b := y], map[a := z])
  {
    ReplayedThrice(states);
    TwiceNoticed(Readable(states[0]), Readable(states[1]), a);
    assert Readable(states[0]) + Readable(states[1]) == Readable(states[2]);
  }

  /**
   Restoring a deleted file goes unnoticed: the deletion came with an edit and was noticed, the last step
   deletes nothing, and yet the workspace is not the replay of the files there are.
   */
  lemma RestoreGoesUnnoticed<S>(env: Env<S>, workspace: S, states: seq<Files>, a: Path, z: string, b: Path, y: string)
    requires PathLess(a, b) && Restores(states, a, z, b, y)
    requires FullReplay(env, Replayed(states).replayed, workspace)
    requires
      var edited := env.run(z, env.empty).state;
      env.run(y, edited).state != edited
    ensures !FullReplay(env, Readable(states[2]), workspace)
  {
    PathLessAsymmetric(a, b);
    RestoringReplayed(states, a, z, b, y);
    OneFile(env, a, z);
    TwoFiles(env, a, z, b, y);
    FullReplayUnique(env, map[a := z], workspace, env.run(z, env.empty).state);
    if FullReplay(env, map[a := z, b := y], workspace) {
      FullReplayUnique(env, map[a := z, b := y], workspace, env.run(y, env.run(z, env.empty).state).state);
    }
  }
}
