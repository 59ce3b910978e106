/** The migration engine over its database: planning, applying and rolling back. */
module MigrationEngine {
  import opened Ordering
  import opened Migrations
  import opened MigrationRuns
  import opened SchemaSkips
  import opened Texts
  import LeaderLock

  predicate OlderFirst(a: Applied, b: Applied) { a.version < b.version }

  datatype RollbackResult = RollbackResult(rolledBack: seq<Version>, targetVersion: Version, errors: seq<Version>)

  datatype ApplyResult = ApplyResult(appliedMigrations: nat, appliedModules: nat)

  datatype EngineError =
    | LockUnavailable
    | MigrationFailed(version: Version)
    | SchemaFailed(moduleName: Name)
    | MissingFunctions(names: seq<Name>)

  /** The versions a rollback reports an error for: those passed over, and the one that ended it. */
  function Complaints<S>(env: Env<S>, s: S, ms: seq<Migration>, rows: seq<Applied>): seq<Version> {
    if rows == [] then []
    else
      match DownOf(ms, rows[0].version)
      case None => [rows[0].version] + Complaints(env, s, ms, rows[1..])
      case Some(sql) =>
        if Transact(env, sql, s).ok then Complaints(env, Transact(env, sql, s).state, ms, rows[1..])
        else [rows[0].version]
  }

  class Database<S> {
    const env: Env<S>
    var app: S
    var applied: seq<Applied>
    var changelog: seq<Entry>
    var trace: seq<Effect>

    constructor (env: Env<S>, app: S)
      ensures this.env == env && State() == Db(app, [], [], [])
      ensures Accounted(State()) && Audited(State())
    {
      this.env, this.app := env, app;
      applied, changelog, trace := [], [], [];
      NewDatabaseAccounted(app);
    }

    function State(): Db<S>
      reads this
    {
      Db(app, applied, changelog, trace)
    }

    method RecordEntry(e: Entry)
      modifies this`changelog
      ensures changelog == old(changelog) + [e]
    {
      changelog := changelog + [e];
    }

    /** Run a query as one transaction. */
    method RunTransaction(sql: string) returns (ok: bool)
      modifies this`app
      ensures Outcome(app, ok) == Transact(env, sql, old(app))
      ensures ok == env.run(sql, old(app)).ok && app == if ok then env.run(sql, old(app)).state else old(app)
    {
      var o := env.run(sql, app);
      ok := o.ok;
      if o.ok {
        app := o.state;
      }
    }

    /** The applied migrations by ascending version. */
    method ReadApplied() returns (rows: seq<Applied>)
      ensures forall r :: r in rows <==> r in applied
      ensures SortedBy(rows, OlderFirst)
    {
      rows := SortBy(applied, OlderFirst);
      assert WeakOrder(OlderFirst);
      SortByCorrect(applied, OlderFirst);
    }

    /** The latest recorded checksum of each module: the first seen per name, newest row first. */
    method ReadSchemaChecksums() returns (checksums: map<Name, string>)
      ensures forall n :: n in checksums <==> LatestChecksum(changelog, n).Some?
      ensures forall n | n in checksums :: checksums[n] == LatestChecksum(changelog, n).value
    {
      checksums := map[];
      var i := |changelog|;
      assert changelog[..i] == changelog;
      while i > 0
        invariant 0 <= i <= |changelog|
        invariant forall n | n in checksums :: LatestChecksum(changelog, n) == Some(checksums[n])
        invariant forall n | n !in checksums :: LatestChecksum(changelog, n) == LatestChecksum(changelog[..i], n)
      {
        i := i - 1;
        assert changelog[..i + 1][..i] == changelog[..i];
        if changelog[i].kind == SchemaModuleEntry && changelog[i].name !in checksums {
          checksums := checksums[changelog[i].name := changelog[i].checksum];
        }
      }
    }

    /** Examine the migrations and the tables; nothing is changed. */
    method MakePlan(manifest: Manifest) returns (r: Result<Plan, PlanError>)
      ensures r.Ok? <==> Plannable(env, State(), manifest)
      ensures r.Ok? ==> r.value == PlanFor(env, State(), manifest)
      ensures r.Ok? ==> forall a, m | a in applied && m in manifest.migrations && a.version == m.version ::
                a.checksum == m.checksum
      ensures !(r.Err? && r.error.BadFunctions?) && DistinctVersions(manifest.migrations) ==>
        (r.Err? && r.error.ChecksumMismatch? <==>
          exists a, m :: a in applied && m in manifest.migrations && a.version == m.version && a.checksum != m.checksum)
      ensures
        var sql := AllSource(manifest.modules);
        && (r.Err? && r.error.BadFunctions? <==> !AllBlank(sql) && env.parse(sql).None?)
        && (r.Ok? ==> r.value.functions == if AllBlank(sql) then [] else env.parse(sql).value)
      ensures r.Err? && r.error.ChecksumMismatch? ==>
        exists a :: a in applied && a.version == r.error.version && Mismatched(a, manifest.migrations)
      ensures r.Err? && r.error.DuplicateVersion? ==> !DistinctVersions(manifest.migrations)
      ensures r.Err? && r.error.BadFunctions? <==> !FunctionsFound(env, manifest.modules)
    {
      if !FunctionsFound(env, manifest.modules) {
        return Err(BadFunctions);
      }
      hide Mismatched, Pending, AllSource, Skips;
      if DistinctVersions(manifest.migrations) { MismatchMeans(applied, manifest.migrations); }
      var rows := ReadApplied();
      for i := 0 to |rows|
        invariant forall a | a in rows[..i] :: !Mismatched(a, manifest.migrations)
      {
        if Mismatched(rows[i], manifest.migrations) {
          assert rows[i] in rows;
          return Err(ChecksumMismatch(rows[i].version));
        }
      }
      assert rows[..|rows|] == rows;
      var duplicate := FindDuplicate(manifest.migrations);
      if duplicate.Some? {
        return Err(DuplicateVersion(duplicate.value));
      }
      var checksums := ReadSchemaChecksums();
      var allMatch := |checksums| >= |manifest.modules|
        && forall m | m in manifest.modules :: m.name in checksums && checksums[m.name] == env.hash(m.content);
      SkipTest(env, changelog, manifest.modules, checksums);
      r := Ok(Plan(Pending(applied, manifest.migrations), if allMatch then [] else manifest.modules,
                   FunctionNames(env, manifest.modules)));
    }

    /** Run the pending migrations up to the first failure, recording each. */
    method RunPending(pending: seq<Migration>, who: string) returns (done: nat)
      modifies this
      ensures State() == ApplyPending(env, old(State()), pending, who)
      ensures done == Progress(env, old(app), pending)
    {
      done := 0;
      while done < |pending|
        invariant done <= |pending|
        invariant ApplyPending(env, State(), pending[done..], who) == ApplyPending(env, old(State()), pending, who)
        invariant done + Progress(env, app, pending[done..]) == Progress(env, old(app), pending)
      {
        var m := pending[done];
        assert pending[done..][0] == m && pending[done..][1..] == pending[done + 1..];
        var ok := RunTransaction(m.content);
        if ok {
          trace := trace + [Up(m.version)];
          applied := Record(applied, Applied(m.version, m.checksum, who));
          RecordEntry(Entry(MigrationEntry, m.version, m.name, m.checksum, who));
          done := done + 1;
        } else {
          RecordEntry(Entry(MigrationFailedEntry, m.version, m.name, m.checksum, who));
          return;
        }
      }
    }

    /** Run the modules, outside any transaction, up to the first error. */
    method RunModules(modules: seq<SchemaModule>) returns (done: nat)
      modifies this`app, this`trace
      ensures State() == DefineModules(env, old(State()), modules)
      ensures done <= |modules| && (done == |modules| <==> AllDefined(env, old(app), modules))
    {
      done := 0;
      while done < |modules|
        invariant done <= |modules|
        invariant DefineModules(env, State(), modules[done..]) == DefineModules(env, old(State()), modules)
        invariant AllDefined(env, app, modules[done..]) == AllDefined(env, old(app), modules)
      {
        var m := modules[done];
        assert modules[done..][0] == m && modules[done..][1..] == modules[done + 1..];
        var o := env.run(m.content, app);
        app := o.state;
        if !o.ok {
          trace := trace + [Broken(m)];
          return;
        }
        trace := trace + [Defined(m)];
        done := done + 1;
      }
    }

    /** Put every module on record under its current checksum. */
    method RecordModules(modules: seq<SchemaModule>, who: string)
      modifies this`changelog
      ensures changelog == old(changelog) + ModuleEntries(env, modules, who)
      ensures |changelog| == |old(changelog)| + |modules|
      ensures forall i | 0 <= i < |modules| :: changelog[|old(changelog)| + i]
                == Entry(SchemaModuleEntry, 0, modules[i].name, env.hash(modules[i].content), who)
    {
      for i := 0 to |modules|
        invariant changelog == old(changelog) + ModuleEntries(env, modules[..i], who)
      {
        RecordEntry(ModuleEntry(env, modules[i], who));
        assert ModuleEntries(env, modules[..i + 1], who)
            == ModuleEntries(env, modules[..i], who) + [ModuleEntry(env, modules[i], who)];
      }
      assert modules[..|modules|] == modules;
    }

    /**
     Migrations, then modules, then the modules' records, then the check for functions. A failed module is
     reported first, missing functions next, and a failed migration last.
     */
    method RunPlan(plan: Plan, who: string) returns (r: Result<ApplyResult, EngineError>)
      modifies this
      ensures State() == ApplyInner(env, old(State()), plan, who)
      ensures r.Err? && r.error.SchemaFailed?
        <==> !AllDefined(env, ApplyPending(env, old(State()), plan.pending, who).app, plan.modules)
      ensures !(r.Err? && r.error.SchemaFailed?) ==>
        if !AllPresent(env.functionKeys(app), plan.functions) then r.Err? && r.error.MissingFunctions?
        else
          var done := Progress(env, old(app), plan.pending);
          r == if done < |plan.pending| then Err(MigrationFailed(plan.pending[done].version))
               else Ok(ApplyResult(|plan.pending|, |plan.modules|))
    {
      hide ApplyPending, DefineModules, AllDefined, AllPresent, Progress, ModuleEntries;
      var done := RunPending(plan.pending, who);
      var defined := RunModules(plan.modules);
      if defined < |plan.modules| {
        return Err(SchemaFailed(plan.modules[defined].name));
      }
      RecordModules(plan.modules, who);
      var missing := FindMissing(env.functionKeys(app), plan.functions);
      if missing != [] {
        return Err(MissingFunctions(missing));
      }
      if done < |plan.pending| {
        return Err(MigrationFailed(plan.pending[done].version));
      }
      return Ok(ApplyResult(done, defined));
    }

    /** An empty plan needs no lock; `locked` is what the retry loop of the lock came back with. */
    method ApplyPlan(plan: Plan, who: string, locked: bool) returns (r: Result<ApplyResult, EngineError>)
      modifies this
      ensures State() == Apply(env, old(State()), plan, who, locked)
      ensures r.Ok? <==> ApplyOk(env, old(State()), plan, locked, who)
      ensures r == Err(LockUnavailable) <==> !locked && (plan.pending != [] || plan.modules != [])
      ensures r.Ok? ==> r.value == ApplyResult(|plan.pending|, |plan.modules|)
    {
      if plan.pending == [] && plan.modules == [] {
        return Ok(ApplyResult(0, 0));
      }
      if !locked {
        return Err(LockUnavailable);
      }
      r := RunPlan(plan, who);
    }

    /** Take migrations above the target back, newest first. */
    method RollBackTo(manifest: Manifest, target: Version, who: string, locked: bool)
      returns (r: Result<RollbackResult, EngineError>)
      modifies this
      ensures State() == RollBack(env, old(State()), manifest, target, who, locked)
      ensures r.Ok? <==> ToRollBack(old(applied), target) == [] || locked
      ensures r.Ok? ==> r.value == RollbackResult(
        TakenBack(env, old(app), manifest.migrations, ToRollBack(old(applied), target)), target,
        Complaints(env, old(app), manifest.migrations, ToRollBack(old(applied), target)))
    {
      var rows := ToRollBack(applied, target);
      if rows == [] {
        return Ok(RollbackResult([], target, []));
      }
      if !locked {
        return Err(LockUnavailable);
      }
      var taken, errors := RunDowns(manifest.migrations, rows, who);
      return Ok(RollbackResult(taken, target, errors));
    }

    method RunDowns(ms: seq<Migration>, rows: seq<Applied>, who: string)
      returns (taken: seq<Version>, errors: seq<Version>)
      modifies this
      ensures State() == RollBackAll(env, old(State()), ms, rows, who)
      ensures taken == TakenBack(env, old(app), ms, rows)
      ensures errors == Complaints(env, old(app), ms, rows)
    {
      taken, errors := [], [];
      for i := 0 to |rows|
        invariant RollBackAll(env, State(), ms, rows[i..], who) == RollBackAll(env, old(State()), ms, rows, who)
        invariant taken + TakenBack(env, app, ms, rows[i..]) == TakenBack(env, old(app), ms, rows)
        invariant errors + Complaints(env, app, ms, rows[i..]) == Complaints(env, old(app), ms, rows)
      {
        var v := rows[i].version;
        assert rows[i..][0] == rows[i] && rows[i..][1..] == rows[i + 1..];
        match DownOf(ms, v) {
          case None =>
            errors := errors + [v];
          case Some(sql) =>
            var ok := RunTransaction(sql);
            if ok {
              trace := trace + [Down(v)];
              applied := Delete(applied, v);
              RecordEntry(Entry(RollbackEntry, v, NameOf(ms, v), rows[i].checksum, who));
              taken := taken + [v];
            } else {
              errors := errors + [v];
              return;
            }
        }
      }
    }
  }

  // --- Under the lock ---

  /** Whether the retry loop gets the lock, with whatever others do meanwhile. */
  function GetsLock(s: LeaderLock.LockState, id: string, others: seq<LeaderLock.Others>): bool {
    LeaderLock.LastSucceeds(s, LeaderLock.Retries(s, id, others))
  }

  /** The lock's state after the retry loop and, if that succeeded, the work done under the lock and the release. */
  function LockAfter(s: LeaderLock.LockState, id: string, others: seq<LeaderLock.Others>,
                     during: seq<LeaderLock.LockEvent>): LeaderLock.LockState {
    var tried := LeaderLock.After(s, LeaderLock.Retries(s, id, others));
    if GetsLock(s, id, others) then LeaderLock.Step(LeaderLock.After(tried, during), LeaderLock.Release(id)) else tried
  }

  /** The lease is still this instance's when the work is done. */
  predicate HeldAtEnd(s: LeaderLock.LockState, id: string, others: seq<LeaderLock.Others>,
                      during: seq<LeaderLock.LockEvent>) {
    var ended := LeaderLock.After(LeaderLock.After(s, LeaderLock.Retries(s, id, others)), during);
    ended.row.Some? && ended.row.value.holder == Some(id)
  }

  lemma SomethingAbove(rows: seq<Applied>, target: Version)
    ensures ToRollBack(rows, target) != [] <==> exists a :: a in rows && a.version > target
  {
    AboveExact(rows, target);
    assert WeakOrder(NewerFirst);
    SortByCorrect(Above(rows, target), NewerFirst);
    if a :| a in rows && a.version > target { assert a in ToRollBack(rows, target); }
    if ToRollBack(rows, target) != [] { assert ToRollBack(rows, target)[0] in Above(rows, target); }
  }

  /** Apply a plan: take the lock unless there is nothing to do, and release it however the work ends. */
  method ApplyUnderLock<S>(db: Database<S>, plan: Plan, lock: LeaderLock.SurrealLock, others: seq<LeaderLock.Others>,
                           during: seq<LeaderLock.LockEvent>)
    returns (r: Result<ApplyResult, EngineError>)
    requires |others| == LeaderLock.MAX_RETRIES
    modifies db, lock.client
    ensures
      var locked := old(GetsLock(lock.client.State(), lock.instanceId, others));
      && db.State() == Apply(db.env, old(db.State()), plan, lock.instanceId, locked)
      && (r.Ok? <==> ApplyOk(db.env, old(db.State()), plan, locked, lock.instanceId))
      && (r.Ok? ==> r.value == ApplyResult(|plan.pending|, |plan.modules|))
    ensures lock.client.State() == if IsEmptyPlan(plan) then old(lock.client.State())
                                   else old(LockAfter(lock.client.State(), lock.instanceId, others, during))
    ensures (plan.pending != [] || plan.modules != []) && r != Err(LockUnavailable) ==>
      && (lock.client.row.Some? ==> lock.client.row.value.holder != Some(lock.instanceId))
      && (old(HeldAtEnd(lock.client.State(), lock.instanceId, others, during)) ==>
            forall other :: LeaderLock.Succeeds(lock.client.State(), LeaderLock.Claim(other)))
  {
    if plan.pending == [] && plan.modules == [] {
      return Ok(ApplyResult(0, 0));
    }
    var locked := lock.Acquire(others);
    r := db.ApplyPlan(plan, lock.instanceId, locked);
    if locked {
      lock.client.Play(during);
      LeaderLock.ReleaseFrees(lock.client.State(), lock.instanceId);
      lock.ReleaseRecord();
    }
  }

  /** Roll back: take the lock unless nothing lies above the target, and release it after the last down script. */
  method RollBackUnderLock<S>(db: Database<S>, manifest: Manifest, target: Version, lock: LeaderLock.SurrealLock,
                              others: seq<LeaderLock.Others>, during: seq<LeaderLock.LockEvent>)
    returns (r: Result<RollbackResult, EngineError>)
    requires |others| == LeaderLock.MAX_RETRIES
    modifies db, lock.client
    ensures
      var locked := old(GetsLock(lock.client.State(), lock.instanceId, others));
      && db.State() == RollBack(db.env, old(db.State()), manifest, target, lock.instanceId, locked)
      && (r.Ok? <==> ToRollBack(old(db.applied), target) == [] || locked)
    ensures lock.client.State() == if ToRollBack(old(db.applied), target) == [] then old(lock.client.State())
                                   else old(LockAfter(lock.client.State(), lock.instanceId, others, during))
    ensures (exists a :: a in old(db.applied) && a.version > target) && r.Ok? ==>
      && (lock.client.row.Some? ==> lock.client.row.value.holder != Some(lock.instanceId))
      && (old(HeldAtEnd(lock.client.State(), lock.instanceId, others, during)) ==>
            forall other :: LeaderLock.Succeeds(lock.client.State(), LeaderLock.Claim(other)))
  {
    SomethingAbove(db.applied, target);
    if ToRollBack(db.applied, target) == [] {
      return Ok(RollbackResult([], target, []));
    }
    var locked := lock.Acquire(others);
    r := db.RollBackTo(manifest, target, lock.instanceId, locked);
    if locked {
      lock.client.Play(during);
      LeaderLock.ReleaseFrees(lock.client.State(), lock.instanceId);
      lock.ReleaseRecord();
    }
  }

  /** Carry out a history of plan-and-apply and rollback commands: every version stays accounted for. */
  method Perform<S>(db: Database<S>, commands: seq<Command>)
    requires Accounted(db.State()) && Audited(db.State())
    modifies db
    ensures db.State() == Run(db.env, old(db.State()), commands)
    ensures Accounted(db.State()) && Audited(db.State())
  {
    for i := 0 to |commands|
      invariant db.State() == Run(db.env, old(db.State()), commands[..i])
    {
      assert commands[..i + 1][..i] == commands[..i];
      match commands[i] {
        case PlanAndApply(manifest, who, locked) =>
          var plan := db.MakePlan(manifest);
          if plan.Ok? {
            var result := db.ApplyPlan(plan.value, who, locked);
          }
        case RollBackTo(manifest, target, who, locked) =>
          var result := db.RollBackTo(manifest, target, who, locked);
      }
    }
    assert commands[..|commands|] == commands;
    AlwaysAccounted(db.env, old(db.State()), commands);
    AlwaysAudited(db.env, old(db.State()), commands);
  }

  /** The functions looked for that are not there, in order. */
  method FindMissing(keys: set<Name>, functions: seq<Name>) returns (missing: seq<Name>)
    ensures missing == [] <==> AllPresent(keys, functions)
    ensures forall f :: f in missing <==> f in functions && f !in keys && "fn::" + f !in keys
  {
    missing := [];
    for i := 0 to |functions|
      invariant forall f :: f in missing <==> f in functions[..i] && f !in keys && "fn::" + f !in keys
    {
      if functions[i] !in keys && "fn::" + functions[i] !in keys {
        missing := missing + [functions[i]];
      }
    }
    if missing != [] { assert missing[0] in missing; }
  }

  method FindDuplicate(ms: seq<Migration>) returns (duplicate: Option<Version>)
    ensures duplicate.None? <==> DistinctVersions(ms)
    ensures duplicate.Some? ==> exists i, j :: 0 <= i < j < |ms| && ms[i].version == ms[j].version == duplicate.value
  {
    var seen: set<Version> := {};
    for i := 0 to |ms|
      invariant forall v :: v in seen <==> exists j :: 0 <= j < i && ms[j].version == v
      invariant forall j, k | 0 <= j < k < i :: ms[j].version != ms[k].version
    {
      if ms[i].version in seen {
        return Some(ms[i].version);
      }
      seen := seen + {ms[i].version};
    }
    return None;
  }

  /** Comparing against the checksums read back decides the skip. */
  lemma SkipTest<S>(env: Env<S>, log: seq<Entry>, modules: seq<SchemaModule>, checksums: map<Name, string>)
    requires forall n :: n in checksums <==> LatestChecksum(log, n).Some?
    requires forall n | n in checksums :: checksums[n] == LatestChecksum(log, n).value
    ensures Skips(env, log, modules) <==> (
      && |checksums| >= |modules|
      && forall m | m in modules :: m.name in checksums && checksums[m.name] == env.hash(m.content))
  {
    forall n ensures n in checksums <==> n in RecordedNames(log) { LatestIsRecorded(log, n); }
    assert checksums.Keys == RecordedNames(log);
  }
}
