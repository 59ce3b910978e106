/** Skipping unchanged schema modules: when planning does it, and when the record it trusts is true. */
module SchemaSkips {
  import opened Ordering
  import opened Migrations
  import opened MigrationRuns

  // --- The latest record of a module ---

  lemma LatestAppend(log: seq<Entry>, e: Entry, n: Name)
    ensures LatestChecksum(log + [e], n)
         == if e.kind == SchemaModuleEntry && e.name == n then Some(e.checksum) else LatestChecksum(log, n)
  {
    assert (log + [e])[..|log|] == log;
  }

  /** The content a list of modules gives a name, the last one winning. */
  function ContentIn(modules: seq<SchemaModule>, n: Name): Option<string> {
    if modules == [] then None
    else if modules[|modules| - 1].name == n then Some(modules[|modules| - 1].content)
    else ContentIn(modules[..|modules| - 1], n)
  }

  lemma {:induction false} ContentOf(modules: seq<SchemaModule>, m: SchemaModule)
    requires DistinctModules(modules) && m in modules
    ensures ContentIn(modules, m.name) == Some(m.content)
  {
    var front, last := modules[..|modules| - 1], modules[|modules| - 1];
    assert modules == front + [last];
    if m != last {
      assert m in front;
      ContentOf(front, m);
    }
  }

  lemma {:induction false} NoContent(modules: seq<SchemaModule>, n: Name)
    ensures ContentIn(modules, n).Some?
      ==> exists m :: m in modules && m.name == n && m.content == ContentIn(modules, n).value
  {
    if modules != [] && modules[|modules| - 1].name != n {
      NoContent(modules[..|modules| - 1], n);
    }
  }

  lemma EntriesLast<S>(env: Env<S>, log: seq<Entry>, modules: seq<SchemaModule>, who: string)
    requires modules != []
    ensures
      var front, last := modules[..|modules| - 1], modules[|modules| - 1];
      log + ModuleEntries(env, modules, who) == log + ModuleEntries(env, front, who) + [ModuleEntry(env, last, who)]
  {
  }

  lemma {:induction false} LatestAfterModules<S>(env: Env<S>, log: seq<Entry>, modules: seq<SchemaModule>, who: string,
                                                 n: Name)
    ensures LatestChecksum(log + ModuleEntries(env, modules, who), n)
         == if ContentIn(modules, n).Some? then Some(env.hash(ContentIn(modules, n).value)) else LatestChecksum(log, n)
  {
    if modules == [] {
      assert log + ModuleEntries(env, modules, who) == log;
    } else {
      var front, last := modules[..|modules| - 1], modules[|modules| - 1];
      LatestAfterModules(env, log, front, who, n);
      EntriesLast(env, log, modules, who);
      LatestAppend(log + ModuleEntries(env, front, who), ModuleEntry(env, last, who), n);
    }
  }

  lemma {:induction false} LatestAfterMigrations<S>(env: Env<S>, db: Db<S>, pending: seq<Migration>, who: string,
                                                    n: Name)
    ensures LatestChecksum(ApplyPending(env, db, pending, who).changelog, n) == LatestChecksum(db.changelog, n)
    decreases |pending|
  {
    if pending != [] {
      var m := pending[0];
      if Transact(env, m.content, db.app).ok {
        LatestAfterMigrations(env, Succeeded(env, db, m, who), pending[1..], who, n);
        LatestAppend(db.changelog, Entry(MigrationEntry, m.version, m.name, m.checksum, who), n);
      } else {
        LatestAppend(db.changelog, Entry(MigrationFailedEntry, m.version, m.name, m.checksum, who), n);
      }
    }
  }

  /** What an apply does to the latest record of a name: everything if all modules ran, else nothing. */
  lemma LatestAfterApply<S>(env: Env<S>, db: Db<S>, plan: Plan, who: string, n: Name)
    ensures
      var content := ContentIn(plan.modules, n);
      LatestChecksum(Apply(env, db, plan, who, true).changelog, n)
        == if content.Some? && AllDefined(env, ApplyPending(env, db, plan.pending, who).app, plan.modules)
           then Some(env.hash(content.value)) else LatestChecksum(db.changelog, n)
  {
    var migrated := ApplyPending(env, db, plan.pending, who);
    LatestAfterMigrations(env, db, plan.pending, who, n);
    ModulesOnlyDefine(env, migrated, plan.modules);
    LatestAfterModules(env, migrated.changelog, plan.modules, who, n);
  }

  lemma {:induction false} LatestIsRecorded(log: seq<Entry>, n: Name)
    ensures LatestChecksum(log, n).Some? <==> n in RecordedNames(log)
  {
    if log != [] {
      var front, last := log[..|log| - 1], log[|log| - 1];
      LatestIsRecorded(front, n);
      assert log == front + [last];
      assert forall e :: e in log <==> e in front || e == last;
    }
  }

  /** With distinct module names the length test adds nothing: modules are skipped iff all are unchanged. */
  lemma SkipsIffUnchanged<S>(env: Env<S>, log: seq<Entry>, modules: seq<SchemaModule>)
    requires DistinctModules(modules)
    ensures Skips(env, log, modules) <==> Unchanged(env.hash, log, modules)
  {
    if Unchanged(env.hash, log, modules) {
      var names := seq(|modules|, i requires 0 <= i < |modules| => modules[i].name);
      forall n | n in names ensures n in RecordedNames(log) {
        var i :| 0 <= i < |modules| && names[i] == n;
        assert modules[i] in modules;
        LatestIsRecorded(log, n);
      }
      DistinctFits(names, RecordedNames(log));
    }
  }

  /** Planning the same manifest again after a successful apply drops every module. */
  lemma ReplanSkipsModules<S>(env: Env<S>, db: Db<S>, manifest: Manifest, who: string)
    requires DistinctModules(manifest.modules)
    requires AllRan(env, db, PlanFor(env, db, manifest), true, who)
    ensures PlanFor(env, Apply(env, db, PlanFor(env, db, manifest), who, true), manifest).modules == []
  {
    var plan := PlanFor(env, db, manifest);
    SkipsIffUnchanged(env, db.changelog, manifest.modules);
    forall m | m in manifest.modules
      ensures LatestChecksum(Apply(env, db, plan, who, true).changelog, m.name) == Some(env.hash(m.content))
    {
      LatestAfterApply(env, db, plan, who, m.name);
      if plan.modules != [] { ContentOf(manifest.modules, m); }
    }
    SkipsIffUnchanged(env, Apply(env, db, plan, who, true).changelog, manifest.modules);
  }

  // --- The record against what ran ---

  /** What a module's last run was: its content, and whether it ran to completion. */
  datatype ModuleRun = ModuleRun(content: string, complete: bool)

  function LastRun(trace: seq<Effect>, n: Name): Option<ModuleRun> {
    if trace == [] then None
    else
      var e := trace[|trace| - 1];
      if OfModule(e) && e.schema.name == n then Some(ModuleRun(e.schema.content, e.Defined?))
      else LastRun(trace[..|trace| - 1], n)
  }

  /** The checksum to be on record for a last run: none unless it was complete. */
  function Told(hash: string -> string, run: Option<ModuleRun>): Option<string> {
    if run.Some? && run.value.complete then Some(hash(run.value.content)) else None
  }

  /**
   A checksum on record is that of the content last run, and that run was complete. When `strict`, every
   such run is on record as well.
   */
  ghost predicate InStep<S>(hash: string -> string, db: Db<S>, strict: bool) {
    forall n :: RowRight(hash, db, n, strict)
  }

  predicate RowRight<S>(hash: string -> string, db: Db<S>, n: Name, strict: bool) {
    strict || LatestChecksum(db.changelog, n).Some? ==>
      LatestChecksum(db.changelog, n) == Told(hash, LastRun(db.trace, n))
  }

  /** The modules that run before the first that fails. */
  function RanModules<S>(env: Env<S>, s: S, modules: seq<SchemaModule>): seq<SchemaModule> {
    if modules == [] || !env.run(modules[0].content, s).ok then []
    else [modules[0]] + RanModules(env, env.run(modules[0].content, s).state, modules[1..])
  }

  /** The first module that fails, if any: its partial effect stays. */
  function BrokenModule<S>(env: Env<S>, s: S, modules: seq<SchemaModule>): Option<SchemaModule> {
    if modules == [] then None
    else
      var o := env.run(modules[0].content, s);
      if o.ok then BrokenModule(env, o.state, modules[1..]) else Some(modules[0])
  }

  lemma LastRunAppend(trace: seq<Effect>, e: Effect, n: Name)
    ensures LastRun(trace + [e], n)
         == if OfModule(e) && e.schema.name == n then Some(ModuleRun(e.schema.content, e.Defined?))
            else LastRun(trace, n)
  {
    assert (trace + [e])[..|trace|] == trace;
  }

  lemma {:induction false} ContentUncons(modules: seq<SchemaModule>, n: Name)
    requires modules != []
    ensures ContentIn(modules, n)
         == if ContentIn(modules[1..], n).Some? then ContentIn(modules[1..], n)
            else if modules[0].name == n then Some(modules[0].content) else None
  {
    if |modules| > 1 && modules[|modules| - 1].name != n {
      ContentUncons(modules[..|modules| - 1], n);
      assert modules[1..][..|modules| - 2] == modules[..|modules| - 1][1..];
    } else if |modules| == 1 {
      assert modules[..0] == [];
    }
  }

  /** The last run of a name after modules were run from a database state. */
  function RunAfter<S>(env: Env<S>, s: S, modules: seq<SchemaModule>, n: Name,
                       before: Option<ModuleRun>): Option<ModuleRun> {
    var broken, content := BrokenModule(env, s, modules), ContentIn(RanModules(env, s, modules), n);
    if broken.Some? && broken.value.name == n then Some(ModuleRun(broken.value.content, false))
    else if content.Some? then Some(ModuleRun(content.value, true)) else before
  }

  lemma {:induction false} LastRunAfterModules<S>(env: Env<S>, db: Db<S>, modules: seq<SchemaModule>, n: Name)
    ensures LastRun(DefineModules(env, db, modules).trace, n) == RunAfter(env, db.app, modules, n, LastRun(db.trace, n))
    decreases |modules|
  {
    if modules != [] {
      var m, ok := modules[0], env.run(modules[0].content, db.app).ok;
      LastRunAppend(db.trace, if ok then Defined(m) else Broken(m), n);
      if ok {
        LastRunAfterModules(env, DefineModule(env, db, m), modules[1..], n);
        ContentUncons(RanModules(env, db.app, modules), n);
      }
    }
  }

  lemma {:induction false} LastRunAfterMigrations<S>(env: Env<S>, db: Db<S>, pending: seq<Migration>, who: string,
                                                     n: Name)
    ensures LastRun(ApplyPending(env, db, pending, who).trace, n) == LastRun(db.trace, n)
    decreases |pending|
  {
    if pending != [] && Transact(env, pending[0].content, db.app).ok {
      LastRunAfterMigrations(env, Succeeded(env, db, pending[0], who), pending[1..], who, n);
      LastRunAppend(db.trace, Up(pending[0].version), n);
    }
  }

  lemma LastRunAfterApply<S>(env: Env<S>, db: Db<S>, plan: Plan, who: string, n: Name)
    ensures
      var s := ApplyPending(env, db, plan.pending, who).app;
      LastRun(Apply(env, db, plan, who, true).trace, n) == RunAfter(env, s, plan.modules, n, LastRun(db.trace, n))
  {
    LastRunAfterMigrations(env, db, plan.pending, who, n);
    LastRunAfterModules(env, ApplyPending(env, db, plan.pending, who), plan.modules, n);
  }

  /** The modules that run are those before the one that fails. */
  lemma {:induction false} RanSplits<S>(env: Env<S>, s: S, modules: seq<SchemaModule>)
    ensures AllDefined(env, s, modules) <==> BrokenModule(env, s, modules).None?
    ensures BrokenModule(env, s, modules).None? ==> RanModules(env, s, modules) == modules
    ensures BrokenModule(env, s, modules).Some? ==>
      RanModules(env, s, modules) + [BrokenModule(env, s, modules).value] <= modules
  {
    if modules != [] && env.run(modules[0].content, s).ok {
      RanSplits(env, env.run(modules[0].content, s).state, modules[1..]);
    }
  }

  lemma DistinctPrefix(modules: seq<SchemaModule>, ran: seq<SchemaModule>, broken: SchemaModule)
    requires DistinctModules(modules) && ran + [broken] <= modules
    ensures DistinctModules(ran) && forall m | m in ran :: m.name != broken.name
  {
    assert forall i | 0 <= i < |ran| :: ran[i] == modules[i];
    assert modules[|ran|] == (ran + [broken])[|ran|] == broken;
  }

  /** One name's row and last run after modules that did not all run: the row is still the one before. */
  ghost predicate RowKept<S>(env: Env<S>, db: Db<S>, s: S, modules: seq<SchemaModule>, n: Name, strict: bool) {
    strict || LatestChecksum(db.changelog, n).Some? ==>
      LatestChecksum(db.changelog, n) == Told(env.hash, RunAfter(env, s, modules, n, LastRun(db.trace, n)))
  }

  /**
   What keeps the record right across modules that do not all run: the one that fails has no row, and those
   that ran before it have the row they should, or, unless `strict`, none.
   */
  ghost predicate FailureRecorded(hash: string -> string, log: seq<Entry>, ran: seq<SchemaModule>, broken: SchemaModule,
                                  strict: bool) {
    && LatestChecksum(log, broken.name).None?
    && forall m | m in ran ::
         strict || LatestChecksum(log, m.name).Some? ==> LatestChecksum(log, m.name) == Some(hash(m.content))
  }

  lemma RowsKeptIff<S>(env: Env<S>, db: Db<S>, s: S, modules: seq<SchemaModule>, strict: bool)
    requires InStep(env.hash, db, strict) && DistinctModules(modules) && BrokenModule(env, s, modules).Some?
    ensures (forall n :: RowKept(env, db, s, modules, n, strict))
       <==> FailureRecorded(env.hash, db.changelog, RanModules(env, s, modules),
                            BrokenModule(env, s, modules).value, strict)
  {
    var ran, broken := RanModules(env, s, modules), BrokenModule(env, s, modules).value;
    RanSplits(env, s, modules);
    DistinctPrefix(modules, ran, broken);
    if forall n :: RowKept(env, db, s, modules, n, strict) {
      assert RowKept(env, db, s, modules, broken.name, strict);
      forall m | m in ran && (strict || LatestChecksum(db.changelog, m.name).Some?)
        ensures LatestChecksum(db.changelog, m.name) == Some(env.hash(m.content))
      {
        ContentOf(ran, m);
        assert RowKept(env, db, s, modules, m.name, strict);
      }
    }
    if FailureRecorded(env.hash, db.changelog, ran, broken, strict) {
      forall n ensures RowKept(env, db, s, modules, n, strict) {
        NoContent(ran, n);
        assert RowRight(env.hash, db, n, strict);
      }
    }
  }

  /** The modules of a plan all run, or the failure leaves the record right. */
  ghost predicate StaysRight<S>(env: Env<S>, db: Db<S>, s: S, modules: seq<SchemaModule>, strict: bool) {
    var broken := BrokenModule(env, s, modules);
    broken.Some? ==> FailureRecorded(env.hash, db.changelog, RanModules(env, s, modules), broken.value, strict)
  }

  /**
   The record stays right across an apply iff all its modules ran, or the one that failed has no row and
   those that ran before it were on record as they are: what ran beside a failure is not put on record.
   */
  lemma InStepIff<S>(env: Env<S>, db: Db<S>, plan: Plan, who: string, strict: bool)
    requires InStep(env.hash, db, strict) && DistinctModules(plan.modules)
    ensures
      var s := ApplyPending(env, db, plan.pending, who).app;
      InStep(env.hash, Apply(env, db, plan, who, true), strict) <==> StaysRight(env, db, s, plan.modules, strict)
  {
    var s := ApplyPending(env, db, plan.pending, who).app;
    var after := Apply(env, db, plan, who, true);
    RanSplits(env, s, plan.modules);
    if BrokenModule(env, s, plan.modules).None? {
      forall n ensures RowRight(env.hash, after, n, strict) {
        LatestAfterApply(env, db, plan, who, n);
        LastRunAfterApply(env, db, plan, who, n);
        assert RowRight(env.hash, db, n, strict);
      }
    } else {
      forall n ensures RowRight(env.hash, after, n, strict) <==> RowKept(env, db, s, plan.modules, n, strict) {
        LatestAfterApply(env, db, plan, who, n);
        LastRunAfterApply(env, db, plan, who, n);
      }
      RowsKeptIff(env, db, s, plan.modules, strict);
    }
  }

  // --- Before the call ---

  /** Whatever the server does with scripts, an apply of the plan keeps the record right. */
  ghost predicate StepSafe(server: Env<int>, db: Db<int>, plan: Plan, who: string, strict: bool) {
    forall run: (string, int) -> Outcome<int> ::
      InStep(server.hash, Apply(server.(run := run), db, plan, who, true), strict)
  }

  /** None of the modules has a row, and when `strict` there is at most one. */
  ghost predicate NeverRecorded(log: seq<Entry>, modules: seq<SchemaModule>, strict: bool) {
    && (forall m | m in modules :: LatestChecksum(log, m.name).None?)
    && (strict ==> |modules| <= 1)
  }

  // A server that counts the scripts it runs and fails the one numbered `n`.
  function FailingAt(n: int, server: Env<int>): Env<int> {
    server.(run := (sql: string, s: int) => if s == n then Outcome(s, false) else Outcome(s + 1, true))
  }

  lemma {:induction false} MigrationsCount(n: int, server: Env<int>, db: Db<int>, pending: seq<Migration>, who: string)
    requires db.app + |pending| <= n
    ensures ApplyPending(FailingAt(n, server), db, pending, who).app == db.app + |pending|
    decreases |pending|
  {
    if pending != [] {
      MigrationsCount(n, server, Succeeded(FailingAt(n, server), db, pending[0], who), pending[1..], who);
    }
  }

  lemma {:induction false} ModulesCount(n: int, server: Env<int>, s: int, modules: seq<SchemaModule>)
    requires s <= n < s + |modules|
    ensures RanModules(FailingAt(n, server), s, modules) == modules[..n - s]
    ensures BrokenModule(FailingAt(n, server), s, modules) == Some(modules[n - s])
    decreases |modules|
  {
    if s < n {
      ModulesCount(n, server, s + 1, modules[1..]);
    }
  }

  /** A server that fails at a recorded module, or just behind an unrecorded one that has to be recorded. */
  lemma UnsafeServer(server: Env<int>, db: Db<int>, plan: Plan, who: string, strict: bool, k: nat)
    requires InStep(server.hash, db, strict) && DistinctModules(plan.modules) && k < |plan.modules|
    requires
      || LatestChecksum(db.changelog, plan.modules[k].name).Some?
      || (strict && k > 0 && LatestChecksum(db.changelog, plan.modules[0].name).None?)
    ensures !StepSafe(server, db, plan, who, strict)
  {
    var s := db.app + |plan.pending|;
    var env := FailingAt(s + k, server);
    MigrationsCount(s + k, server, db, plan.pending, who);
    ModulesCount(s + k, server, s, plan.modules);
    if k > 0 { assert plan.modules[0] in plan.modules[..k]; }
    InStepIff(env, db, plan, who, strict);
    assert !InStep(server.hash, Apply(server.(run := env.run), db, plan, who, true), strict);
  }

  /**
   Before the call: an apply is sure to keep the record right iff none of its modules has ever been put on
   record, and, for the strict record, there is at most one of them.
   */
  lemma StepSafeIff(server: Env<int>, db: Db<int>, plan: Plan, who: string, strict: bool)
    requires InStep(server.hash, db, strict) && DistinctModules(plan.modules)
    ensures StepSafe(server, db, plan, who, strict) <==> NeverRecorded(db.changelog, plan.modules, strict)
  {
    if NeverRecorded(db.changelog, plan.modules, strict) {
      forall run: (string, int) -> Outcome<int>
        ensures InStep(server.hash, Apply(server.(run := run), db, plan, who, true), strict)
      {
        NeverRecordedStays(server.(run := run), db, plan, who, strict);
      }
    } else if m :| m in plan.modules && LatestChecksum(db.changelog, m.name).Some? {
      var k :| 0 <= k < |plan.modules| && plan.modules[k] == m;
      UnsafeServer(server, db, plan, who, strict, k);
    } else {
      assert plan.modules[0] in plan.modules;
      UnsafeServer(server, db, plan, who, strict, 1);
    }
  }

  /** The sufficient half, for any data. */
  lemma NeverRecordedStays<S>(env: Env<S>, db: Db<S>, plan: Plan, who: string, strict: bool)
    requires InStep(env.hash, db, strict) && DistinctModules(plan.modules)
    requires NeverRecorded(db.changelog, plan.modules, strict)
    ensures InStep(env.hash, Apply(env, db, plan, who, true), strict)
  {
    var s := ApplyPending(env, db, plan.pending, who).app;
    RanSplits(env, s, plan.modules);
    InStepIff(env, db, plan, who, strict);
    var ran, broken := RanModules(env, s, plan.modules), BrokenModule(env, s, plan.modules);
    if broken.Some? {
      assert plan.modules[|ran|] == (ran + [broken.value])[|ran|] == broken.value;
      assert forall i | 0 <= i < |ran| :: ran[i] == plan.modules[i];
    }
  }

  /** While the record is right and the hash tells contents apart, a skipped module last ran as it is, to completion. */
  lemma SkipIsTruthful<S>(env: Env<S>, db: Db<S>, modules: seq<SchemaModule>, strict: bool)
    requires InStep(env.hash, db, strict)
    requires forall a, b :: env.hash(a) == env.hash(b) ==> a == b
    ensures Unchanged(env.hash, db.changelog, modules) ==>
      forall m | m in modules :: LastRun(db.trace, m.name) == Some(ModuleRun(m.content, true))
    ensures strict && (forall m | m in modules :: LastRun(db.trace, m.name) == Some(ModuleRun(m.content, true))) ==>
      Unchanged(env.hash, db.changelog, modules)
  {
    assert forall m | m in modules :: RowRight(env.hash, db, m.name, strict);
  }

  // --- Whole runs ---

  lemma {:induction false} RollBackKeepsRecord<S>(env: Env<S>, db: Db<S>, ms: seq<Migration>, rows: seq<Applied>,
                                                  who: string, n: Name)
    ensures
      var after := RollBackAll(env, db, ms, rows, who);
      && LatestChecksum(after.changelog, n) == LatestChecksum(db.changelog, n)
      && LastRun(after.trace, n) == LastRun(db.trace, n)
    decreases |rows|
  {
    if rows != [] {
      match DownOf(ms, rows[0].version)
      case None => RollBackKeepsRecord(env, db, ms, rows[1..], who, n);
      case Some(sql) =>
        if Transact(env, sql, db.app).ok {
          var v := rows[0].version;
          RollBackKeepsRecord(env, RolledBack(env, db, ms, rows[0], who), ms, rows[1..], who, n);
          LatestAppend(db.changelog, Entry(RollbackEntry, v, NameOf(ms, v), rows[0].checksum, who), n);
          LastRunAppend(db.trace, Down(v), n);
        }
    }
  }

  ghost predicate ModulesDistinct(c: Command) {
    c.PlanAndApply? ==> DistinctModules(c.manifest.modules)
  }

  /** The modules a command applies all run, or the failure leaves the record right. */
  ghost predicate StepKept<S>(env: Env<S>, db: Db<S>, c: Command, strict: bool) {
    c.PlanAndApply? && c.locked && Plannable(env, db, c.manifest) ==>
      var plan := PlanFor(env, db, c.manifest);
      StaysRight(env, db, ApplyPending(env, db, plan.pending, c.who).app, plan.modules, strict)
  }

  lemma ExecuteStepIff<S>(env: Env<S>, db: Db<S>, c: Command, strict: bool)
    requires InStep(env.hash, db, strict) && ModulesDistinct(c)
    ensures InStep(env.hash, Execute(env, db, c), strict) <==> StepKept(env, db, c, strict)
  {
    match c
    case PlanAndApply(manifest, who, locked) =>
      if locked && Plannable(env, db, manifest) { InStepIff(env, db, PlanFor(env, db, manifest), who, strict); }
    case RollBackTo(manifest, target, who, locked) =>
      forall n ensures RowRight(env.hash, Execute(env, db, c), n, strict) {
        assert RowRight(env.hash, db, n, strict);
        if locked { RollBackKeepsRecord(env, db, manifest.migrations, ToRollBack(db.applied, target), who, n); }
      }
  }

  /** The record is right after every command. */
  ghost predicate AlwaysInStep<S>(env: Env<S>, db: Db<S>, commands: seq<Command>, strict: bool) {
    && InStep(env.hash, Run(env, db, commands), strict)
    && (commands != [] ==> AlwaysInStep(env, db, commands[..|commands| - 1], strict))
  }

  /** Every command keeps the record right where the run has it. */
  ghost predicate AllStepsKept<S>(env: Env<S>, db: Db<S>, commands: seq<Command>, strict: bool) {
    commands != [] ==>
      var front := commands[..|commands| - 1];
      AllStepsKept(env, db, front, strict) && StepKept(env, Run(env, db, front), commands[|commands| - 1], strict)
  }

  /** Over every run the record stays right throughout iff every command of the run keeps it right. */
  lemma {:induction false} AlwaysInStepIff<S>(env: Env<S>, db: Db<S>, commands: seq<Command>, strict: bool)
    requires InStep(env.hash, db, strict) && forall c | c in commands :: ModulesDistinct(c)
    ensures AlwaysInStep(env, db, commands, strict) <==> AllStepsKept(env, db, commands, strict)
  {
    if commands != [] {
      var front, last := commands[..|commands| - 1], commands[|commands| - 1];
      AlwaysInStepIff(env, db, front, strict);
      if InStep(env.hash, Run(env, db, front), strict) {
        ExecuteStepIff(env, Run(env, db, front), last, strict);
      }
    }
  }

  // --- Skips that are wrong ---

  /**
   A failed apply can make a later skip wrong: the first module's new content ran, the second failed, and
   going back to the old content finds nothing to do although the new one is in force.
   */
  lemma SkippedThoughDifferent<S>(env: Env<S>, db: Db<S>, before: SchemaModule, edited: SchemaModule,
                                  broken: SchemaModule, functions: seq<Name>, who: string)
    requires Unchanged(env.hash, db.changelog, [before])
    requires edited.name == before.name && edited.content != before.content && broken.name != edited.name
    requires env.run(edited.content, db.app).ok && !env.run(broken.content, env.run(edited.content, db.app).state).ok
    ensures
      var after := Apply(env, db, Plan([], [edited, broken], functions), who, true);
      && !AllRan(env, db, Plan([], [edited, broken], functions), true, who)
      && PlanFor(env, after, Manifest([], [before])).modules == []
      && LastRun(after.trace, before.name) == Some(ModuleRun(edited.content, true))
  {
    var modules := [edited, broken];
    assert before in [before] && modules[1..] == [broken];
    LatestAfterApply(env, db, Plan([], modules, functions), who, before.name);
    LastRunAfterApply(env, db, Plan([], modules, functions), who, before.name);
    var s := env.run(edited.content, db.app).state;
    assert RanModules(env, s, [broken]) == [] && BrokenModule(env, s, [broken]) == Some(broken);
    assert RanModules(env, db.app, modules) == [edited] && BrokenModule(env, db.app, modules) == Some(broken);
    assert [edited][..0] == [];
    assert !AllDefined(env, s, [broken]);
    SkipsIffUnchanged(env, Apply(env, db, Plan([], modules, functions), who, true).changelog, [before]);
  }

  /**
   So can a single module that fails partway: reverting it finds nothing to do although its partial effect
   stays, which running the old content would have changed.
   */
  lemma SkippedThoughBroken<S>(env: Env<S>, db: Db<S>, before: SchemaModule, edited: SchemaModule,
                               functions: seq<Name>, who: string)
    requires Unchanged(env.hash, db.changelog, [before]) && edited.name == before.name
    requires
      var o := env.run(edited.content, db.app);
      !o.ok && env.run(before.content, o.state).state != o.state
    ensures
      var after := Apply(env, db, Plan([], [edited], functions), who, true);
      && after.app == env.run(edited.content, db.app).state
      && PlanFor(env, after, Manifest([], [before])).modules == []
      && Apply(env, after, Plan([], [before], functions), who, true).app != after.app
      && LastRun(after.trace, before.name) == Some(ModuleRun(edited.content, false))
  {
    assert before in [before] && [edited][1..] == [] == [before][1..];
    LatestAfterApply(env, db, Plan([], [edited], functions), who, before.name);
    LastRunAfterApply(env, db, Plan([], [edited], functions), who, before.name);
    var after := Apply(env, db, Plan([], [edited], functions), who, true);
    assert DefineModules(env, after, [before]).app == env.run(before.content, after.app).state;
    assert BrokenModule(env, db.app, [edited]) == Some(edited) && !AllDefined(env, db.app, [edited]);
    SkipsIffUnchanged(env, Apply(env, db, Plan([], [edited], functions), who, true).changelog, [before]);
  }
}
