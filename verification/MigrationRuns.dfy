/** What planning, applying and rolling back keep, undo and leave, over single calls and whole runs. */
module MigrationRuns {
  import opened Ordering
  import opened Migrations

  // --- Exactly-once accounting ---

  function Ups(trace: seq<Effect>, v: Version): nat {
    multiset(trace)[Up(v)]
  }

  function Downs(trace: seq<Effect>, v: Version): nat {
    multiset(trace)[Down(v)]
  }

  /** Versions are recorded once, and a version is recorded iff its up ran once more than its down. */
  ghost predicate Accounted<S>(db: Db<S>) {
    && UniqueApplied(db.applied)
    && forall v :: Ups(db.trace, v) - Downs(db.trace, v) == if v in VersionsOf(db.applied) then 1 else 0
  }

  function UpTrail(ms: seq<Migration>): seq<Effect> {
    seq(|ms|, i requires 0 <= i < |ms| => Up(ms[i].version))
  }

  function DownTrail(vs: seq<Version>): seq<Effect> {
    seq(|vs|, i requires 0 <= i < |vs| => Down(vs[i]))
  }

  function MigrationVersions(ms: seq<Migration>): set<Version> {
    set m | m in ms :: m.version
  }

  lemma RecordExact(rows: seq<Applied>, r: Applied)
    ensures VersionsOf(Record(rows, r)) == VersionsOf(rows) + {r.version}
    ensures UniqueApplied(rows) ==> UniqueApplied(Record(rows, r))
  {
    VersionsAppend(rows, r);
    if r.version !in VersionsOf(rows) {
      assert forall x | x in rows :: x.version != r.version;
    }
  }

  lemma NoUps()
    ensures UpTrail([]) == [] && MigrationVersions([]) == {}
  {
  }

  lemma FirstUp(m: Migration, rest: seq<Migration>)
    ensures UpTrail([m] + rest) == [Up(m.version)] + UpTrail(rest)
    ensures MigrationVersions([m] + rest) == {m.version} + MigrationVersions(rest)
  {
    assert forall x :: x in [m] + rest <==> x == m || x in rest;
  }

  /** What applying migrations adds: the ups that ran, in order, and their versions. */
  lemma {:induction false} PendingTotals<S>(env: Env<S>, db: Db<S>, pending: seq<Migration>, who: string)
    ensures
      var ran := pending[..Progress(env, db.app, pending)];
      var after := ApplyPending(env, db, pending, who);
      && after.trace == db.trace + UpTrail(ran)
      && VersionsOf(after.applied) == VersionsOf(db.applied) + MigrationVersions(ran)
      && (UniqueApplied(db.applied) ==> UniqueApplied(after.applied))
    decreases |pending|
  {
    hide UpTrail, MigrationVersions, VersionsOf, Record;
    var ran := pending[..Progress(env, db.app, pending)];
    NoUps();
    if pending != [] && Transact(env, pending[0].content, db.app).ok {
      var m, next := pending[0], Succeeded(env, db, pending[0], who);
      PendingTotals(env, next, pending[1..], who);
      RecordExact(db.applied, Applied(m.version, m.checksum, who));
      var rest := pending[1..][..Progress(env, next.app, pending[1..])];
      assert ran == [m] + rest;
      FirstUp(m, rest);
      assert db.trace + UpTrail(ran) == db.trace + [Up(m.version)] + UpTrail(rest);
    } else {
      assert ran == [];
    }
  }

  lemma {:induction false} UpTrailCounts(ms: seq<Migration>, v: Version)
    requires DistinctVersions(ms)
    ensures multiset(UpTrail(ms))[Up(v)] == if v in MigrationVersions(ms) then 1 else 0
    ensures multiset(UpTrail(ms))[Down(v)] == 0
  {
    if ms != [] {
      hide UpTrail;
      var rest := ms[1..];
      UpTrailCounts(rest, v);
      assert ms == [ms[0]] + rest;
      FirstUp(ms[0], rest);
      assert ms[0].version !in MigrationVersions(rest);
    }
  }

  /** One version's balance after migrations ran: an up counts again, but a recorded version is not recorded again. */
  lemma BalanceAfter<S>(env: Env<S>, db: Db<S>, pending: seq<Migration>, who: string, v: Version)
    requires Accounted(db) && DistinctVersions(pending)
    ensures
      var ran := MigrationVersions(pending[..Progress(env, db.app, pending)]);
      var after := ApplyPending(env, db, pending, who);
      Ups(after.trace, v) - Downs(after.trace, v)
        == (if v in VersionsOf(after.applied) then 1 else 0)
          + (if v in ran && v in VersionsOf(db.applied) then 1 else 0)
  {
    PendingTotals(env, db, pending, who);
    var ran := pending[..Progress(env, db.app, pending)];
    UpTrailCounts(ran, v);
    assert Ups(db.trace, v) - Downs(db.trace, v) == if v in VersionsOf(db.applied) then 1 else 0;
  }

  lemma PendingAccountedIff<S>(env: Env<S>, db: Db<S>, pending: seq<Migration>, who: string)
    requires Accounted(db) && DistinctVersions(pending)
    ensures Accounted(ApplyPending(env, db, pending, who))
       <==> MigrationVersions(pending[..Progress(env, db.app, pending)]) !! VersionsOf(db.applied)
  {
    PendingTotals(env, db, pending, who);
    var ran := MigrationVersions(pending[..Progress(env, db.app, pending)]);
    var after := ApplyPending(env, db, pending, who);
    forall v ensures Ups(after.trace, v) - Downs(after.trace, v)
        == (if v in VersionsOf(after.applied) then 1 else 0)
          + (if v in ran && v in VersionsOf(db.applied) then 1 else 0)
    {
      BalanceAfter(env, db, pending, who, v);
    }
    if v :| v in ran && v in VersionsOf(db.applied) {
      assert Ups(after.trace, v) - Downs(after.trace, v) == 2;
    }
  }

  lemma {:induction false} ModulesOnlyDefine<S>(env: Env<S>, db: Db<S>, modules: seq<SchemaModule>)
    ensures
      var after := DefineModules(env, db, modules);
      && after.applied == db.applied && after.changelog == db.changelog
      && forall v :: Ups(after.trace, v) == Ups(db.trace, v) && Downs(after.trace, v) == Downs(db.trace, v)
    decreases |modules|
  {
    if modules != [] && env.run(modules[0].content, db.app).ok {
      ModulesOnlyDefine(env, DefineModule(env, db, modules[0]), modules[1..]);
    }
  }

  lemma ModulesKeepAccount<S>(env: Env<S>, migrated: Db<S>, plan: Plan, who: string)
    ensures
      var defined := DefineModules(env, migrated, plan.modules);
      var recorded := defined.(changelog := defined.changelog + ModuleEntries(env, plan.modules, who));
      Accounted(migrated) <==> Accounted(recorded)
    ensures Accounted(migrated) <==> Accounted(DefineModules(env, migrated, plan.modules))
  {
    ModulesOnlyDefine(env, migrated, plan.modules);
    var after := DefineModules(env, migrated, plan.modules);
    assert forall v :: Ups(after.trace, v) - Downs(after.trace, v) == Ups(migrated.trace, v) - Downs(migrated.trace, v);
  }

  /**
   Applying a plan, however old, keeps the account iff none of the migrations it ran was already on
   record: the plan is read before the lock is taken and not read again.
   */
  lemma AccountKeptIff<S>(env: Env<S>, db: Db<S>, plan: Plan, who: string)
    requires Accounted(db) && DistinctVersions(plan.pending)
    ensures Accounted(Apply(env, db, plan, who, true))
       <==> MigrationVersions(plan.pending[..Progress(env, db.app, plan.pending)]) !! VersionsOf(db.applied)
  {
    PendingAccountedIff(env, db, plan.pending, who);
    ModulesKeepAccount(env, ApplyPending(env, db, plan.pending, who), plan, who);
  }

  /** Whatever the scripts do, applying the plan keeps the account. */
  ghost predicate PlanSafe<S(!new)>(db: Db<S>, plan: Plan, who: string, locked: bool) {
    forall env: Env<S> :: Accounted(Apply(env, db, plan, who, locked))
  }

  // A server on which every script succeeds without effect.
  function Compliant<S>(): Env<S> {
    Env((sql: string, s: S) => Outcome(s, true), (content: string) => content, (sql: string) => Some([]), (s: S) => {})
  }

  lemma {:induction false} CompliantRunsAll<S>(s: S, pending: seq<Migration>)
    ensures Progress(Compliant(), s, pending) == |pending|
  {
    if pending != [] { CompliantRunsAll(s, pending[1..]); }
  }

  /**
   Before the call: a plan is sure to keep the account iff the lock is not to be had or none of its
   migrations has been recorded since it was read.
   */
  lemma PlanSafeIff<S(!new)>(db: Db<S>, plan: Plan, who: string, locked: bool)
    requires Accounted(db) && DistinctVersions(plan.pending)
    ensures PlanSafe(db, plan, who, locked) <==> !locked || MigrationVersions(plan.pending) !! VersionsOf(db.applied)
  {
    if locked {
      if MigrationVersions(plan.pending) !! VersionsOf(db.applied) {
        forall env: Env<S> ensures Accounted(Apply(env, db, plan, who, locked)) {
          AccountKeptIff(env, db, plan, who);
        }
      } else {
        AccountKeptIff(Compliant(), db, plan, who);
        CompliantRunsAll(db.app, plan.pending);
        assert plan.pending[..|plan.pending|] == plan.pending;
        assert !Accounted(Apply(Compliant(), db, plan, who, locked));
      }
    }
  }

  lemma FirstRuns<S>(env: Env<S>, db: Db<S>, plan: Plan, who: string)
    requires plan.pending != [] && DistinctVersions(plan.pending) && Transact(env, plan.pending[0].content, db.app).ok
    ensures
      var v, after := plan.pending[0].version, Apply(env, db, plan, who, true);
      && Ups(after.trace, v) == Ups(db.trace, v) + 1
      && v in VersionsOf(after.applied) && (UniqueApplied(db.applied) ==> UniqueApplied(after.applied))
  {
    hide ApplyPending, DefineModules, UpTrail;
    var pending := plan.pending;
    var ran := pending[..Progress(env, db.app, pending)];
    PendingTotals(env, db, pending, who);
    assert pending[0] in ran && pending[0].version in MigrationVersions(ran);
    UpTrailCounts(ran, pending[0].version);
    ModulesOnlyDefine(env, ApplyPending(env, db, pending, who), plan.modules);
  }

  lemma FreshPlanAccounted<S>(env: Env<S>, db: Db<S>, manifest: Manifest, who: string, locked: bool)
    requires Accounted(db) && Plannable(env, db, manifest)
    ensures Accounted(Apply(env, db, PlanFor(env, db, manifest), who, locked))
  {
    PendingExact(db.applied, manifest.migrations);
    AccountKeptIff(env, db, PlanFor(env, db, manifest), who);
  }

  /** Two instances plan, then apply one after the other: the first pending up runs twice for one row. */
  lemma StalePlanRunsTwice<S>(env: Env<S>, db: Db<S>, manifest: Manifest, first: string, second: string)
    requires Accounted(db) && Plannable(env, db, manifest)
    requires
      var plan := PlanFor(env, db, manifest);
      && plan.pending != [] && Transact(env, plan.pending[0].content, db.app).ok
      && Transact(env, plan.pending[0].content, Apply(env, db, plan, first, true).app).ok
    ensures
      var plan := PlanFor(env, db, manifest);
      var v := plan.pending[0].version;
      var after := Apply(env, Apply(env, db, plan, first, true), plan, second, true);
      && Ups(after.trace, v) == Ups(db.trace, v) + 2
      && v in VersionsOf(after.applied) && UniqueApplied(after.applied) && !Accounted(after)
  {
    var plan := PlanFor(env, db, manifest);
    var once := Apply(env, db, plan, first, true);
    var pending := plan.pending;
    FreshPlanAccounted(env, db, manifest, first, true);
    PendingExact(db.applied, manifest.migrations);
    FirstRuns(env, db, plan, first);
    FirstRuns(env, once, plan, second);
    AccountKeptIff(env, once, plan, second);
    assert pending[0] in pending[..Progress(env, once.app, pending)];
    assert pending[0].version in MigrationVersions(pending[..Progress(env, once.app, pending)]);
  }

  // --- What a rollback takes back ---

  lemma FirstDown(trace: seq<Effect>, v: Version, rest: seq<Version>)
    ensures trace + DownTrail([v] + rest) == trace + [Down(v)] + DownTrail(rest)
  {
  }

  lemma {:induction false} RollBackTrace<S>(env: Env<S>, db: Db<S>, ms: seq<Migration>, rows: seq<Applied>, who: string)
    ensures RollBackAll(env, db, ms, rows, who).trace == db.trace + DownTrail(TakenBack(env, db.app, ms, rows))
    decreases |rows|
  {
    if rows != [] {
      match DownOf(ms, rows[0].version)
      case None =>
        RollBackTrace(env, db, ms, rows[1..], who);
      case Some(sql) =>
        if Transact(env, sql, db.app).ok {
          var next := RolledBack(env, db, ms, rows[0], who);
          RollBackTrace(env, next, ms, rows[1..], who);
          FirstDown(db.trace, rows[0].version, TakenBack(env, next.app, ms, rows[1..]));
        }
    }
  }

  lemma {:induction false} RollBackRows<S>(env: Env<S>, db: Db<S>, ms: seq<Migration>, rows: seq<Applied>, who: string)
    ensures
      var after := RollBackAll(env, db, ms, rows, who);
      && (forall r :: r in after.applied <==> r in db.applied && r.version !in TakenBack(env, db.app, ms, rows))
      && (UniqueApplied(db.applied) ==> UniqueApplied(after.applied))
    decreases |rows|
  {
    if rows != [] {
      match DownOf(ms, rows[0].version)
      case None =>
        RollBackRows(env, db, ms, rows[1..], who);
      case Some(sql) =>
        if Transact(env, sql, db.app).ok {
          RollBackRows(env, RolledBack(env, db, ms, rows[0], who), ms, rows[1..], who);
          DeleteExact(db.applied, rows[0].version);
        }
    }
  }

  /** The version whose down script ended the rollback, if one did. */
  function StoppedAt<S>(env: Env<S>, s: S, ms: seq<Migration>, rows: seq<Applied>): Option<Version> {
    if rows == [] then None
    else
      match DownOf(ms, rows[0].version)
      case None => StoppedAt(env, s, ms, rows[1..])
      case Some(sql) =>
        if Transact(env, sql, s).ok then StoppedAt(env, Transact(env, sql, s).state, ms, rows[1..])
        else Some(rows[0].version)
  }

  ghost predicate Descending(rows: seq<Applied>) {
    forall i, j | 0 <= i < j < |rows| :: rows[j].version < rows[i].version
  }

  ghost predicate DescendingVersions(vs: seq<Version>) {
    forall i, j | 0 <= i < j < |vs| :: vs[j] < vs[i]
  }

  /** Whether a rollback that stopped at `stop`, if at all, takes a listed version back. */
  ghost predicate Taken(ms: seq<Migration>, rows: seq<Applied>, stop: Option<Version>, v: Version) {
    v in VersionsOf(rows) && DownOf(ms, v).Some? && (stop.Some? ==> stop.value < v)
  }

  lemma VersionsPop(rows: seq<Applied>)
    requires Descending(rows) && rows != []
    ensures VersionsOf(rows) == {rows[0].version} + VersionsOf(rows[1..])
    ensures Descending(rows[1..]) && forall v | v in VersionsOf(rows[1..]) :: v < rows[0].version
  {
    assert rows == [rows[0]] + rows[1..];
  }

  lemma {:induction false} StopListed<S>(env: Env<S>, s: S, ms: seq<Migration>, rows: seq<Applied>)
    requires Descending(rows) && StoppedAt(env, s, ms, rows).Some?
    ensures StoppedAt(env, s, ms, rows).value in VersionsOf(rows)
    decreases |rows|
  {
    VersionsPop(rows);
    match DownOf(ms, rows[0].version)
    case None => StopListed(env, s, ms, rows[1..]);
    case Some(sql) =>
      if Transact(env, sql, s).ok { StopListed(env, Transact(env, sql, s).state, ms, rows[1..]); }
  }

  lemma {:induction false} TakenBackIff<S>(env: Env<S>, s: S, ms: seq<Migration>, rows: seq<Applied>, v: Version)
    requires Descending(rows)
    ensures v in TakenBack(env, s, ms, rows) <==> Taken(ms, rows, StoppedAt(env, s, ms, rows), v)
    decreases |rows|
  {
    if rows != [] {
      VersionsPop(rows);
      match DownOf(ms, rows[0].version)
      case None => TakenBackIff(env, s, ms, rows[1..], v);
      case Some(sql) =>
        if Transact(env, sql, s).ok {
          var next := Transact(env, sql, s).state;
          TakenBackIff(env, next, ms, rows[1..], v);
          if StoppedAt(env, next, ms, rows[1..]).Some? { StopListed(env, next, ms, rows[1..]); }
        }
    }
  }

  lemma DescendsFrom(v: Version, rest: seq<Version>)
    requires DescendingVersions(rest) && forall w | w in rest :: w < v
    ensures DescendingVersions([v] + rest)
  {
    var all := [v] + rest;
    forall i, j | 0 <= i < j < |all| ensures all[j] < all[i] {
      assert all[j] == rest[j - 1] && all[j] in rest;
      if i > 0 { assert all[i] == rest[i - 1]; }
    }
  }

  lemma {:induction false} TakenBackDescends<S>(env: Env<S>, s: S, ms: seq<Migration>, rows: seq<Applied>)
    requires Descending(rows)
    ensures DescendingVersions(TakenBack(env, s, ms, rows))
    decreases |rows|
  {
    if rows != [] {
      VersionsPop(rows);
      match DownOf(ms, rows[0].version)
      case None => TakenBackDescends(env, s, ms, rows[1..]);
      case Some(sql) =>
        if Transact(env, sql, s).ok {
          var next := Transact(env, sql, s).state;
          TakenBackDescends(env, next, ms, rows[1..]);
          var rest := TakenBack(env, next, ms, rows[1..]);
          forall v | v in rest ensures v < rows[0].version {
            TakenBackIff(env, next, ms, rows[1..], v);
          }
          DescendsFrom(rows[0].version, rest);
        }
    }
  }

  /** Taken back, newest first: exactly the listed versions that have a down script and lie above the stop. */
  lemma TakenBackExact<S>(env: Env<S>, s: S, ms: seq<Migration>, rows: seq<Applied>)
    requires Descending(rows)
    ensures DescendingVersions(TakenBack(env, s, ms, rows))
    ensures forall v :: v in TakenBack(env, s, ms, rows) <==> Taken(ms, rows, StoppedAt(env, s, ms, rows), v)
  {
    TakenBackDescends(env, s, ms, rows);
    forall v ensures v in TakenBack(env, s, ms, rows) <==> Taken(ms, rows, StoppedAt(env, s, ms, rows), v) {
      TakenBackIff(env, s, ms, rows, v);
    }
  }

  lemma RollBackListExact(rows: seq<Applied>, target: Version)
    requires UniqueApplied(rows)
    ensures Descending(ToRollBack(rows, target))
    ensures forall r :: r in ToRollBack(rows, target) <==> r in rows && r.version > target
  {
    var above, list := Above(rows, target), ToRollBack(rows, target);
    AboveExact(rows, target);
    assert WeakOrder(NewerFirst);
    SortByCorrect(above, NewerFirst);
    assert Distinct(above);
    PermutedDistinct(above, list);
    forall i, j | 0 <= i < j < |list| ensures list[j].version < list[i].version {
      assert list[i] in above && list[j] in above && list[i] != list[j];
    }
  }

  /**
   Rollback goes strictly downward, leaves rows at or below the target alone, and above it takes back
   exactly the versions that have a down script and lie above the first down script that fails.
   */
  lemma RollBackExact<S>(env: Env<S>, db: Db<S>, manifest: Manifest, target: Version, who: string)
    requires UniqueApplied(db.applied)
    ensures
      var list := ToRollBack(db.applied, target);
      var taken := TakenBack(env, db.app, manifest.migrations, list);
      var stop := StoppedAt(env, db.app, manifest.migrations, list);
      var after := RollBack(env, db, manifest, target, who, true);
      && DescendingVersions(taken)
      && (forall v :: v in taken <==>
            && v in VersionsOf(db.applied) && target < v
            && DownOf(manifest.migrations, v).Some? && (stop.Some? ==> stop.value < v))
      && (forall r :: r in after.applied <==> r in db.applied && r.version !in taken)
      && after.trace == db.trace + DownTrail(taken)
  {
    RollBackListExact(db.applied, target);
    TakenBackExact(env, db.app, manifest.migrations, ToRollBack(db.applied, target));
    RollBackTrace(env, db, manifest.migrations, ToRollBack(db.applied, target), who);
    RollBackRows(env, db, manifest.migrations, ToRollBack(db.applied, target), who);
  }

  lemma {:induction false} DownTrailCounts(vs: seq<Version>, v: Version)
    requires DescendingVersions(vs)
    ensures multiset(DownTrail(vs))[Down(v)] == if v in vs then 1 else 0
    ensures multiset(DownTrail(vs))[Up(v)] == 0
  {
    if vs != [] {
      var rest := vs[1..];
      DownTrailCounts(rest, v);
      assert vs == [vs[0]] + rest && vs[0] !in rest;
      assert DownTrail(vs) == [Down(vs[0])] + DownTrail(rest);
    }
  }

  lemma RollBackBalance<S>(env: Env<S>, db: Db<S>, ms: seq<Migration>, rows: seq<Applied>, who: string, v: Version)
    requires Accounted(db) && Descending(rows)
    ensures
      var after, taken := RollBackAll(env, db, ms, rows, who), TakenBack(env, db.app, ms, rows);
      Ups(after.trace, v) - Downs(after.trace, v)
        == (if v in VersionsOf(after.applied) then 1 else 0)
          - (if v in taken && v !in VersionsOf(db.applied) then 1 else 0)
  {
    var taken := TakenBack(env, db.app, ms, rows);
    RollBackTrace(env, db, ms, rows, who);
    RollBackRows(env, db, ms, rows, who);
    TakenBackDescends(env, db.app, ms, rows);
    DownTrailCounts(taken, v);
    assert Ups(db.trace, v) - Downs(db.trace, v) == if v in VersionsOf(db.applied) then 1 else 0;
    VersionsTaken(db.applied, RollBackAll(env, db, ms, rows, who).applied, taken, v);
  }

  lemma VersionsTaken(rows: seq<Applied>, left: seq<Applied>, taken: seq<Version>, v: Version)
    requires forall r :: r in left <==> r in rows && r.version !in taken
    ensures v in VersionsOf(left) <==> v in VersionsOf(rows) && v !in taken
  {
  }

  /**
   Rolling back rows, however long ago they were read, keeps the account iff every version taken back was
   still on record: the rows too are read before the lock is taken.
   */
  lemma RollBackKeptIff<S>(env: Env<S>, db: Db<S>, ms: seq<Migration>, rows: seq<Applied>, who: string)
    requires Accounted(db) && Descending(rows)
    ensures Accounted(RollBackAll(env, db, ms, rows, who))
       <==> forall v | v in TakenBack(env, db.app, ms, rows) :: v in VersionsOf(db.applied)
  {
    var after, taken := RollBackAll(env, db, ms, rows, who), TakenBack(env, db.app, ms, rows);
    RollBackRows(env, db, ms, rows, who);
    forall v ensures Ups(after.trace, v) - Downs(after.trace, v)
        == (if v in VersionsOf(after.applied) then 1 else 0)
          - (if v in taken && v !in VersionsOf(db.applied) then 1 else 0)
    {
      RollBackBalance(env, db, ms, rows, who, v);
    }
    if v :| v in taken && v !in VersionsOf(db.applied) {
      assert Ups(after.trace, v) - Downs(after.trace, v) < 0;
    }
  }

  /** Whatever the scripts do, rolling back the rows keeps the account. */
  ghost predicate RollBackSafe<S(!new)>(db: Db<S>, ms: seq<Migration>, rows: seq<Applied>, who: string) {
    forall env: Env<S> :: Accounted(RollBackAll(env, db, ms, rows, who))
  }

  lemma {:induction false} CompliantNeverStops<S>(s: S, ms: seq<Migration>, rows: seq<Applied>)
    ensures StoppedAt(Compliant(), s, ms, rows).None?
  {
    if rows != [] { CompliantNeverStops(s, ms, rows[1..]); }
  }

  /** Before the call: rows are sure to be rolled back right iff all that have a down script are still on record. */
  lemma RollBackSafeIff<S(!new)>(db: Db<S>, ms: seq<Migration>, rows: seq<Applied>, who: string)
    requires Accounted(db) && Descending(rows)
    ensures RollBackSafe(db, ms, rows, who)
       <==> forall v | v in VersionsOf(rows) && DownOf(ms, v).Some? :: v in VersionsOf(db.applied)
  {
    if forall v | v in VersionsOf(rows) && DownOf(ms, v).Some? :: v in VersionsOf(db.applied) {
      forall env: Env<S> ensures Accounted(RollBackAll(env, db, ms, rows, who)) {
        TakenBackExact(env, db.app, ms, rows);
        RollBackKeptIff(env, db, ms, rows, who);
      }
    } else {
      CompliantNeverStops(db.app, ms, rows);
      TakenBackExact(Compliant(), db.app, ms, rows);
      RollBackKeptIff(Compliant(), db, ms, rows, who);
      assert !Accounted(RollBackAll(Compliant(), db, ms, rows, who));
    }
  }

  lemma FirstTaken<S>(env: Env<S>, db: Db<S>, ms: seq<Migration>, rows: seq<Applied>, who: string)
    requires rows != [] && Descending(rows) && DownOf(ms, rows[0].version).Some?
    requires Transact(env, DownOf(ms, rows[0].version).value, db.app).ok
    ensures rows[0].version in TakenBack(env, db.app, ms, rows)
    ensures
      var v, after := rows[0].version, RollBackAll(env, db, ms, rows, who);
      Downs(after.trace, v) == Downs(db.trace, v) + 1 && v !in VersionsOf(after.applied)
  {
    var taken := TakenBack(env, db.app, ms, rows);
    RollBackTrace(env, db, ms, rows, who);
    RollBackRows(env, db, ms, rows, who);
    TakenBackDescends(env, db.app, ms, rows);
    DownTrailCounts(taken, rows[0].version);
  }

  /** Two rollbacks read their rows, then run one after the other: the first down runs twice for one row. */
  lemma StaleRollBackRunsTwice<S>(env: Env<S>, db: Db<S>, ms: seq<Migration>, target: Version, first: string,
                                  second: string)
    requires Accounted(db) && ToRollBack(db.applied, target) != []
    requires
      var rows := ToRollBack(db.applied, target);
      var down := DownOf(ms, rows[0].version);
      && down.Some? && Transact(env, down.value, db.app).ok
      && Transact(env, down.value, RollBackAll(env, db, ms, rows, first).app).ok
    ensures
      var rows := ToRollBack(db.applied, target);
      var v := rows[0].version;
      var after := RollBackAll(env, RollBackAll(env, db, ms, rows, first), ms, rows, second);
      Downs(after.trace, v) == Downs(db.trace, v) + 2 && !Accounted(after)
  {
    var rows := ToRollBack(db.applied, target);
    var once := RollBackAll(env, db, ms, rows, first);
    RollBackListExact(db.applied, target);
    FirstTaken(env, db, ms, rows, first);
    FirstTaken(env, once, ms, rows, second);
    RollBackKeptIff(env, db, ms, rows, first);
    TakenBackExact(env, db.app, ms, rows);
    RollBackKeptIff(env, once, ms, rows, second);
  }

  lemma RollBackAccounted<S>(env: Env<S>, db: Db<S>, manifest: Manifest, target: Version, who: string, locked: bool)
    requires Accounted(db)
    ensures Accounted(RollBack(env, db, manifest, target, who, locked))
  {
    if locked {
      RollBackExact(env, db, manifest, target, who);
      RollBackListExact(db.applied, target);
      RollBackKeptIff(env, db, manifest.migrations, ToRollBack(db.applied, target), who);
    }
  }

  // --- Whole runs ---

  /** A plan applied at once, or a rollback: nothing else runs between a plan and its apply. */
  datatype Command =
    | PlanAndApply(manifest: Manifest, who: string, locked: bool)
    | RollBackTo(manifest: Manifest, target: Version, who: string, locked: bool)

  ghost function Execute<S>(env: Env<S>, db: Db<S>, c: Command): Db<S> {
    match c
    case PlanAndApply(manifest, who, locked) =>
      if Plannable(env, db, manifest) then Apply(env, db, PlanFor(env, db, manifest), who, locked) else db
    case RollBackTo(manifest, target, who, locked) => RollBack(env, db, manifest, target, who, locked)
  }

  ghost function Run<S>(env: Env<S>, db: Db<S>, commands: seq<Command>): Db<S> {
    if commands == [] then db
    else Execute(env, Run(env, db, commands[..|commands| - 1]), commands[|commands| - 1])
  }

  /** Over every run, with any manifests, failures and lost locks, each version is accounted for exactly once. */
  lemma {:induction false} AlwaysAccounted<S>(env: Env<S>, db: Db<S>, commands: seq<Command>)
    requires Accounted(db)
    ensures Accounted(Run(env, db, commands))
  {
    if commands != [] {
      var before := Run(env, db, commands[..|commands| - 1]);
      AlwaysAccounted(env, db, commands[..|commands| - 1]);
      match commands[|commands| - 1]
      case PlanAndApply(manifest, who, locked) =>
        if Plannable(env, before, manifest) { FreshPlanAccounted(env, before, manifest, who, locked); }
      case RollBackTo(manifest, target, who, locked) =>
        RollBackAccounted(env, before, manifest, target, who, locked);
    }
  }

  lemma NewDatabaseAccounted<S>(app: S)
    ensures Accounted(Db(app, [], [], []))
  {
  }

  // --- Applies and rollbacks interleaved script by script ---

  /** One script of some apply or rollback under way, whoever runs it and however old its plan. */
  datatype Script =
    | UpScript(migration: Migration, who: string)
    | DownScript(row: Applied, known: seq<Migration>, who: string)

  function RunScript<S>(env: Env<S>, db: Db<S>, script: Script): Db<S> {
    match script
    case UpScript(m, who) =>
      if Transact(env, m.content, db.app).ok then Succeeded(env, db, m, who) else Failed(db, m, who)
    case DownScript(row, ms, who) =>
      var down := DownOf(ms, row.version);
      if down.Some? && Transact(env, down.value, db.app).ok then RolledBack(env, db, ms, row, who) else db
  }

  function RunScripts<S>(env: Env<S>, db: Db<S>, scripts: seq<Script>): Db<S> {
    if scripts == [] then db
    else RunScript(env, RunScripts(env, db, scripts[..|scripts| - 1]), scripts[|scripts| - 1])
  }

  /** An up succeeds although its version is on record, or a down although it is not. */
  predicate Misfires<S>(env: Env<S>, db: Db<S>, script: Script) {
    match script
    case UpScript(m, _) => Transact(env, m.content, db.app).ok && m.version in VersionsOf(db.applied)
    case DownScript(row, ms, _) =>
      var down := DownOf(ms, row.version);
      down.Some? && Transact(env, down.value, db.app).ok && row.version !in VersionsOf(db.applied)
  }

  lemma BalanceAfterUp<S>(env: Env<S>, db: Db<S>, m: Migration, who: string, v: Version)
    ensures
      var after := Succeeded(env, db, m, who);
      && Ups(after.trace, v) == Ups(db.trace, v) + (if v == m.version then 1 else 0)
      && Downs(after.trace, v) == Downs(db.trace, v)
      && (v in VersionsOf(after.applied) <==> v in VersionsOf(db.applied) || v == m.version)
  {
    RecordExact(db.applied, Applied(m.version, m.checksum, who));
  }

  lemma BalanceAfterDown<S>(env: Env<S>, db: Db<S>, ms: seq<Migration>, row: Applied, who: string, v: Version)
    requires DownOf(ms, row.version).Some?
    ensures
      var after := RolledBack(env, db, ms, row, who);
      && Ups(after.trace, v) == Ups(db.trace, v)
      && Downs(after.trace, v) == Downs(db.trace, v) + (if v == row.version then 1 else 0)
      && (v in VersionsOf(after.applied) <==> v in VersionsOf(db.applied) && v != row.version)
  {
    DeleteExact(db.applied, row.version);
  }

  /** The account of one version. */
  predicate Balanced<S>(db: Db<S>, v: Version) {
    Ups(db.trace, v) - Downs(db.trace, v) == if v in VersionsOf(db.applied) then 1 else 0
  }

  lemma AccountedMeans<S>(db: Db<S>)
    ensures Accounted(db) <==> UniqueApplied(db.applied) && forall v :: Balanced(db, v)
  {
    if Accounted(db) {
      forall v ensures Balanced(db, v) {
        assert Ups(db.trace, v) - Downs(db.trace, v) == if v in VersionsOf(db.applied) then 1 else 0;
      }
    }
    if UniqueApplied(db.applied) && forall v :: Balanced(db, v) {
      forall v ensures Ups(db.trace, v) - Downs(db.trace, v) == if v in VersionsOf(db.applied) then 1 else 0 {
        assert Balanced(db, v);
      }
    }
  }

  lemma UpAccountedIff<S>(env: Env<S>, db: Db<S>, m: Migration, who: string)
    requires Accounted(db)
    ensures Accounted(Succeeded(env, db, m, who)) <==> m.version !in VersionsOf(db.applied)
  {
    hide Accounted, Succeeded, Ups, Downs;
    var after := Succeeded(env, db, m, who);
    AccountedMeans(db);
    AccountedMeans(after);
    UpKeepsUnique(env, db, m, who);
    forall v ensures Balanced(after, v) <==> !(v == m.version && v in VersionsOf(db.applied)) {
      assert Balanced(db, v);
      BalanceAfterUp(env, db, m, who, v);
    }
    assert Balanced(after, m.version) <==> m.version !in VersionsOf(db.applied);
  }

  lemma UpKeepsUnique<S>(env: Env<S>, db: Db<S>, m: Migration, who: string)
    requires UniqueApplied(db.applied)
    ensures UniqueApplied(Succeeded(env, db, m, who).applied)
  {
    RecordExact(db.applied, Applied(m.version, m.checksum, who));
  }

  lemma DownAccountedIff<S>(env: Env<S>, db: Db<S>, ms: seq<Migration>, row: Applied, who: string)
    requires Accounted(db) && DownOf(ms, row.version).Some?
    ensures Accounted(RolledBack(env, db, ms, row, who)) <==> row.version in VersionsOf(db.applied)
  {
    hide Accounted, RolledBack, Ups, Downs;
    var after := RolledBack(env, db, ms, row, who);
    AccountedMeans(db);
    AccountedMeans(after);
    DownKeepsUnique(env, db, ms, row, who);
    forall v ensures Balanced(after, v) <==> !(v == row.version && v !in VersionsOf(db.applied)) {
      assert Balanced(db, v);
      BalanceAfterDown(env, db, ms, row, who, v);
    }
    assert Balanced(after, row.version) <==> row.version in VersionsOf(db.applied);
  }

  lemma DownKeepsUnique<S>(env: Env<S>, db: Db<S>, ms: seq<Migration>, row: Applied, who: string)
    requires UniqueApplied(db.applied) && DownOf(ms, row.version).Some?
    ensures UniqueApplied(RolledBack(env, db, ms, row, who).applied)
  {
    DeleteExact(db.applied, row.version);
  }

  lemma ScriptAccountedIff<S>(env: Env<S>, db: Db<S>, script: Script)
    requires Accounted(db)
    ensures Accounted(RunScript(env, db, script)) <==> !Misfires(env, db, script)
  {
    hide Accounted, Succeeded, RolledBack;
    match script
    case UpScript(m, who) =>
      UpAccountedIff(env, db, m, who);
      FailedKeepsAccount(db, m, who);
    case DownScript(row, ms, who) =>
      if DownOf(ms, row.version).Some? { DownAccountedIff(env, db, ms, row, who); }
  }

  lemma FailedKeepsAccount<S>(db: Db<S>, m: Migration, who: string)
    requires Accounted(db)
    ensures Accounted(Failed(db, m, who))
  {
  }

  /** The account is right after every script. */
  ghost predicate AccountedThroughout<S>(env: Env<S>, db: Db<S>, scripts: seq<Script>) {
    && Accounted(RunScripts(env, db, scripts))
    && (scripts != [] ==> AccountedThroughout(env, db, scripts[..|scripts| - 1]))
  }

  ghost predicate NothingMisfires<S>(env: Env<S>, db: Db<S>, scripts: seq<Script>) {
    scripts != [] ==>
      var front := scripts[..|scripts| - 1];
      NothingMisfires(env, db, front) && !Misfires(env, RunScripts(env, db, front), scripts[|scripts| - 1])
  }

  /**
   Over every interleaving of applies and rollbacks, whatever their plans and leases, the account is right
   throughout iff no up runs while its version is on record and no down while it is not.
   */
  lemma {:induction false} InterleavedAccountedIff<S>(env: Env<S>, db: Db<S>, scripts: seq<Script>)
    requires Accounted(db)
    ensures AccountedThroughout(env, db, scripts) <==> NothingMisfires(env, db, scripts)
  {
    if scripts != [] {
      hide Accounted, Misfires, RunScript;
      var front, last := scripts[..|scripts| - 1], scripts[|scripts| - 1];
      InterleavedAccountedIff(env, db, front);
      if Accounted(RunScripts(env, db, front)) {
        ScriptAccountedIff(env, RunScripts(env, db, front), last);
      }
    }
  }

  function UpScripts(pending: seq<Migration>, who: string): seq<Script> {
    seq(|pending|, i requires 0 <= i < |pending| => UpScript(pending[i], who))
  }

  lemma {:induction false} ScriptsUncons<S>(env: Env<S>, db: Db<S>, script: Script, rest: seq<Script>)
    ensures RunScripts(env, db, [script] + rest) == RunScripts(env, RunScript(env, db, script), rest)
    decreases |rest|
  {
    if rest == [] {
      assert [script] + rest == [script] && [script][..0] == [];
    } else {
      var front := rest[..|rest| - 1];
      ScriptsUncons(env, db, script, front);
      assert ([script] + rest)[..|rest|] == [script] + front;
    }
  }

  lemma FirstScript(pending: seq<Migration>, run: nat, who: string)
    requires run < |pending|
    ensures UpScripts(pending[..run + 1], who) == [UpScript(pending[0], who)] + UpScripts(pending[1..][..run], who)
    ensures run == 0 ==> UpScripts(pending[..run + 1], who) == [UpScript(pending[0], who)]
  {
  }

  lemma NoUpScripts(who: string)
    ensures UpScripts([], who) == []
  {
  }

  lemma NoScripts<S>(env: Env<S>, db: Db<S>)
    ensures RunScripts(env, db, []) == db
  {
  }

  lemma AppAfter<S>(env: Env<S>, db: Db<S>, m: Migration, who: string)
    ensures Succeeded(env, db, m, who).app == Transact(env, m.content, db.app).state
  {
  }

  /** An apply is the scripts of its migrations up to and including the first that fails. */
  lemma {:induction false} ApplyIsScripts<S>(env: Env<S>, db: Db<S>, pending: seq<Migration>, who: string)
    ensures
      var k := Progress(env, db.app, pending);
      var run := if k < |pending| then k + 1 else k;
      ApplyPending(env, db, pending, who) == RunScripts(env, db, UpScripts(pending[..run], who))
    decreases |pending|
  {
    hide RunScripts, UpScripts, Succeeded, Failed;
    if pending == [] {
      NoUpScripts(who);
      NoScripts(env, db);
    } else {
      var m := pending[0];
      if Transact(env, m.content, db.app).ok {
        AppAfter(env, db, m, who);
        var next := Succeeded(env, db, m, who);
        var k := Progress(env, next.app, pending[1..]);
        var run := if k < |pending| - 1 then k + 1 else k;
        ApplyIsScripts(env, next, pending[1..], who);
        FirstScript(pending, run, who);
        ScriptsUncons(env, db, UpScript(m, who), UpScripts(pending[1..][..run], who));
      } else {
        FirstScript(pending, 0, who);
        ScriptsUncons(env, db, UpScript(m, who), []);
        assert [UpScript(m, who)] + [] == [UpScript(m, who)];
        NoScripts(env, Failed(db, m, who));
      }
    }
  }

  function DownScripts(rows: seq<Applied>, ms: seq<Migration>, who: string): seq<Script> {
    seq(|rows|, i requires 0 <= i < |rows| => DownScript(rows[i], ms, who))
  }

  /** A rollback that no failing script ends is the scripts of its rows. */
  lemma {:induction false} RollBackIsScripts<S>(env: Env<S>, db: Db<S>, ms: seq<Migration>, rows: seq<Applied>,
                                                who: string)
    requires StoppedAt(env, db.app, ms, rows).None?
    ensures RollBackAll(env, db, ms, rows, who) == RunScripts(env, db, DownScripts(rows, ms, who))
    decreases |rows|
  {
    if rows != [] {
      var script := DownScript(rows[0], ms, who);
      RollBackIsScripts(env, RunScript(env, db, script), ms, rows[1..], who);
      assert DownScripts(rows, ms, who) == [script] + DownScripts(rows[1..], ms, who);
      ScriptsUncons(env, db, script, DownScripts(rows[1..], ms, who));
    }
  }

  // --- The changelog as an audit trail ---

  predicate OfModule(e: Effect) { e.Defined? || e.Broken? }

  function Trail(trace: seq<Effect>): seq<Effect> {
    if trace == [] then []
    else Trail(trace[..|trace| - 1]) + if OfModule(trace[|trace| - 1]) then [] else [trace[|trace| - 1]]
  }

  function LogTrail(log: seq<Entry>): seq<Effect> {
    if log == [] then []
    else
      var e := log[|log| - 1];
      LogTrail(log[..|log| - 1])
        + if e.kind == MigrationEntry then [Up(e.version)]
          else if e.kind == RollbackEntry then [Down(e.version)] else []
  }

  /** The changelog's migration and rollback rows are the ups and downs that ran, in the order they ran. */
  ghost predicate Audited<S>(db: Db<S>) {
    LogTrail(db.changelog) == Trail(db.trace)
  }

  lemma TrailAppend(trace: seq<Effect>, e: Effect)
    ensures Trail(trace + [e]) == if OfModule(e) then Trail(trace) else Trail(trace) + [e]
  {
    assert (trace + [e])[..|trace|] == trace;
  }

  lemma LogTrailAppend(log: seq<Entry>, e: Entry)
    ensures LogTrail(log + [e]) == LogTrail(log)
      + if e.kind == MigrationEntry then [Up(e.version)]
        else if e.kind == RollbackEntry then [Down(e.version)] else []
  {
    assert (log + [e])[..|log|] == log;
  }

  lemma {:induction false} PendingAudited<S>(env: Env<S>, db: Db<S>, pending: seq<Migration>, who: string)
    requires Audited(db)
    ensures Audited(ApplyPending(env, db, pending, who))
    decreases |pending|
  {
    if pending != [] {
      var m := pending[0];
      if Transact(env, m.content, db.app).ok {
        TrailAppend(db.trace, Up(m.version));
        LogTrailAppend(db.changelog, Entry(MigrationEntry, m.version, m.name, m.checksum, who));
        PendingAudited(env, Succeeded(env, db, m, who), pending[1..], who);
      } else {
        LogTrailAppend(db.changelog, Entry(MigrationFailedEntry, m.version, m.name, m.checksum, who));
      }
    }
  }

  lemma {:induction false} ModulesAudited<S>(env: Env<S>, db: Db<S>, modules: seq<SchemaModule>)
    requires Audited(db)
    ensures Audited(DefineModules(env, db, modules))
    decreases |modules|
  {
    if modules != [] {
      var ok := env.run(modules[0].content, db.app).ok;
      TrailAppend(db.trace, if ok then Defined(modules[0]) else Broken(modules[0]));
      if ok {
        ModulesAudited(env, DefineModule(env, db, modules[0]), modules[1..]);
      }
    }
  }

  lemma LogTrailSkips(log: seq<Entry>, e: Entry)
    requires e.kind == SchemaModuleEntry
    ensures LogTrail(log + [e]) == LogTrail(log)
  {
    LogTrailAppend(log, e);
    assert LogTrail(log) + [] == LogTrail(log);
  }

  lemma {:induction false} ModuleEntriesLeaveTrail(log: seq<Entry>, entries: seq<Entry>)
    requires forall e | e in entries :: e.kind == SchemaModuleEntry
    ensures LogTrail(log + entries) == LogTrail(log)
  {
    hide LogTrail;
    if entries == [] {
      assert log + entries == log;
    } else {
      var front, last := entries[..|entries| - 1], entries[|entries| - 1];
      assert last in entries && forall e | e in front :: e in entries;
      ModuleEntriesLeaveTrail(log, front);
      LogTrailSkips(log + front, last);
      assert log + entries == log + front + [last];
    }
  }

  lemma {:induction false} RollBackAudited<S>(env: Env<S>, db: Db<S>, ms: seq<Migration>, rows: seq<Applied>,
                                              who: string)
    requires Audited(db)
    ensures Audited(RollBackAll(env, db, ms, rows, who))
    decreases |rows|
  {
    if rows != [] {
      match DownOf(ms, rows[0].version)
      case None => RollBackAudited(env, db, ms, rows[1..], who);
      case Some(sql) =>
        if Transact(env, sql, db.app).ok {
          TrailAppend(db.trace, Down(rows[0].version));
          var entry := Entry(RollbackEntry, rows[0].version, NameOf(ms, rows[0].version), rows[0].checksum, who);
          LogTrailAppend(db.changelog, entry);
          RollBackAudited(env, RolledBack(env, db, ms, rows[0], who), ms, rows[1..], who);
        }
    }
  }

  /** Applying a plan, stale or fresh, keeps the changelog faithful. */
  lemma ApplyAudited<S>(env: Env<S>, db: Db<S>, plan: Plan, who: string, locked: bool)
    requires Audited(db)
    ensures Audited(Apply(env, db, plan, who, locked))
  {
    var migrated := ApplyPending(env, db, plan.pending, who);
    PendingAudited(env, db, plan.pending, who);
    ModulesAudited(env, migrated, plan.modules);
    var entries := ModuleEntries(env, plan.modules, who);
    ModuleEntriesLeaveTrail(DefineModules(env, migrated, plan.modules).changelog, entries);
  }

  /** Over every run the changelog is a faithful audit trail. */
  lemma {:induction false} AlwaysAudited<S>(env: Env<S>, db: Db<S>, commands: seq<Command>)
    requires Audited(db)
    ensures Audited(Run(env, db, commands))
  {
    if commands != [] {
      var before := Run(env, db, commands[..|commands| - 1]);
      AlwaysAudited(env, db, commands[..|commands| - 1]);
      match commands[|commands| - 1]
      case PlanAndApply(manifest, who, locked) =>
        if Plannable(env, before, manifest) { ApplyAudited(env, before, PlanFor(env, before, manifest), who, locked); }
      case RollBackTo(manifest, target, who, locked) =>
        RollBackAudited(env, before, manifest.migrations, ToRollBack(before.applied, target), who);
    }
  }
}
