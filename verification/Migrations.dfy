/** Migrations, schema modules and the database tables the engine keeps; what each step does to them. */
module Migrations {
  import opened Ordering
  import opened Texts

  type Version = nat

  datatype Migration = Migration(
    version: Version, name: string, content: string, checksum: string, down: Option<string>)

  datatype SchemaModule = SchemaModule(name: Name, content: string)

  /** A row of `migration_lock`. */
  datatype Applied = Applied(version: Version, checksum: string, instanceId: string)

  datatype EntryKind = MigrationEntry | MigrationFailedEntry | SchemaModuleEntry | RollbackEntry

  /** A row of `changelog`. */
  datatype Entry = Entry(kind: EntryKind, version: Version, name: string, checksum: string, appliedBy: string)

  /** What running a query leaves, and whether it reported no error. */
  datatype Outcome<S> = Outcome(state: S, ok: bool)

  /**
   The database server's effect on the application data, the content hash, the functions the parser finds
   in a source it accepts, and the keys under which the data has functions.
   */
  datatype Env<!S> = Env(
    run: (string, S) -> Outcome<S>, hash: string -> string,
    parse: string -> Option<seq<Name>>, functionKeys: S -> set<Name>)

  /** Something that had an effect on the application database: all but `Broken` ran to completion. */
  datatype Effect =
    | Up(version: Version)
    | Down(version: Version)
    | Defined(schema: SchemaModule)
    | Broken(schema: SchemaModule)

  /** The application data, the two bookkeeping tables in insertion order, and what has run so far. */
  datatype Db<S> = Db(app: S, applied: seq<Applied>, changelog: seq<Entry>, trace: seq<Effect>)

  datatype Manifest = Manifest(migrations: seq<Migration>, modules: seq<SchemaModule>)

  datatype Plan = Plan(pending: seq<Migration>, modules: seq<SchemaModule>, functions: seq<Name>)

  datatype PlanError = BadFunctions | ChecksumMismatch(version: Version) | DuplicateVersion(version: Version)

  // --- Versions ---

  ghost predicate DistinctVersions(ms: seq<Migration>) {
    forall i, j | 0 <= i < j < |ms| :: ms[i].version != ms[j].version
  }

  ghost predicate AscendingVersions(ms: seq<Migration>) {
    forall i, j | 0 <= i < j < |ms| :: ms[i].version < ms[j].version
  }

  ghost predicate UniqueApplied(rows: seq<Applied>) {
    forall i, j | 0 <= i < j < |rows| :: rows[i].version != rows[j].version
  }

  function VersionsOf(rows: seq<Applied>): set<Version> {
    set r | r in rows :: r.version
  }

  /** The first migration of a version, as a search finds it. */
  function Find(ms: seq<Migration>, v: Version): Option<Migration> {
    if ms == [] then None else if ms[0].version == v then Some(ms[0]) else Find(ms[1..], v)
  }

  // --- Bookkeeping writes ---

  /** The unique index on versions lets a second row of a version fail, and nobody looks. */
  function Record(rows: seq<Applied>, r: Applied): seq<Applied> {
    if r.version in VersionsOf(rows) then rows else rows + [r]
  }

  function Delete(rows: seq<Applied>, v: Version): seq<Applied> {
    if rows == [] then []
    else Delete(rows[..|rows| - 1], v) + if rows[|rows| - 1].version == v then [] else [rows[|rows| - 1]]
  }

  // --- Running migrations ---

  /** A transaction either takes effect whole or leaves the data alone. */
  function Transact<S>(env: Env<S>, sql: string, s: S): Outcome<S> {
    var o := env.run(sql, s);
    if o.ok then o else Outcome(s, false)
  }

  function Succeeded<S>(env: Env<S>, db: Db<S>, m: Migration, who: string): Db<S> {
    Db(Transact(env, m.content, db.app).state,
       Record(db.applied, Applied(m.version, m.checksum, who)),
       db.changelog + [Entry(MigrationEntry, m.version, m.name, m.checksum, who)],
       db.trace + [Up(m.version)])
  }

  function Failed<S>(db: Db<S>, m: Migration, who: string): Db<S> {
    db.(changelog := db.changelog + [Entry(MigrationFailedEntry, m.version, m.name, m.checksum, who)])
  }

  /** Run migrations in order up to the first that fails. */
  function ApplyPending<S>(env: Env<S>, db: Db<S>, pending: seq<Migration>, who: string): Db<S>
    decreases |pending|
  {
    if pending == [] then db
    else if Transact(env, pending[0].content, db.app).ok
    then ApplyPending(env, Succeeded(env, db, pending[0], who), pending[1..], who)
    else Failed(db, pending[0], who)
  }

  /** How many run before the first that fails. */
  function Progress<S>(env: Env<S>, s: S, pending: seq<Migration>): (n: nat)
    ensures n <= |pending|
  {
    if pending == [] || !Transact(env, pending[0].content, s).ok then 0
    else 1 + Progress(env, Transact(env, pending[0].content, s).state, pending[1..])
  }

  // --- Schema modules ---

  function DefineModule<S>(env: Env<S>, db: Db<S>, m: SchemaModule): Db<S> {
    var o := env.run(m.content, db.app);
    db.(app := o.state, trace := db.trace + [if o.ok then Defined(m) else Broken(m)])
  }

  /** Modules run outside any transaction and stop at the first error, whose partial effect stays. */
  function DefineModules<S>(env: Env<S>, db: Db<S>, modules: seq<SchemaModule>): Db<S>
    decreases |modules|
  {
    if modules == [] then db
    else if env.run(modules[0].content, db.app).ok
    then DefineModules(env, DefineModule(env, db, modules[0]), modules[1..])
    else DefineModule(env, db, modules[0])
  }

  function AllDefined<S>(env: Env<S>, s: S, modules: seq<SchemaModule>): bool {
    modules != [] ==>
      var o := env.run(modules[0].content, s);
      o.ok && AllDefined(env, o.state, modules[1..])
  }

  function ModuleEntry<S>(env: Env<S>, m: SchemaModule, who: string): Entry {
    Entry(SchemaModuleEntry, 0, m.name, env.hash(m.content), who)
  }

  function ModuleEntries<S>(env: Env<S>, modules: seq<SchemaModule>, who: string): seq<Entry> {
    seq(|modules|, i requires 0 <= i < |modules| => ModuleEntry(env, modules[i], who))
  }

  // --- Apply ---

  /**
   Migrations first, then modules even after a failed migration; the modules are put on record only
   when all of them ran.
   */
  function ApplyInner<S>(env: Env<S>, db: Db<S>, plan: Plan, who: string): Db<S> {
    var migrated := ApplyPending(env, db, plan.pending, who);
    var defined := DefineModules(env, migrated, plan.modules);
    if AllDefined(env, migrated.app, plan.modules)
    then defined.(changelog := defined.changelog + ModuleEntries(env, plan.modules, who))
    else defined
  }

  predicate IsEmptyPlan(plan: Plan) { plan.pending == [] && plan.modules == [] }

  /** An empty plan takes no lock; a plan that cannot get the lock does nothing. */
  function Apply<S>(env: Env<S>, db: Db<S>, plan: Plan, who: string, locked: bool): Db<S> {
    if IsEmptyPlan(plan) || !locked then db else ApplyInner(env, db, plan, who)
  }

  /** The functions looked for are there, with or without their prefix. */
  predicate AllPresent(keys: set<Name>, functions: seq<Name>) {
    forall f | f in functions :: f in keys || "fn::" + f in keys
  }

  /** Functions are checked last, against the data as the modules left it. */
  function ApplyOk<S>(env: Env<S>, db: Db<S>, plan: Plan, locked: bool, who: string): bool {
    && AllRan(env, db, plan, locked, who)
    && (IsEmptyPlan(plan) || AllPresent(env.functionKeys(ApplyInner(env, db, plan, who).app), plan.functions))
  }

  function AllRan<S>(env: Env<S>, db: Db<S>, plan: Plan, locked: bool, who: string): bool {
    IsEmptyPlan(plan)
    || (locked && Progress(env, db.app, plan.pending) == |plan.pending|
        && AllDefined(env, ApplyPending(env, db, plan.pending, who).app, plan.modules))
  }

  // --- Plan ---

  /** A recorded migration whose file no longer has the recorded checksum. */
  predicate Mismatched(a: Applied, ms: seq<Migration>) {
    Find(ms, a.version).Some? && Find(ms, a.version).value.checksum != a.checksum
  }

  function Pending(rows: seq<Applied>, ms: seq<Migration>): seq<Migration> {
    if ms == [] then []
    else Pending(rows, ms[..|ms| - 1]) + if ms[|ms| - 1].version in VersionsOf(rows) then [] else [ms[|ms| - 1]]
  }

  /** The checksum of the latest `schema_module` row of a name. */
  function LatestChecksum(log: seq<Entry>, n: Name): Option<string> {
    if log == [] then None
    else
      var e := log[|log| - 1];
      if e.kind == SchemaModuleEntry && e.name == n then Some(e.checksum) else LatestChecksum(log[..|log| - 1], n)
  }

  /** Every module's latest recorded checksum is its current one. */
  ghost predicate Unchanged(hash: string -> string, log: seq<Entry>, modules: seq<SchemaModule>) {
    forall m | m in modules :: LatestChecksum(log, m.name) == Some(hash(m.content))
  }

  /** All module contents, each followed by a newline. */
  function AllSource(modules: seq<SchemaModule>): string {
    if modules == [] then "" else modules[0].content + "\n" + AllSource(modules[1..])
  }

  /** Function names can be extracted: there is nothing to parse, or it parses. */
  predicate FunctionsFound<S>(env: Env<S>, modules: seq<SchemaModule>) {
    AllBlank(AllSource(modules)) || env.parse(AllSource(modules)).Some?
  }

  function FunctionNames<S>(env: Env<S>, modules: seq<SchemaModule>): seq<Name> {
    var sql := AllSource(modules);
    if AllBlank(sql) || env.parse(sql).None? then [] else env.parse(sql).value
  }

  ghost predicate Plannable<S>(env: Env<S>, db: Db<S>, manifest: Manifest) {
    && FunctionsFound(env, manifest.modules) && DistinctVersions(manifest.migrations)
    && forall a | a in db.applied :: !Mismatched(a, manifest.migrations)
  }

  ghost predicate DistinctModules(modules: seq<SchemaModule>) {
    forall i, j | 0 <= i < j < |modules| :: modules[i].name != modules[j].name
  }

  function RecordedNames(log: seq<Entry>): set<Name> {
    set e | e in log && e.kind == SchemaModuleEntry :: e.name
  }

  /** Planning drops the modules when the records number enough and every one matches. */
  ghost predicate Skips<S>(env: Env<S>, log: seq<Entry>, modules: seq<SchemaModule>) {
    |RecordedNames(log)| >= |modules| && Unchanged(env.hash, log, modules)
  }

  /** What planning finds to do. */
  ghost function PlanFor<S>(env: Env<S>, db: Db<S>, manifest: Manifest): Plan {
    Plan(Pending(db.applied, manifest.migrations),
         if Skips(env, db.changelog, manifest.modules) then [] else manifest.modules,
         FunctionNames(env, manifest.modules))
  }

  // --- Rollback ---

  predicate NewerFirst(a: Applied, b: Applied) { b.version < a.version }

  function Above(rows: seq<Applied>, target: Version): seq<Applied> {
    if rows == [] then []
    else Above(rows[..|rows| - 1], target) + if rows[|rows| - 1].version > target then [rows[|rows| - 1]] else []
  }

  function ToRollBack(rows: seq<Applied>, target: Version): seq<Applied> {
    SortBy(Above(rows, target), NewerFirst)
  }

  function DownOf(ms: seq<Migration>, v: Version): Option<string> {
    if Find(ms, v).Some? then Find(ms, v).value.down else None
  }

  function NameOf(ms: seq<Migration>, v: Version): string {
    if Find(ms, v).Some? then Find(ms, v).value.name else "unknown"
  }

  function RolledBack<S>(env: Env<S>, db: Db<S>, ms: seq<Migration>, a: Applied, who: string): Db<S>
    requires DownOf(ms, a.version).Some?
  {
    Db(Transact(env, DownOf(ms, a.version).value, db.app).state,
       Delete(db.applied, a.version),
       db.changelog + [Entry(RollbackEntry, a.version, NameOf(ms, a.version), a.checksum, who)],
       db.trace + [Down(a.version)])
  }

  /** One with no down script is passed over; one whose down script fails ends the rollback. */
  function RollBackAll<S>(env: Env<S>, db: Db<S>, ms: seq<Migration>, rows: seq<Applied>, who: string): Db<S>
    decreases |rows|
  {
    if rows == [] then db
    else
      match DownOf(ms, rows[0].version)
      case None => RollBackAll(env, db, ms, rows[1..], who)
      case Some(sql) =>
        if Transact(env, sql, db.app).ok
        then RollBackAll(env, RolledBack(env, db, ms, rows[0], who), ms, rows[1..], who)
        else db
  }

  /** The versions a rollback takes back, in the order it does. */
  function TakenBack<S>(env: Env<S>, s: S, ms: seq<Migration>, rows: seq<Applied>): seq<Version> {
    if rows == [] then []
    else
      match DownOf(ms, rows[0].version)
      case None => TakenBack(env, s, ms, rows[1..])
      case Some(sql) =>
        if Transact(env, sql, s).ok then [rows[0].version] + TakenBack(env, Transact(env, sql, s).state, ms, rows[1..])
        else []
  }

  function RollBack<S>(env: Env<S>, db: Db<S>, manifest: Manifest, target: Version, who: string, locked: bool): Db<S> {
    if !locked then db else RollBackAll(env, db, manifest.migrations, ToRollBack(db.applied, target), who)
  }

  // --- Facts about the bookkeeping tables ---

  lemma {:induction false} FindExact(ms: seq<Migration>, v: Version)
    ensures Find(ms, v).Some? ==> Find(ms, v).value in ms && Find(ms, v).value.version == v
    ensures Find(ms, v).None? <==> forall m | m in ms :: m.version != v
  {
    if ms != [] {
      FindExact(ms[1..], v);
      assert ms == [ms[0]] + ms[1..];
    }
  }

  lemma FindListed(ms: seq<Migration>, m: Migration)
    requires DistinctVersions(ms) && m in ms
    ensures Find(ms, m.version) == Some(m)
  {
    FindExact(ms, m.version);
  }

  /** Some row and some file of one version differ in checksum iff a row is mismatched. */
  lemma MismatchMeans(rows: seq<Applied>, ms: seq<Migration>)
    requires DistinctVersions(ms)
    ensures (exists a :: a in rows && Mismatched(a, ms))
       <==> exists a, m :: a in rows && m in ms && a.version == m.version && a.checksum != m.checksum
  {
    if a :| a in rows && Mismatched(a, ms) {
      FindExact(ms, a.version);
      var m := Find(ms, a.version).value;
      assert a in rows && m in ms && a.version == m.version && a.checksum != m.checksum;
    }
    if a, m :| a in rows && m in ms && a.version == m.version && a.checksum != m.checksum {
      FindListed(ms, m);
      assert Mismatched(a, ms);
    }
  }

  lemma DownAndName(ms: seq<Migration>, m: Migration)
    requires DistinctVersions(ms) && m in ms
    ensures DownOf(ms, m.version) == m.down && NameOf(ms, m.version) == m.name
  {
    FindListed(ms, m);
  }

  lemma NoDown(ms: seq<Migration>, v: Version)
    requires forall m | m in ms :: m.version != v
    ensures DownOf(ms, v) == None && NameOf(ms, v) == "unknown"
  {
    FindExact(ms, v);
  }

  lemma {:induction false} SourceJoin(a: seq<SchemaModule>, b: seq<SchemaModule>)
    ensures AllSource(a + b) == AllSource(a) + AllSource(b)
  {
    if a == [] {
      assert a + b == b;
    } else {
      assert (a + b)[1..] == a[1..] + b;
      SourceJoin(a[1..], b);
    }
  }

  lemma SourceOne(m: SchemaModule)
    ensures AllSource([m]) == m.content + "\n" && AllSource([]) == ""
  {
    assert [m][1..] == [];
  }

  lemma {:induction false} DeleteMembers(rows: seq<Applied>, v: Version)
    ensures forall r :: r in Delete(rows, v) <==> r in rows && r.version != v
  {
    if rows != [] {
      var front, last := rows[..|rows| - 1], rows[|rows| - 1];
      DeleteMembers(front, v);
      assert rows == front + [last];
    }
  }

  lemma {:induction false} DeleteUnique(rows: seq<Applied>, v: Version)
    requires UniqueApplied(rows)
    ensures UniqueApplied(Delete(rows, v))
  {
    if rows != [] {
      var front := rows[..|rows| - 1];
      DeleteUnique(front, v);
      DeleteMembers(front, v);
      assert forall r | r in front :: exists i :: 0 <= i < |front| && rows[i] == r;
    }
  }

  lemma {:induction false} DeleteAbsent(rows: seq<Applied>, v: Version)
    requires v !in VersionsOf(rows)
    ensures Delete(rows, v) == rows
  {
    if rows != [] {
      var front, last := rows[..|rows| - 1], rows[|rows| - 1];
      assert rows == front + [last];
      DeleteAbsent(front, v);
    }
  }

  /** Deleting a version takes just that version out and keeps versions unique. */
  lemma DeleteExact(rows: seq<Applied>, v: Version)
    ensures forall r :: r in Delete(rows, v) <==> r in rows && r.version != v
    ensures VersionsOf(Delete(rows, v)) == VersionsOf(rows) - {v}
    ensures UniqueApplied(rows) ==> UniqueApplied(Delete(rows, v))
  {
    DeleteMembers(rows, v);
    if UniqueApplied(rows) { DeleteUnique(rows, v); }
  }

  lemma {:induction false} PendingMembers(rows: seq<Applied>, ms: seq<Migration>)
    ensures forall m :: m in Pending(rows, ms) <==> m in ms && m.version !in VersionsOf(rows)
  {
    if ms != [] {
      var front, last := ms[..|ms| - 1], ms[|ms| - 1];
      PendingMembers(rows, front);
      assert ms == front + [last];
    }
  }

  lemma {:induction false} PendingDistinct(rows: seq<Applied>, ms: seq<Migration>)
    requires DistinctVersions(ms)
    ensures DistinctVersions(Pending(rows, ms))
  {
    if ms != [] {
      var front := ms[..|ms| - 1];
      PendingDistinct(rows, front);
      PendingMembers(rows, front);
      assert forall m | m in front :: m.version != ms[|ms| - 1].version;
    }
  }

  lemma {:induction false} PendingAscends(rows: seq<Applied>, ms: seq<Migration>)
    requires AscendingVersions(ms)
    ensures AscendingVersions(Pending(rows, ms))
  {
    if ms != [] {
      var front := ms[..|ms| - 1];
      PendingAscends(rows, front);
      PendingMembers(rows, front);
      assert forall m | m in front :: m.version < ms[|ms| - 1].version;
    }
  }

  /** Pending are the listed migrations not on record, in the order listed. */
  lemma PendingExact(rows: seq<Applied>, ms: seq<Migration>)
    ensures forall m :: m in Pending(rows, ms) <==> m in ms && m.version !in VersionsOf(rows)
    ensures DistinctVersions(ms) ==> DistinctVersions(Pending(rows, ms))
    ensures AscendingVersions(ms) ==> AscendingVersions(Pending(rows, ms))
  {
    PendingMembers(rows, ms);
    if DistinctVersions(ms) { PendingDistinct(rows, ms); }
    if AscendingVersions(ms) { PendingAscends(rows, ms); }
  }

  lemma {:induction false} AboveExact(rows: seq<Applied>, target: Version)
    ensures forall r :: r in Above(rows, target) <==> r in rows && r.version > target
    ensures UniqueApplied(rows) ==> UniqueApplied(Above(rows, target))
  {
    if rows != [] {
      var front, last := rows[..|rows| - 1], rows[|rows| - 1];
      AboveExact(front, target);
      assert rows == front + [last];
    }
  }

  lemma VersionsAppend(rows: seq<Applied>, r: Applied)
    ensures VersionsOf(rows + [r]) == VersionsOf(rows) + {r.version}
  {
    assert forall x :: x in rows + [r] <==> x in rows || x == r;
  }
}
