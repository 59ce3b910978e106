/** Applies and rollbacks script by script: what each was run against, what it left and what it wrote down. */
module MigrationTraces {
  import opened Ordering
  import opened Migrations
  import opened MigrationRuns
  import opened MigrationEngine

  // --- Migrations ---

  /**
   The data as migrations are applied: each script but the last runs on what the one before left, the first
   that fails ends the list, and what it did is undone.
   */
  ghost predicate AppliesThrough<S>(env: Env<S>, pending: seq<Migration>, states: seq<S>, s: S, end: S) {
    && 1 <= |states| <= |pending| + 1 && states[0] == s && states[|states| - 1] == end
    && (forall i | 0 <= i < |states| - 1 :: env.run(pending[i].content, states[i]) == Outcome(states[i + 1], true))
    && (|states| <= |pending| ==> !env.run(pending[|states| - 1].content, end).ok)
  }

  lemma {:induction false} PendingStates<S>(env: Env<S>, db: Db<S>, pending: seq<Migration>, who: string)
    returns (states: seq<S>)
    ensures AppliesThrough(env, pending, states, db.app, ApplyPending(env, db, pending, who).app)
    ensures Progress(env, db.app, pending) == |states| - 1
    decreases |pending|
  {
    if pending == [] || !env.run(pending[0].content, db.app).ok {
      states := [db.app];
    } else {
      var rest := PendingStates(env, Succeeded(env, db, pending[0], who), pending[1..], who);
      states := [db.app] + rest;
    }
  }

  /** One row per migration that ran, with its version, name and checksum, and one for a failure at `k`. */
  function RunEntries(pending: seq<Migration>, k: nat, n: nat, who: string): seq<Entry>
    requires n <= |pending|
  {
    seq(n, i requires 0 <= i < n =>
      Entry(if i < k then MigrationEntry else MigrationFailedEntry,
            pending[i].version, pending[i].name, pending[i].checksum, who))
  }

  lemma RunEntriesUncons(pending: seq<Migration>, k: nat, n: nat, who: string, log: seq<Entry>)
    requires 0 < k <= |pending| && 0 < n <= |pending|
    ensures
      var m := pending[0];
      log + RunEntries(pending, k, n, who)
        == log + [Entry(MigrationEntry, m.version, m.name, m.checksum, who)]
          + RunEntries(pending[1..], k - 1, n - 1, who)
  {
  }

  lemma {:induction false} PendingLog<S>(env: Env<S>, db: Db<S>, pending: seq<Migration>, who: string)
    ensures
      var k := Progress(env, db.app, pending);
      ApplyPending(env, db, pending, who).changelog
        == db.changelog + RunEntries(pending, k, if k < |pending| then k + 1 else k, who)
    decreases |pending|
  {
    var k := Progress(env, db.app, pending);
    if pending != [] && Transact(env, pending[0].content, db.app).ok {
      hide RunEntries;
      PendingLog(env, Succeeded(env, db, pending[0], who), pending[1..], who);
      RunEntriesUncons(pending, k, if k < |pending| then k + 1 else k, who, db.changelog);
    }
  }

  function RunRows(pending: seq<Migration>, k: nat, who: string): seq<Applied>
    requires k <= |pending|
  {
    seq(k, i requires 0 <= i < k => Applied(pending[i].version, pending[i].checksum, who))
  }

  lemma RunRowsUncons(pending: seq<Migration>, k: nat, who: string, rows: seq<Applied>)
    requires 0 < k <= |pending|
    ensures rows + RunRows(pending, k, who)
         == rows + [Applied(pending[0].version, pending[0].checksum, who)] + RunRows(pending[1..], k - 1, who)
  {
  }

  /** Migrations not yet on record each get a row with their version and checksum. */
  lemma {:induction false} PendingRows<S>(env: Env<S>, db: Db<S>, pending: seq<Migration>, who: string)
    requires DistinctVersions(pending) && forall m | m in pending :: m.version !in VersionsOf(db.applied)
    ensures ApplyPending(env, db, pending, who).applied
         == db.applied + RunRows(pending, Progress(env, db.app, pending), who)
    decreases |pending|
  {
    if pending != [] && Transact(env, pending[0].content, db.app).ok {
      hide RunRows, VersionsOf;
      var m := pending[0];
      VersionsAppend(db.applied, Applied(m.version, m.checksum, who));
      assert forall x | x in pending[1..] :: x in pending && x.version != m.version;
      PendingRows(env, Succeeded(env, db, m, who), pending[1..], who);
      RunRowsUncons(pending, Progress(env, db.app, pending), who, db.applied);
    }
  }

  // --- Modules ---

  /** The data as modules are defined: the first that fails ends the list, and what it did stays. */
  ghost predicate DefinesThrough<S>(env: Env<S>, modules: seq<SchemaModule>, states: seq<S>, s: S, end: S) {
    && 1 <= |states| <= |modules| + 1 && states[0] == s && states[|states| - 1] == end
    && (forall i | 0 <= i < |states| - 1 :: env.run(modules[i].content, states[i]).state == states[i + 1])
    && (forall i | 0 <= i < |states| - 2 :: env.run(modules[i].content, states[i]).ok)
    && (|states| <= |modules| ==> |states| > 1 && !env.run(modules[|states| - 2].content, states[|states| - 2]).ok)
  }

  lemma {:induction false} ModuleStates<S>(env: Env<S>, db: Db<S>, modules: seq<SchemaModule>) returns (states: seq<S>)
    ensures DefinesThrough(env, modules, states, db.app, DefineModules(env, db, modules).app)
    ensures AllDefined(env, db.app, modules) <==>
      |states| == |modules| + 1 && forall i | 0 <= i < |modules| :: env.run(modules[i].content, states[i]).ok
    decreases |modules|
  {
    if modules == [] {
      states := [db.app];
    } else {
      var o := env.run(modules[0].content, db.app);
      if o.ok {
        var rest := ModuleStates(env, DefineModule(env, db, modules[0]), modules[1..]);
        states := [db.app] + rest;
      } else {
        states := [db.app, o.state];
      }
    }
  }

  // --- Rollback ---

  /** One row of a rollback: passed over without a down script, and otherwise its script takes the data on. */
  ghost predicate RowTaken<S>(env: Env<S>, ms: seq<Migration>, row: Applied, before: S, after: S) {
    match DownOf(ms, row.version)
    case None => after == before
    case Some(sql) => env.run(sql, before) == Outcome(after, true)
  }

  /** The data as rows are rolled back: the first script that fails ends the list, and what it did is undone. */
  ghost predicate RollsBackThrough<S>(env: Env<S>, ms: seq<Migration>, rows: seq<Applied>, states: seq<S>, s: S,
                                      end: S) {
    && 1 <= |states| <= |rows| + 1 && states[0] == s && states[|states| - 1] == end
    && (forall i | 0 <= i < |states| - 1 :: RowTaken(env, ms, rows[i], states[i], states[i + 1]))
    && (|states| <= |rows| ==>
          DownOf(ms, rows[|states| - 1].version).Some?
            && !env.run(DownOf(ms, rows[|states| - 1].version).value, end).ok)
  }

  lemma {:induction false} RollBackStates<S>(env: Env<S>, db: Db<S>, ms: seq<Migration>, rows: seq<Applied>,
                                             who: string)
    returns (states: seq<S>)
    ensures RollsBackThrough(env, ms, rows, states, db.app, RollBackAll(env, db, ms, rows, who).app)
    ensures StoppedAt(env, db.app, ms, rows) == if |states| <= |rows| then Some(rows[|states| - 1].version) else None
    decreases |rows|
  {
    if rows == [] {
      states := [db.app];
    } else {
      match DownOf(ms, rows[0].version)
      case None =>
        var rest := RollBackStates(env, db, ms, rows[1..], who);
        states := [db.app] + rest;
      case Some(sql) =>
        if env.run(sql, db.app).ok {
          var rest := RollBackStates(env, RolledBack(env, db, ms, rows[0], who), ms, rows[1..], who);
          states := [db.app] + rest;
        } else {
          states := [db.app];
        }
    }
  }

  /** A rollback complains of exactly the listed versions it reached and did not take back, newest first. */
  lemma ComplaintsExact<S>(env: Env<S>, s: S, ms: seq<Migration>, rows: seq<Applied>)
    requires Descending(rows)
    ensures DescendingVersions(Complaints(env, s, ms, rows))
    ensures
      var stop := StoppedAt(env, s, ms, rows);
      forall v :: v in Complaints(env, s, ms, rows) <==> Complained(ms, rows, stop, v)
  {
    ComplaintsDescend(env, s, ms, rows);
    forall v ensures
      v in Complaints(env, s, ms, rows) <==> Complained(ms, rows, StoppedAt(env, s, ms, rows), v)
    {
      ComplaintIff(env, s, ms, rows, v);
    }
  }

  /** The version that ended the rollback, or one passed over before that for want of a down script. */
  ghost predicate Complained(ms: seq<Migration>, rows: seq<Applied>, stop: Option<Version>, v: Version) {
    v in VersionsOf(rows)
    && (stop == Some(v) || (DownOf(ms, v).None? && (stop.Some? ==> stop.value < v)))
  }

  lemma {:induction false} ComplaintIff<S>(env: Env<S>, s: S, ms: seq<Migration>, rows: seq<Applied>, v: Version)
    requires Descending(rows)
    ensures v in Complaints(env, s, ms, rows) <==> Complained(ms, rows, StoppedAt(env, s, ms, rows), v)
    decreases |rows|
  {
    if rows != [] {
      VersionsPop(rows);
      match DownOf(ms, rows[0].version)
      case None =>
        ComplaintIff(env, s, ms, rows[1..], v);
        if StoppedAt(env, s, ms, rows[1..]).Some? { StopListed(env, s, ms, rows[1..]); }
      case Some(sql) =>
        if Transact(env, sql, s).ok {
          var next := Transact(env, sql, s).state;
          ComplaintIff(env, next, ms, rows[1..], v);
          if StoppedAt(env, next, ms, rows[1..]).Some? { StopListed(env, next, ms, rows[1..]); }
        }
    }
  }

  lemma {:induction false} ComplaintsDescend<S>(env: Env<S>, s: S, ms: seq<Migration>, rows: seq<Applied>)
    requires Descending(rows)
    ensures DescendingVersions(Complaints(env, s, ms, rows))
    decreases |rows|
  {
    if rows != [] {
      VersionsPop(rows);
      match DownOf(ms, rows[0].version)
      case None =>
        ComplaintsDescend(env, s, ms, rows[1..]);
        var rest := Complaints(env, s, ms, rows[1..]);
        forall w | w in rest ensures w < rows[0].version { ComplaintIff(env, s, ms, rows[1..], w); }
        DescendsFrom(rows[0].version, rest);
      case Some(sql) =>
        if Transact(env, sql, s).ok { ComplaintsDescend(env, Transact(env, sql, s).state, ms, rows[1..]); }
    }
  }

  /** The rows that a rollback takes back, in the order it does. */
  function TakenRows<S>(env: Env<S>, s: S, ms: seq<Migration>, rows: seq<Applied>): seq<Applied> {
    if rows == [] then []
    else
      match DownOf(ms, rows[0].version)
      case None => TakenRows(env, s, ms, rows[1..])
      case Some(sql) =>
        if Transact(env, sql, s).ok then [rows[0]] + TakenRows(env, Transact(env, sql, s).state, ms, rows[1..]) else []
  }

  /** One row per version taken back, with its name and the checksum it had. */
  function TakenEntries(taken: seq<Applied>, ms: seq<Migration>, who: string): seq<Entry> {
    seq(|taken|, i requires 0 <= i < |taken| =>
      Entry(RollbackEntry, taken[i].version, NameOf(ms, taken[i].version), taken[i].checksum, who))
  }

  function VersionList(rows: seq<Applied>): seq<Version> {
    seq(|rows|, i requires 0 <= i < |rows| => rows[i].version)
  }

  lemma TakenUncons(row: Applied, taken: seq<Applied>, ms: seq<Migration>, who: string, log: seq<Entry>)
    ensures VersionList([row] + taken) == [row.version] + VersionList(taken)
    ensures log + TakenEntries([row] + taken, ms, who)
         == log + [Entry(RollbackEntry, row.version, NameOf(ms, row.version), row.checksum, who)]
              + TakenEntries(taken, ms, who)
  {
  }

  lemma {:induction false} RollBackLog<S>(env: Env<S>, db: Db<S>, ms: seq<Migration>, rows: seq<Applied>, who: string)
    ensures
      var taken := TakenRows(env, db.app, ms, rows);
      && (forall r | r in taken :: r in rows)
      && TakenBack(env, db.app, ms, rows) == VersionList(taken)
      && RollBackAll(env, db, ms, rows, who).changelog == db.changelog + TakenEntries(taken, ms, who)
    decreases |rows|
  {
    if rows != [] {
      match DownOf(ms, rows[0].version)
      case None => RollBackLog(env, db, ms, rows[1..], who);
      case Some(sql) =>
        if Transact(env, sql, db.app).ok {
          hide TakenEntries, VersionList;
          var next := RolledBack(env, db, ms, rows[0], who);
          RollBackLog(env, next, ms, rows[1..], who);
          TakenUncons(rows[0], TakenRows(env, next.app, ms, rows[1..]), ms, who, db.changelog);
        }
    }
  }
}
