/** Planning again after an apply or a rollback, undoing an apply, and skipping unchanged modules. */
module MigrationReplans {
  import opened Ordering
  import opened Migrations
  import opened MigrationRuns

  // --- What is pending next time ---

  lemma {:induction false} PendingAgrees(rows: seq<Applied>, rows': seq<Applied>, ms: seq<Migration>)
    requires forall m | m in ms :: m.version in VersionsOf(rows) <==> m.version in VersionsOf(rows')
    ensures Pending(rows, ms) == Pending(rows', ms)
  {
    if ms != [] {
      var front := ms[..|ms| - 1];
      assert ms[|ms| - 1] in ms && forall m | m in front :: m in ms;
      PendingAgrees(rows, rows', front);
    }
  }

  /** The migrations whose version is outside a set, in order. */
  function Outside(ms: seq<Migration>, vs: set<Version>): seq<Migration> {
    if ms == [] then []
    else Outside(ms[..|ms| - 1], vs) + if ms[|ms| - 1].version in vs then [] else [ms[|ms| - 1]]
  }

  /** Recording more versions thins the pending list. */
  lemma {:induction false} PendingThins(rows: seq<Applied>, rows': seq<Applied>, ms: seq<Migration>, vs: set<Version>)
    requires VersionsOf(rows') == VersionsOf(rows) + vs
    ensures Pending(rows', ms) == Outside(Pending(rows, ms), vs)
  {
    if ms != [] {
      var front, last := ms[..|ms| - 1], ms[|ms| - 1];
      PendingThins(rows, rows', front, vs);
      if last.version !in VersionsOf(rows) {
        var pending := Pending(rows, front);
        assert (pending + [last])[..|pending|] == pending;
      } else {
        assert Pending(rows, ms) == Pending(rows, front);
      }
    }
  }

  lemma {:induction false} OutsidePrefix(ms: seq<Migration>, k: nat, n: nat)
    requires DistinctVersions(ms) && k <= n <= |ms|
    ensures Outside(ms[..n], MigrationVersions(ms[..k])) == ms[k..n]
  {
    if n > k {
      OutsidePrefix(ms, k, n - 1);
      assert ms[..n][..n - 1] == ms[..n - 1];
      assert ms[k..n] == ms[k..n - 1] + [ms[n - 1]];
      forall m | m in ms[..k] ensures m.version != ms[n - 1].version {
        var i :| 0 <= i < k && ms[i] == m;
      }
    } else {
      AllInside(ms[..n], MigrationVersions(ms[..k]));
    }
  }

  lemma {:induction false} AllInside(ms: seq<Migration>, vs: set<Version>)
    requires forall m | m in ms :: m.version in vs
    ensures Outside(ms, vs) == []
  {
    if ms != [] {
      var front := ms[..|ms| - 1];
      assert ms[|ms| - 1] in ms && forall m | m in front :: m in ms;
      AllInside(front, vs);
    }
  }

  lemma {:induction false} PendingChecksums<S>(env: Env<S>, db: Db<S>, pending: seq<Migration>, ms: seq<Migration>,
                                               who: string)
    requires DistinctVersions(ms) && forall m | m in pending :: m in ms
    requires forall a | a in db.applied :: !Mismatched(a, ms)
    ensures forall a | a in ApplyPending(env, db, pending, who).applied :: !Mismatched(a, ms)
    decreases |pending|
  {
    if pending != [] && Transact(env, pending[0].content, db.app).ok {
      FindListed(ms, pending[0]);
      PendingChecksums(env, Succeeded(env, db, pending[0], who), pending[1..], ms, who);
    }
  }

  lemma AppliedByApply<S>(env: Env<S>, db: Db<S>, plan: Plan, who: string)
    ensures Apply(env, db, plan, who, true).applied == ApplyPending(env, db, plan.pending, who).applied
  {
    ModulesOnlyDefine(env, ApplyPending(env, db, plan.pending, who), plan.modules);
  }

  lemma PendingAfter<S>(env: Env<S>, db: Db<S>, ms: seq<Migration>, who: string)
    requires DistinctVersions(ms)
    ensures
      var pending := Pending(db.applied, ms);
      Pending(ApplyPending(env, db, pending, who).applied, ms) == pending[Progress(env, db.app, pending)..]
  {
    hide Pending, Outside, Progress, ApplyPending;
    var pending := Pending(db.applied, ms);
    var k := Progress(env, db.app, pending);
    PendingExact(db.applied, ms);
    PendingTotals(env, db, pending, who);
    PendingThins(db.applied, ApplyPending(env, db, pending, who).applied, ms, MigrationVersions(pending[..k]));
    OutsidePrefix(pending, k, |pending|);
    assert pending[..|pending|] == pending && pending[k..|pending|] == pending[k..];
  }

  /**
   With an unchanged manifest, planning again after an apply succeeds, and finds pending exactly what was
   pending from the first failed migration on.
   */
  lemma ReplanAfterApply<S>(env: Env<S>, db: Db<S>, manifest: Manifest, who: string)
    requires Plannable(env, db, manifest)
    ensures
      var plan := PlanFor(env, db, manifest);
      var after := Apply(env, db, plan, who, true);
      && Plannable(env, after, manifest)
      && Pending(after.applied, manifest.migrations) == plan.pending[Progress(env, db.app, plan.pending)..]
  {
    var plan := PlanFor(env, db, manifest);
    PendingExact(db.applied, manifest.migrations);
    PendingAfter(env, db, manifest.migrations, who);
    PendingChecksums(env, db, plan.pending, manifest.migrations, who);
    AppliedByApply(env, db, plan, who);
  }

  /** After a rollback exactly the versions taken back are pending besides those that were. */
  lemma ReplanAfterRollBack<S>(env: Env<S>, db: Db<S>, manifest: Manifest, target: Version, who: string)
    requires Plannable(env, db, manifest) && UniqueApplied(db.applied)
    ensures
      var taken := TakenBack(env, db.app, manifest.migrations, ToRollBack(db.applied, target));
      var after := RollBack(env, db, manifest, target, who, true);
      && Plannable(env, after, manifest)
      && forall m :: m in Pending(after.applied, manifest.migrations)
           <==> m in Pending(db.applied, manifest.migrations) || (m in manifest.migrations && m.version in taken)
  {
    RollBackExact(env, db, manifest, target, who);
    var after := RollBack(env, db, manifest, target, who, true);
    PendingExact(db.applied, manifest.migrations);
    PendingExact(after.applied, manifest.migrations);
  }

  // --- Undoing an apply ---

  /** The down script takes the data back to where the up script found it. */
  ghost predicate Undoes<S(!new)>(env: Env<S>, m: Migration) {
    && m.down.Some?
    && forall s :: env.run(m.content, s).ok ==> env.run(m.down.value, env.run(m.content, s).state) == Outcome(s, true)
  }

  function RowOf(m: Migration, who: string): Applied { Applied(m.version, m.checksum, who) }

  function RowsOf(ms: seq<Migration>, who: string): seq<Applied> {
    seq(|ms|, i requires 0 <= i < |ms| => RowOf(ms[i], who))
  }

  function Reversed<T>(s: seq<T>): seq<T> {
    if s == [] then [] else [s[|s| - 1]] + Reversed(s[..|s| - 1])
  }

  /** The data after migrations that all succeed. */
  function Migrated<S>(env: Env<S>, s: S, ms: seq<Migration>): S {
    if ms == [] then s else Transact(env, ms[|ms| - 1].content, Migrated(env, s, ms[..|ms| - 1])).state
  }

  lemma {:induction false} AllApplied<S>(env: Env<S>, db: Db<S>, pending: seq<Migration>, who: string)
    requires Progress(env, db.app, pending) == |pending| && DistinctVersions(pending)
    requires forall m | m in pending :: m.version !in VersionsOf(db.applied)
    ensures ApplyPending(env, db, pending, who).app == Migrated(env, db.app, pending)
    ensures ApplyPending(env, db, pending, who).applied == db.applied + RowsOf(pending, who)
    decreases |pending|
  {
    if pending != [] {
      var m, rest := pending[0], pending[1..];
      var next := Succeeded(env, db, m, who);
      VersionsAppend(db.applied, RowOf(m, who));
      AllApplied(env, next, rest, who);
      MigratedUncons(env, db.app, pending);
      assert db.applied + RowsOf(pending, who) == db.applied + [RowOf(m, who)] + RowsOf(rest, who);
    } else {
      assert db.applied + RowsOf(pending, who) == db.applied;
    }
  }

  lemma {:induction false} MigratedUncons<S>(env: Env<S>, s: S, ms: seq<Migration>)
    requires ms != []
    ensures Migrated(env, s, ms) == Migrated(env, Transact(env, ms[0].content, s).state, ms[1..])
  {
    if |ms| == 1 {
      assert ms[..0] == [];
    } else {
      MigratedUncons(env, s, ms[..|ms| - 1]);
      assert ms[1..][..|ms| - 2] == ms[..|ms| - 1][1..];
    }
  }

  lemma {:induction false} ProgressFront<S>(env: Env<S>, s: S, ms: seq<Migration>)
    requires ms != [] && Progress(env, s, ms) == |ms|
    ensures Progress(env, s, ms[..|ms| - 1]) == |ms| - 1
    ensures env.run(ms[|ms| - 1].content, Migrated(env, s, ms[..|ms| - 1])).ok
    decreases |ms|
  {
    var front, last := ms[..|ms| - 1], ms[|ms| - 1];
    if |ms| > 1 {
      var next := Transact(env, ms[0].content, s).state;
      ProgressFront(env, next, ms[1..]);
      assert ms[1..][..|ms| - 2] == front[1..];
      MigratedUncons(env, s, front);
    }
  }

  lemma {:induction false} InsertLast(r: Applied, rows: seq<Applied>)
    requires forall x | x in rows :: x.version > r.version
    ensures Insert(r, rows, NewerFirst) == rows + [r]
  {
    if rows != [] {
      assert rows[0] in rows && forall x | x in rows[1..] :: x in rows;
      InsertLast(r, rows[1..]);
      assert rows == [rows[0]] + rows[1..];
    }
  }

  lemma {:induction false} ReversedMembers<T>(s: seq<T>)
    ensures forall x :: x in Reversed(s) <==> x in s
  {
    if s != [] {
      ReversedMembers(s[..|s| - 1]);
      assert s == s[..|s| - 1] + [s[|s| - 1]];
    }
  }

  lemma {:induction false} ReversedUncons<T>(s: seq<T>)
    requires s != []
    ensures Reversed(s) == Reversed(s[1..]) + [s[0]]
  {
    if |s| > 1 {
      ReversedUncons(s[..|s| - 1]);
      assert s[1..][..|s| - 2] == s[..|s| - 1][1..];
    }
  }

  lemma {:induction false} SortsToReversed(rows: seq<Applied>)
    requires forall i, j | 0 <= i < j < |rows| :: rows[i].version < rows[j].version
    ensures SortBy(rows, NewerFirst) == Reversed(rows)
  {
    if rows != [] {
      var rest := rows[1..];
      SortsToReversed(rest);
      ReversedMembers(rest);
      assert forall x | x in rest :: exists j :: 0 < j < |rows| && rows[j] == x;
      InsertLast(rows[0], Reversed(rest));
      ReversedUncons(rows);
    }
  }

  lemma {:induction false} NoneAbove(rows: seq<Applied>, target: Version)
    requires forall r | r in rows :: r.version <= target
    ensures Above(rows, target) == []
  {
    if rows != [] {
      var front := rows[..|rows| - 1];
      assert rows[|rows| - 1] in rows && forall r | r in front :: r in rows;
      NoneAbove(front, target);
    }
  }

  lemma AboveAppend(rows: seq<Applied>, r: Applied, target: Version)
    ensures Above(rows + [r], target) == Above(rows, target) + if r.version > target then [r] else []
  {
    assert (rows + [r])[..|rows|] == rows;
  }

  lemma {:induction false} AboveSplits(rows: seq<Applied>, more: seq<Applied>, target: Version)
    requires (forall r | r in rows :: r.version <= target) && (forall r | r in more :: r.version > target)
    ensures Above(rows + more, target) == more
  {
    hide Above;
    if more == [] {
      assert rows + more == rows;
      NoneAbove(rows, target);
    } else {
      var front, last := more[..|more| - 1], more[|more| - 1];
      assert last in more && forall r | r in front :: r in more;
      AboveSplits(rows, front, target);
      assert more == front + [last];
      AboveAppend(rows + front, last, target);
      assert rows + more == rows + front + [last];
    }
  }

  lemma DeleteLast(rows: seq<Applied>, r: Applied)
    requires r.version !in VersionsOf(rows)
    ensures Delete(rows + [r], r.version) == rows
  {
    assert (rows + [r])[..|rows|] == rows;
    DeleteAbsent(rows, r.version);
  }

  lemma LastRowFirst(ms: seq<Migration>, who: string)
    requires ms != []
    ensures
      var front, last := ms[..|ms| - 1], ms[|ms| - 1];
      && Reversed(RowsOf(ms, who)) == [RowOf(last, who)] + Reversed(RowsOf(front, who))
      && Reversed(RowsOf(ms, who))[1..] == Reversed(RowsOf(front, who))
  {
    var rows := RowsOf(ms, who);
    assert rows[..|rows| - 1] == RowsOf(ms[..|ms| - 1], who);
  }

  /** Taking back a list of migrations, last first, from a database they were the last to change. */
  lemma {:induction false} RollBackUndoes<S(!new)>(env: Env<S>, db: Db<S>, base: seq<Applied>, s: S, ms: seq<Migration>,
                                                   all: seq<Migration>, who: string, undoer: string)
    requires DistinctVersions(all) && forall m | m in ms :: m in all
    requires DistinctVersions(ms) && Progress(env, s, ms) == |ms|
    requires forall m | m in ms :: Undoes(env, m) && m.version !in VersionsOf(base)
    requires db.app == Migrated(env, s, ms) && db.applied == base + RowsOf(ms, who)
    ensures
      var after := RollBackAll(env, db, all, Reversed(RowsOf(ms, who)), undoer);
      after.app == s && after.applied == base
    decreases |ms|
  {
    if ms != [] {
      var front, last := ms[..|ms| - 1], ms[|ms| - 1];
      hide Migrated, RowsOf, Reversed;
      assert last in ms && forall m | m in front :: m in ms;
      LastRowFirst(ms, who);
      ProgressFront(env, s, ms);
      FindListed(all, last);
      UndoLast(env, db, base, s, ms, all, who, undoer);
      RollBackUndoes(env, RolledBack(env, db, all, RowOf(last, who), undoer), base, s, front, all, who, undoer);
    } else {
      assert RowsOf(ms, who) == [] && base + [] == base;
    }
  }

  lemma UndoLast<S(!new)>(env: Env<S>, db: Db<S>, base: seq<Applied>, s: S, ms: seq<Migration>, all: seq<Migration>,
                          who: string, undoer: string)
    requires ms != [] && DistinctVersions(ms)
    requires Find(all, ms[|ms| - 1].version) == Some(ms[|ms| - 1])
    requires forall m | m in ms :: m.version !in VersionsOf(base)
    requires Undoes(env, ms[|ms| - 1]) && env.run(ms[|ms| - 1].content, Migrated(env, s, ms[..|ms| - 1])).ok
    requires db.app == Migrated(env, s, ms) && db.applied == base + RowsOf(ms, who)
    ensures
      var front, last := ms[..|ms| - 1], ms[|ms| - 1];
      && DownOf(all, last.version).Some? && Transact(env, DownOf(all, last.version).value, db.app).ok
      && RolledBack(env, db, all, RowOf(last, who), undoer).app == Migrated(env, s, front)
      && RolledBack(env, db, all, RowOf(last, who), undoer).applied == base + RowsOf(front, who)
  {
    var front, last := ms[..|ms| - 1], ms[|ms| - 1];
    assert base + RowsOf(ms, who) == (base + RowsOf(front, who)) + [RowOf(last, who)];
    forall r | r in base + RowsOf(front, who) ensures r.version != last.version {
      if r in base {
        assert last in ms;
      } else {
        var i :| 0 <= i < |front| && RowsOf(front, who)[i] == r;
        assert r.version == ms[i].version;
      }
    }
    DeleteLast(base + RowsOf(front, who), RowOf(last, who));
  }

  /**
   Apply, then roll back: if every migration of a module-free plan succeeds and has a down script that
   undoes it, and the target separates what was applied before from what was pending, the data and the
   applied rows are back as they were.
   */
  lemma ApplyThenRollBack<S(!new)>(env: Env<S>, db: Db<S>, manifest: Manifest, target: Version, who: string,
                                   undoer: string)
    requires Plannable(env, db, manifest) && AscendingVersions(manifest.migrations)
    requires PlanFor(env, db, manifest).modules == []
    requires AllRan(env, db, PlanFor(env, db, manifest), true, who)
    requires forall m | m in Pending(db.applied, manifest.migrations) :: Undoes(env, m) && target < m.version
    requires forall r | r in db.applied :: r.version <= target
    ensures
      var after := RollBack(env, Apply(env, db, PlanFor(env, db, manifest), who, true), manifest, target, undoer, true);
      after.app == db.app && after.applied == db.applied
  {
    var pending := Pending(db.applied, manifest.migrations);
    PendingExact(db.applied, manifest.migrations);
    if pending != [] {
      AllApplied(env, db, pending, who);
      ListedForRollBack(db.applied, pending, target, who);
      ApplyWithoutModules(env, db, PlanFor(env, db, manifest), who);
      var applied := Apply(env, db, PlanFor(env, db, manifest), who, true);
      RollBackUndoes(env, applied, db.applied, db.app, pending, manifest.migrations, who, undoer);
    } else {
      NoneAbove(db.applied, target);
    }
  }

  /** The rows a rollback takes up after an apply are those the apply added, last first. */
  lemma ListedForRollBack(rows: seq<Applied>, pending: seq<Migration>, target: Version, who: string)
    requires AscendingVersions(pending)
    requires (forall r | r in rows :: r.version <= target) && (forall m | m in pending :: target < m.version)
    ensures ToRollBack(rows + RowsOf(pending, who), target) == Reversed(RowsOf(pending, who))
  {
    var added := RowsOf(pending, who);
    forall r | r in added ensures r.version > target {
      var i :| 0 <= i < |added| && added[i] == r;
      assert pending[i] in pending;
    }
    AboveSplits(rows, added, target);
    SortsToReversed(added);
  }

  lemma ApplyWithoutModules<S>(env: Env<S>, db: Db<S>, plan: Plan, who: string)
    requires plan.modules == [] && plan.pending != []
    ensures
      var after, migrated := Apply(env, db, plan, who, true), ApplyPending(env, db, plan.pending, who);
      after.app == migrated.app && after.applied == migrated.applied
  {
  }
}
