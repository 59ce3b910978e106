/** Building a manifest: migrations checked and sorted, modules ordered by dependency. */
module Manifests {
  import opened Ordering
  import opened Migrations
  import opened ModuleGraphs
  import opened ModuleSort

  datatype Meta = Meta(ns: string, db: string, systemDb: string)

  datatype SequenceError = DuplicateMigration(version: Version) | NotFromOne

  datatype ManifestError = MetaRequired | BadSequence(cause: SequenceError) | BadModules(reason: SortError)

  /** A module as the builder collects it: name, dependencies and content parts. */
  datatype ModuleParts = ModuleParts(name: Name, dependsOn: seq<Name>, parts: seq<string>)

  predicate VersionLess(a: Migration, b: Migration) { a.version < b.version }

  /** Content parts are joined by newlines. */
  function Joined(parts: seq<string>): string {
    if parts == [] then ""
    else if |parts| == 1 then parts[0]
    else Joined(parts[..|parts| - 1]) + "\n" + parts[|parts| - 1]
  }

  /** Between any two parts stands one newline, and nothing else is added. */
  lemma {:induction false} JoinedParts(a: seq<string>, b: seq<string>)
    ensures Joined([]) == "" && forall p :: Joined([p]) == p
    ensures a != [] && b != [] ==> Joined(a + b) == Joined(a) + "\n" + Joined(b)
    decreases |b|
  {
    if a != [] && |b| > 1 {
      var front := b[..|b| - 1];
      JoinedParts(a, front);
      assert (a + b)[..|a + b| - 1] == a + front;
    } else if a != [] && |b| == 1 {
      assert (a + b)[..|a|] == a;
    }
  }

  /** Versions may leave gaps but not repeat, and the first must be 1. */
  method ValidateSequence(ms: seq<Migration>) returns (error: Option<SequenceError>)
    ensures error.None? <==> DistinctVersions(ms) && (ms == [] || ms[0].version == 1)
    ensures error.Some? && error.value.DuplicateMigration? <==> !DistinctVersions(ms)
  {
    var seen: set<Version> := {};
    for i := 0 to |ms|
      invariant forall v :: v in seen <==> exists j :: 0 <= j < i && ms[j].version == v
      invariant forall j, k | 0 <= j < k < i :: ms[j].version != ms[k].version
    {
      if ms[i].version in seen {
        return Some(DuplicateMigration(ms[i].version));
      }
      seen := seen + {ms[i].version};
    }
    if ms != [] && ms[0].version != 1 {
      return Some(NotFromOne);
    }
    return None;
  }

  /** Every version at least 1, and 1 among them, unless there are none. */
  ghost predicate FromOne(ms: seq<Migration>) {
    ms == [] || ((exists m :: m in ms && m.version == 1) && forall m | m in ms :: m.version >= 1)
  }

  lemma SortedMigrations(ms: seq<Migration>)
    ensures
      var sorted := SortBy(ms, VersionLess);
      && multiset(sorted) == multiset(ms)
      && (DistinctVersions(sorted) <==> DistinctVersions(ms))
      && (DistinctVersions(ms) ==> AscendingVersions(sorted))
      && ((sorted == [] || sorted[0].version == 1) <==> FromOne(ms))
  {
    var sorted := SortBy(ms, VersionLess);
    assert WeakOrder(VersionLess);
    SortByCorrect(ms, VersionLess);
    if DistinctVersions(ms) { SameVersionsDistinct(ms, sorted); }
    if DistinctVersions(sorted) { SameVersionsDistinct(sorted, ms); }
    if sorted != [] {
      assert sorted[0] in ms;
      forall m | m in ms ensures sorted[0].version <= m.version {
        var i :| 0 <= i < |sorted| && sorted[i] == m;
      }
    }
  }

  lemma SameVersionsDistinct(ms: seq<Migration>, ns: seq<Migration>)
    requires DistinctVersions(ms) && multiset(ms) == multiset(ns)
    ensures DistinctVersions(ns)
  {
    SameElements(ms, ns);
    assert Distinct(ms);
    PermutedDistinct(ms, ns);
    forall i, j | 0 <= i < j < |ns| ensures ns[i].version != ns[j].version {
      assert ns[i] in ms && ns[j] in ms && ns[i] != ns[j];
    }
  }

  function Configs(modules: seq<ModuleParts>): seq<ModuleConfig> {
    seq(|modules|, i requires 0 <= i < |modules| => ModuleConfig(modules[i].name, "", modules[i].dependsOn))
  }

  /** The parts filed under a name, a later module of the name replacing an earlier. */
  function PartsOf(modules: seq<ModuleParts>, n: Name): Option<seq<string>> {
    if modules == [] then None
    else if modules[|modules| - 1].name == n then Some(modules[|modules| - 1].parts)
    else PartsOf(modules[..|modules| - 1], n)
  }

  lemma {:induction false} PartsListed(modules: seq<ModuleParts>, n: Name)
    ensures PartsOf(modules, n).Some? <==> n in NameSet(Configs(modules))
  {
    if modules != [] {
      var front, last := modules[..|modules| - 1], modules[|modules| - 1];
      PartsListed(front, n);
      assert ModuleNames(Configs(modules)) == ModuleNames(Configs(front)) + [last.name];
      ElementsAppend(ModuleNames(Configs(front)), last.name);
    }
  }

  /** The modules in dependency order, each with its own content. */
  ghost predicate Reattached(modules: seq<ModuleParts>, result: seq<SchemaModule>) {
    && KahnOrder(Configs(modules), seq(|result|, i requires 0 <= i < |result| => result[i].name))
    && (forall r | r in result :: exists m :: m in modules && m.name == r.name && r.content == Joined(m.parts))
  }

  /** Every dependency of a module stands before it. */
  ghost predicate DependenciesFirst(modules: seq<ModuleParts>, result: seq<SchemaModule>) {
    forall m, i, d | m in modules && 0 <= i < |result| && result[i].name == m.name && d in m.dependsOn ::
      exists j :: 0 <= j < i && result[j].name == d
  }

  lemma OrderPutsFirst(modules: seq<ModuleParts>, result: seq<SchemaModule>)
    requires Reattached(modules, result)
    ensures DependenciesFirst(modules, result)
  {
    var configs := Configs(modules);
    var order := seq(|result|, i requires 0 <= i < |result| => result[i].name);
    forall m, i, d | m in modules && 0 <= i < |result| && result[i].name == m.name && d in m.dependsOn
      ensures exists j :: 0 <= j < i && result[j].name == d
    {
      var k :| 0 <= k < |modules| && modules[k] == m;
      assert configs[k] in configs && configs[k].name == m.name && d in configs[k].dependsOn;
      DepListMembers(configs, m.name, d);
      assert Deps(configs, order[i]) <= Elements(order[..i]);
      var j :| 0 <= j < |order[..i]| && order[..i][j] == d;
      assert result[j].name == d;
    }
  }

  /**
   Building succeeds iff there is metadata, no version repeats, versions start at 1 and the modules can be
   ordered; the manifest then has strictly ascending versions and distinct, dependency-ordered modules.
   */
  method Build(meta: Option<Meta>, migrations: seq<Migration>, modules: seq<ModuleParts>)
    returns (r: Result<Manifest, ManifestError>)
    ensures r.Ok? <==> meta.Some? && DistinctVersions(migrations) && FromOne(migrations) && Sortable(Configs(modules))
    ensures r.Ok? ==> AscendingVersions(r.value.migrations) && multiset(r.value.migrations) == multiset(migrations)
    ensures r.Ok? ==> Reattached(modules, r.value.modules) && DistinctModules(r.value.modules)
    ensures r.Ok? ==> DependenciesFirst(modules, r.value.modules)
  {
    if meta.None? {
      return Err(MetaRequired);
    }
    var sorted := SortBy(migrations, VersionLess);
    SortedMigrations(migrations);
    var error := ValidateSequence(sorted);
    if error.Some? {
      return Err(BadSequence(error.value));
    }
    var ordered := TopologicalSort(Configs(modules));
    if ordered.Err? {
      return Err(BadModules(ordered.error));
    }
    var result := Reattach(modules, ordered.value);
    OrderPutsFirst(modules, result);
    return Ok(Manifest(sorted, result));
  }

  method Reattach(modules: seq<ModuleParts>, ordered: seq<ModuleConfig>) returns (result: seq<SchemaModule>)
    requires KahnOrder(Configs(modules), ModuleNames(ordered)) && Distinct(ModuleNames(Configs(modules)))
    ensures Reattached(modules, result) && DistinctModules(result)
  {
    result := [];
    for i := 0 to |ordered|
      invariant |result| == i && forall j | 0 <= j < i :: result[j].name == ordered[j].name
      invariant forall s | s in result :: exists m :: m in modules && m.name == s.name && s.content == Joined(m.parts)
    {
      var n := ordered[i].name;
      assert ModuleNames(ordered)[i] == n && n in Elements(ModuleNames(ordered));
      PartsListed(modules, n);
      ghost var k := PartsFrom(modules, n);
      assert modules[k] in modules;
      result := result + [SchemaModule(n, Joined(PartsOf(modules, n).value))];
    }
    assert seq(|result|, i requires 0 <= i < |result| => result[i].name) == ModuleNames(ordered);
    forall i, j | 0 <= i < j < |result| ensures result[i].name != result[j].name {
      assert ModuleNames(ordered)[i] != ModuleNames(ordered)[j];
    }
  }

  lemma {:induction false} PartsFrom(modules: seq<ModuleParts>, n: Name) returns (k: nat)
    requires PartsOf(modules, n).Some?
    ensures k < |modules| && modules[k].name == n && PartsOf(modules, n) == Some(modules[k].parts)
  {
    if modules[|modules| - 1].name == n {
      k := |modules| - 1;
    } else {
      k := PartsFrom(modules[..|modules| - 1], n);
    }
  }
}
