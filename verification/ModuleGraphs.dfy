/** Schema modules and their dependencies: cycles, and the order a sort must produce. */
module ModuleGraphs {
  import opened Ordering

  datatype ModuleConfig = ModuleConfig(name: Name, path: string, dependsOn: seq<Name>)

  function ModuleNames(ms: seq<ModuleConfig>): seq<Name> {
    seq(|ms|, i requires 0 <= i < |ms| => ms[i].name)
  }

  function NameSet(ms: seq<ModuleConfig>): set<Name> {
    Elements(ModuleNames(ms))
  }

  /** Every dependency listed under a name, repetitions included. */
  function DepList(ms: seq<ModuleConfig>, n: Name): seq<Name> {
    if ms == [] then []
    else DepList(ms[..|ms| - 1], n) + if ms[|ms| - 1].name == n then ms[|ms| - 1].dependsOn else []
  }

  function Deps(ms: seq<ModuleConfig>, n: Name): set<Name> {
    Elements(DepList(ms, n))
  }

  ghost predicate DepsKnown(ms: seq<ModuleConfig>) {
    forall m, d | m in ms && d in m.dependsOn :: d in NameSet(ms)
  }

  /** Each name depends on the next. */
  ghost predicate Chain(ms: seq<ModuleConfig>, c: seq<Name>) {
    forall i | 0 <= i < |c| - 1 :: c[i + 1] in Deps(ms, c[i])
  }

  ghost predicate Cyclic(ms: seq<ModuleConfig>) {
    exists c :: |c| > 1 && Chain(ms, c) && c[0] == c[|c| - 1]
  }

  /** What a module list must be for an order to exist. */
  ghost predicate Sortable(ms: seq<ModuleConfig>) {
    DepsKnown(ms) && Distinct(ModuleNames(ms)) && !Cyclic(ms)
  }

  /** The position in `order` of the last of the given dependencies, or -1. */
  function Latest(ds: set<Name>, order: seq<Name>): int {
    if order == [] then -1
    else if order[|order| - 1] in ds then |order| - 1
    else Latest(ds, order[..|order| - 1])
  }

  /** `a` comes before `b`: its last dependency was met earlier, or at once and its name is smaller. */
  ghost predicate Precedes(ms: seq<ModuleConfig>, order: seq<Name>, a: Name, b: Name) {
    || Latest(Deps(ms, a), order) < Latest(Deps(ms, b), order)
    || (Latest(Deps(ms, a), order) == Latest(Deps(ms, b), order) && NameLess(a, b))
  }

  ghost predicate DepsFirst(ms: seq<ModuleConfig>, order: seq<Name>) {
    forall i | 0 <= i < |order| :: Deps(ms, order[i]) <= Elements(order[..i])
  }

  /** Every module once, after its dependencies, by the position of its last dependency and then by name. */
  ghost predicate KahnOrder(ms: seq<ModuleConfig>, order: seq<Name>) {
    && Distinct(order) && Elements(order) == NameSet(ms)
    && DepsFirst(ms, order)
    && (forall i, j | 0 <= i < j < |order| :: Precedes(ms, order, order[i], order[j]))
  }

  lemma {:induction false} DepListMembers(ms: seq<ModuleConfig>, n: Name, d: Name)
    ensures d in Deps(ms, n) <==> exists m :: m in ms && m.name == n && d in m.dependsOn
  {
    if ms != [] {
      var front, last := ms[..|ms| - 1], ms[|ms| - 1];
      DepListMembers(front, n, d);
      assert ms == front + [last];
      assert forall m :: m in ms <==> m in front || m == last;
    }
  }

  lemma ModuleInNames(ms: seq<ModuleConfig>)
    ensures forall m | m in ms :: m.name in NameSet(ms)
    ensures forall n | n in NameSet(ms) :: exists m :: m in ms && m.name == n
  {
    forall m | m in ms ensures m.name in NameSet(ms) {
      var i :| 0 <= i < |ms| && ms[i] == m;
      assert ModuleNames(ms)[i] == m.name;
    }
  }

  // --- Latest dependencies ---

  lemma {:induction false} LatestBounds(ds: set<Name>, order: seq<Name>)
    ensures -1 <= Latest(ds, order) < |order|
    ensures Latest(ds, order) >= 0 ==> order[Latest(ds, order)] in ds
    ensures forall i | Latest(ds, order) < i < |order| :: order[i] !in ds
  {
    if order != [] { LatestBounds(ds, order[..|order| - 1]); }
  }

  /** Names after the last dependency do not move it. */
  lemma {:induction false} LatestPrefix(ds: set<Name>, order: seq<Name>, k: nat)
    requires k <= |order| && forall i | k <= i < |order| :: order[i] !in ds
    ensures Latest(ds, order) == Latest(ds, order[..k])
  {
    if k == |order| {
      assert order[..k] == order;
    } else {
      LatestPrefix(ds, order[..|order| - 1], k);
      assert order[..|order| - 1][..k] == order[..k];
    }
  }

  // --- Cycles ---

  /** A chain that comes back to one of its names holds a cycle. */
  lemma LoopIsCyclic(ms: seq<ModuleConfig>, c: seq<Name>, i: nat)
    requires i < |c| - 1 && Chain(ms, c) && c[i] == c[|c| - 1]
    ensures Cyclic(ms)
  {
    var loop := c[i..];
    forall k | 0 <= k < |loop| - 1 ensures loop[k + 1] in Deps(ms, loop[k]) {
      assert c[i + k + 1] in Deps(ms, c[i + k]);
    }
    assert |loop| > 1 && Chain(ms, loop) && loop[0] == loop[|loop| - 1];
  }

  lemma ChainGrows(ms: seq<ModuleConfig>, c: seq<Name>, d: Name)
    requires c != [] && Chain(ms, c) && d in Deps(ms, c[|c| - 1])
    ensures Chain(ms, c + [d])
  {
  }

  /** Where every name depends on another of the set there is a cycle. */
  lemma StuckIsCyclic(ms: seq<ModuleConfig>, stuck: set<Name>, c: seq<Name>)
    requires c != [] && Chain(ms, c) && Distinct(c) && Elements(c) <= stuck
    requires forall x | x in stuck :: Deps(ms, x) * stuck != {}
    ensures Cyclic(ms)
    decreases |stuck| - |c|
  {
    assert c[|c| - 1] in Elements(c);
    var d :| d in Deps(ms, c[|c| - 1]) * stuck;
    ChainGrows(ms, c, d);
    DistinctFits(c, stuck);
    if d in c {
      var i :| 0 <= i < |c| && c[i] == d;
      LoopIsCyclic(ms, c + [d], i);
    } else {
      ElementsAppend(c, d);
      assert d !in Elements(c);
      StuckIsCyclic(ms, stuck, c + [d]);
    }
  }

  /** Along a chain positions only go down. */
  lemma {:induction false} ChainDescends(ms: seq<ModuleConfig>, order: seq<Name>, c: seq<Name>, p: nat) returns (q: nat)
    requires DepsFirst(ms, order) && Chain(ms, c) && |c| > 1
    requires p < |order| && order[p] == c[0]
    ensures q < p && order[q] == c[|c| - 1]
    decreases |c|
  {
    assert c[1] in Deps(ms, c[0]);
    q :| 0 <= q < p && order[q] == c[1];
    if |c| > 2 {
      var rest := c[1..];
      assert Chain(ms, rest) by {
        forall i | 0 <= i < |rest| - 1 ensures rest[i + 1] in Deps(ms, rest[i]) {
          assert c[i + 2] in Deps(ms, c[i + 1]);
        }
      }
      q := ChainDescends(ms, order, rest, q);
    }
  }

  lemma OrderedIsAcyclic(ms: seq<ModuleConfig>, order: seq<Name>)
    requires DepsFirst(ms, order) && Distinct(order) && Elements(order) == NameSet(ms)
    ensures !Cyclic(ms)
  {
    if c :| |c| > 1 && Chain(ms, c) && c[0] == c[|c| - 1] {
      assert c[1] in Deps(ms, c[0]);
      DepListMembers(ms, c[0], c[1]);
      ModuleInNames(ms);
      assert c[0] in Elements(order);
      var p :| 0 <= p < |order| && order[p] == c[0];
      var q := ChainDescends(ms, order, c, p);
    }
  }

  /** Two modules of one name are not sortable, though nothing depends on anything. */
  lemma NamesakesNotCyclic(name: Name, path: string, other: string)
    ensures
      var ms := [ModuleConfig(name, path, []), ModuleConfig(name, other, [])];
      DepsKnown(ms) && !Cyclic(ms) && !Sortable(ms)
  {
    var ms := [ModuleConfig(name, path, []), ModuleConfig(name, other, [])];
    if c :| |c| > 1 && Chain(ms, c) && c[0] == c[|c| - 1] {
      assert c[1] in Deps(ms, c[0]);
      DepListMembers(ms, c[0], c[1]);
    }
    assert ModuleNames(ms)[0] == ModuleNames(ms)[1];
  }

  // --- One order per module set ---

  ghost predicate SameModules(ms: seq<ModuleConfig>, ns: seq<ModuleConfig>) {
    NameSet(ms) == NameSet(ns) && forall n :: Deps(ms, n) == Deps(ns, n)
  }

  /** Every module of `ms` is among `ns` with the same dependencies, however listed. */
  ghost predicate AllAmong(ms: seq<ModuleConfig>, ns: seq<ModuleConfig>) {
    forall m | m in ms :: exists n :: n in ns && n.name == m.name && Elements(n.dependsOn) == Elements(m.dependsOn)
  }

  lemma AmongDeps(ms: seq<ModuleConfig>, ns: seq<ModuleConfig>, n: Name)
    requires AllAmong(ms, ns)
    ensures Deps(ms, n) <= Deps(ns, n)
  {
    forall d | d in Deps(ms, n) ensures d in Deps(ns, n) {
      DepListMembers(ms, n, d);
      var m :| m in ms && m.name == n && d in m.dependsOn;
      var m' :| m' in ns && m'.name == m.name && Elements(m'.dependsOn) == Elements(m.dependsOn);
      assert d in Elements(m.dependsOn);
      DepListMembers(ns, n, d);
    }
  }

  lemma AmongNames(ms: seq<ModuleConfig>, ns: seq<ModuleConfig>)
    requires AllAmong(ms, ns)
    ensures NameSet(ms) <= NameSet(ns)
  {
    ModuleInNames(ms);
    ModuleInNames(ns);
  }

  /** Listing the same modules and dependencies in another order changes nothing the sort looks at. */
  lemma ShuffledModules(ms: seq<ModuleConfig>, ns: seq<ModuleConfig>)
    requires AllAmong(ms, ns) && AllAmong(ns, ms)
    ensures SameModules(ms, ns)
  {
    AmongNames(ms, ns);
    AmongNames(ns, ms);
    forall n ensures Deps(ms, n) == Deps(ns, n) {
      AmongDeps(ms, ns, n);
      AmongDeps(ns, ms, n);
    }
  }

  lemma OrderTransfers(ms: seq<ModuleConfig>, ns: seq<ModuleConfig>, order: seq<Name>)
    requires SameModules(ms, ns) && KahnOrder(ns, order)
    ensures KahnOrder(ms, order)
  {
    forall i, j | 0 <= i < j < |order| ensures Precedes(ms, order, order[i], order[j]) {
      assert Precedes(ns, order, order[i], order[j]);
    }
  }

  lemma NotBefore(o: seq<Name>, k: nat, x: nat)
    requires Distinct(o) && k <= x < |o|
    ensures o[x] !in Elements(o[..k])
  {
  }

  /** A name whose dependencies all lie in a common prefix met the last of them at one position. */
  lemma SameLatest(ds: set<Name>, o: seq<Name>, p: seq<Name>, k: nat)
    requires k <= |o| && k <= |p| && o[..k] == p[..k] && Distinct(o) && Distinct(p)
    requires ds <= Elements(o[..k])
    ensures Latest(ds, o) == Latest(ds, p)
  {
    forall x | k <= x < |o| ensures o[x] !in ds { NotBefore(o, k, x); }
    forall x | k <= x < |p| ensures p[x] !in ds { NotBefore(p, k, x); }
    LatestPrefix(ds, o, k);
    LatestPrefix(ds, p, k);
  }

  lemma PositionAfter(o: seq<Name>, p: seq<Name>, k: nat) returns (j: nat)
    requires k < |o| && k <= |p| && o[..k] == p[..k] && Distinct(o) && o[k] in Elements(p)
    ensures k <= j < |p| && p[j] == o[k]
  {
    j :| 0 <= j < |p| && p[j] == o[k];
    NotBefore(o, k, k);
    assert forall x | 0 <= x < k :: p[x] == o[..k][x];
  }

  lemma NextAgrees(ms: seq<ModuleConfig>, o: seq<Name>, p: seq<Name>, k: nat)
    requires KahnOrder(ms, o) && KahnOrder(ms, p)
    requires k < |o| && k < |p| && o[..k] == p[..k]
    ensures o[k] == p[k]
  {
    var a, b := o[k], p[k];
    assert a in Elements(p) && b in Elements(o);
    var j := PositionAfter(o, p, k);
    var i := PositionAfter(p, o, k);
    SameLatest(Deps(ms, a), o, p, k);
    SameLatest(Deps(ms, b), p, o, k);
    assert i > k ==> Precedes(ms, o, a, b);
    assert j > k ==> Precedes(ms, p, b, a);
    NameLessAsymmetric(a, b);
  }

  lemma {:induction false} PrefixAgrees(ms: seq<ModuleConfig>, o: seq<Name>, p: seq<Name>, k: nat)
    requires KahnOrder(ms, o) && KahnOrder(ms, p) && k <= |o| && k <= |p|
    ensures o[..k] == p[..k]
  {
    if k > 0 {
      PrefixAgrees(ms, o, p, k - 1);
      NextAgrees(ms, o, p, k - 1);
      assert o[..k] == o[..k - 1] + [o[k - 1]] && p[..k] == p[..k - 1] + [p[k - 1]];
    }
  }

  /** The order is a function of the set of modules and dependencies. */
  lemma OrderDetermined(ms: seq<ModuleConfig>, ns: seq<ModuleConfig>, o: seq<Name>, p: seq<Name>)
    requires SameModules(ms, ns) && KahnOrder(ms, o) && KahnOrder(ns, p)
    ensures o == p
  {
    OrderTransfers(ms, ns, p);
    DistinctCounts(o);
    DistinctCounts(p);
    PrefixAgrees(ms, o, p, |o|);
    assert o[..|o|] == o && p[..|p|] == p;
  }
}
