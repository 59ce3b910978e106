/** Kahn's algorithm over schema modules. */
module ModuleSort {
  import opened Ordering
  import opened ModuleGraphs

  datatype SortError =
    | UnknownDependency(moduleName: Name, dependency: Name)
    | CircularDependency

  /** The entries of a dependency list that name no module already emitted. */
  function Unmet(ds: seq<Name>, emitted: set<Name>): nat {
    if ds == [] then 0
    else Unmet(ds[..|ds| - 1], emitted) + if ds[|ds| - 1] in emitted then 0 else 1
  }

  /** Emitting a name settles as many entries as the list repeats it. */
  lemma {:induction false} UnmetAfter(ds: seq<Name>, emitted: set<Name>, v: Name)
    requires v !in emitted
    ensures Unmet(ds, emitted) == Unmet(ds, emitted + {v}) + multiset(ds)[v]
  {
    if ds != [] {
      UnmetAfter(ds[..|ds| - 1], emitted, v);
      assert ds == ds[..|ds| - 1] + [ds[|ds| - 1]];
    }
  }

  lemma {:induction false} UnmetZero(ds: seq<Name>, emitted: set<Name>)
    ensures Unmet(ds, emitted) == 0 <==> Elements(ds) <= emitted
  {
    if ds != [] {
      UnmetZero(ds[..|ds| - 1], emitted);
      assert ds == ds[..|ds| - 1] + [ds[|ds| - 1]];
      assert ds[|ds| - 1] in Elements(ds);
    }
  }

  lemma {:induction false} UnmetNone(ds: seq<Name>)
    ensures Unmet(ds, {}) == |ds|
  {
    if ds != [] { UnmetNone(ds[..|ds| - 1]); }
  }

  // --- The tables the algorithm works on ---

  type Degrees = map<Name, nat>
  type Dependents = map<Name, seq<Name>>

  function DependentsOf(dependents: Dependents, d: Name): seq<Name> {
    if d in dependents then dependents[d] else []
  }

  function TimesUnder(dependents: Dependents, d: Name, n: Name): nat {
    multiset(DependentsOf(dependents, d))[n]
  }

  function TimesListed(ms: seq<ModuleConfig>, n: Name, d: Name): nat {
    multiset(DepList(ms, n))[d]
  }

  /**
   In-degrees count dependency entries, and `dependents` lists a module under a dependency as often as
   the module lists the dependency.
   */
  ghost predicate Tabled(ms: seq<ModuleConfig>, inDegree: Degrees, dependents: Dependents) {
    && inDegree.Keys == NameSet(ms)
    && (forall n | n in inDegree :: inDegree[n] == |DepList(ms, n)|)
    && (forall d, n :: TimesUnder(dependents, d, n) == TimesListed(ms, n, d))
  }

  lemma ModuleNamesAppend(front: seq<ModuleConfig>, m: ModuleConfig)
    ensures NameSet(front + [m]) == NameSet(front) + {m.name}
  {
    assert ModuleNames(front + [m]) == ModuleNames(front) + [m.name];
    ElementsAppend(ModuleNames(front), m.name);
  }

  lemma DepListAppend(front: seq<ModuleConfig>, m: ModuleConfig, n: Name)
    ensures DepList(front + [m], n) == DepList(front, n) + if m.name == n then m.dependsOn else []
  {
    assert (front + [m])[..|front|] == front;
  }

  lemma {:induction false} NoDepList(ms: seq<ModuleConfig>, n: Name)
    requires n !in NameSet(ms)
    ensures DepList(ms, n) == []
  {
    if ms != [] {
      var front, last := ms[..|ms| - 1], ms[|ms| - 1];
      assert ms == front + [last];
      ModuleNamesAppend(front, last);
      NoDepList(front, n);
    }
  }

  lemma StartModule(front: seq<ModuleConfig>, m: ModuleConfig, inDegree: Degrees, dependents: Dependents)
    requires Tabled(front, inDegree, dependents) && m.dependsOn == []
    ensures Tabled(front + [m], if m.name in inDegree then inDegree else inDegree[m.name := 0], dependents)
  {
    hide DepList, TimesUnder;
    ModuleNamesAppend(front, m);
    forall n ensures DepList(front + [m], n) == DepList(front, n) { NothingListed(front, m, n); }
    if m.name !in inDegree { NoDepList(front, m.name); }
    forall d, n ensures TimesUnder(dependents, d, n) == TimesListed(front + [m], n, d) {
      assert TimesUnder(dependents, d, n) == TimesListed(front, n, d);
    }
  }

  lemma NothingListed(front: seq<ModuleConfig>, m: ModuleConfig, n: Name)
    requires m.dependsOn == []
    ensures DepList(front + [m], n) == DepList(front, n)
  {
    DepListAppend(front, m, n);
    assert DepList(front, n) + [] == DepList(front, n);
  }

  function WithEntry(m: ModuleConfig, d: Name): ModuleConfig {
    m.(dependsOn := m.dependsOn + [d])
  }

  function WithDependent(dependents: Dependents, d: Name, n: Name): Dependents {
    dependents[d := DependentsOf(dependents, d) + [n]]
  }

  lemma EntryAppended(front: seq<ModuleConfig>, m: ModuleConfig, d: Name, n: Name)
    ensures DepList(front + [WithEntry(m, d)], n)
         == if n == m.name then DepList(front + [m], n) + [d] else DepList(front + [m], n)
  {
    DepListAppend(front, m, n);
    DepListAppend(front, WithEntry(m, d), n);
    assert DepList(front, n) + (m.dependsOn + [d]) == DepList(front, n) + m.dependsOn + [d];
  }

  lemma EntryMirrored(front: seq<ModuleConfig>, m: ModuleConfig, d: Name, dependents: Dependents, e: Name, n: Name)
    requires TimesUnder(dependents, e, n) == TimesListed(front + [m], n, e)
    ensures TimesUnder(WithDependent(dependents, d, m.name), e, n) == TimesListed(front + [WithEntry(m, d)], n, e)
  {
    EntryAppended(front, m, d, n);
  }

  lemma AddEntry(front: seq<ModuleConfig>, m: ModuleConfig, d: Name, inDegree: Degrees, dependents: Dependents)
    requires Tabled(front + [m], inDegree, dependents)
    ensures m.name in inDegree
    ensures Tabled(front + [WithEntry(m, d)], inDegree[m.name := inDegree[m.name] + 1],
                   WithDependent(dependents, d, m.name))
  {
    hide DepList, TimesUnder, TimesListed;
    ModuleNamesAppend(front, m);
    ModuleNamesAppend(front, WithEntry(m, d));
    forall n | n in inDegree
      ensures |DepList(front + [WithEntry(m, d)], n)| == inDegree[n] + if n == m.name then 1 else 0
    {
      EntryAppended(front, m, d, n);
    }
    forall e, n
      ensures TimesUnder(WithDependent(dependents, d, m.name), e, n) == TimesListed(front + [WithEntry(m, d)], n, e)
    {
      EntryMirrored(front, m, d, dependents, e, n);
    }
  }

  method AddEntries(ghost front: seq<ModuleConfig>, m: ModuleConfig, inDegree: Degrees, dependents: Dependents)
    returns (inDegree': Degrees, dependents': Dependents)
    requires Tabled(front + [m.(dependsOn := [])], inDegree, dependents)
    ensures Tabled(front + [m], inDegree', dependents')
  {
    hide Tabled;
    inDegree', dependents' := inDegree, dependents;
    for j := 0 to |m.dependsOn|
      invariant Tabled(front + [m.(dependsOn := m.dependsOn[..j])], inDegree', dependents')
    {
      AddEntry(front, m.(dependsOn := m.dependsOn[..j]), m.dependsOn[j], inDegree', dependents');
      inDegree' := inDegree'[m.name := inDegree'[m.name] + 1];
      dependents' := WithDependent(dependents', m.dependsOn[j], m.name);
      assert WithEntry(m.(dependsOn := m.dependsOn[..j]), m.dependsOn[j]) == m.(dependsOn := m.dependsOn[..j + 1]);
    }
    assert m.dependsOn[..|m.dependsOn|] == m.dependsOn;
  }

  method BuildTables(ms: seq<ModuleConfig>) returns (inDegree: Degrees, dependents: Dependents)
    ensures Tabled(ms, inDegree, dependents)
  {
    inDegree, dependents := map[], map[];
    for i := 0 to |ms|
      invariant Tabled(ms[..i], inDegree, dependents)
    {
      StartModule(ms[..i], ms[i].(dependsOn := []), inDegree, dependents);
      if ms[i].name !in inDegree {
        inDegree := inDegree[ms[i].name := 0];
      }
      inDegree, dependents := AddEntries(ms[..i], ms[i], inDegree, dependents);
      assert ms[..i + 1] == ms[..i] + [ms[i]];
    }
    assert ms[..|ms|] == ms;
  }

  // --- Draining the queue ---

  /**
   `order` has been emitted and `queue` waits: degrees count unmet entries, a name is in line iff none
   is left, and the line is in the order the sort promises.
   */
  ghost predicate Draining(ms: seq<ModuleConfig>, inDegree: Degrees, order: seq<Name>, queue: seq<Name>) {
    && inDegree.Keys == NameSet(ms)
    && (forall n | n in inDegree :: inDegree[n] == Unmet(DepList(ms, n), Elements(order)))
    && (forall n :: n in order + queue <==> n in inDegree && inDegree[n] == 0)
    && Lined(ms, order, order + queue)
  }

  ghost predicate Lined(ms: seq<ModuleConfig>, order: seq<Name>, line: seq<Name>) {
    Distinct(line) && DepsFirst(ms, order) && InLine(ms, order, line)
  }

  ghost predicate InLine(ms: seq<ModuleConfig>, order: seq<Name>, line: seq<Name>) {
    forall i, j | 0 <= i < j < |line| :: Precedes(ms, order, line[i], line[j])
  }

  /** What decrementing the degrees of a list of dependents leaves, and which of them it frees. */
  ghost predicate Released(inDegree: Degrees, list: seq<Name>, inDegree': Degrees, next: seq<Name>) {
    && inDegree'.Keys == inDegree.Keys
    && (forall n | n in inDegree :: inDegree'[n] + multiset(list)[n] == inDegree[n])
    && Distinct(next)
    && (forall n :: n in next <==> n in inDegree && inDegree'[n] == 0 && inDegree[n] > 0)
  }

  lemma NothingReleased(inDegree: Degrees)
    ensures Released(inDegree, [], inDegree, [])
  {
  }

  lemma CountOneMore(list: seq<Name>, k: nat)
    requires k < |list|
    ensures multiset(list[..k + 1]) == multiset(list[..k]) + multiset{list[k]}
    ensures multiset(list)[list[k]] >= multiset(list[..k])[list[k]] + 1
  {
    assert list[..k + 1] == list[..k] + [list[k]];
    assert list == list[..k + 1] + list[k + 1..];
  }

  lemma ReleaseStep(inDegree: Degrees, list: seq<Name>, k: nat, inDegree': Degrees, next: seq<Name>)
    requires k < |list| && list[k] in inDegree && multiset(list)[list[k]] <= inDegree[list[k]]
    requires Released(inDegree, list[..k], inDegree', next)
    ensures list[k] in inDegree' && inDegree'[list[k]] > 0
    ensures Released(inDegree, list[..k + 1], inDegree'[list[k] := inDegree'[list[k]] - 1],
                     if inDegree'[list[k]] == 1 then next + [list[k]] else next)
  {
    CountOneMore(list, k);
  }

  /** No degree ever drops below zero, even where a dependency is listed twice. */
  method Release(inDegree: Degrees, list: seq<Name>) returns (inDegree': Degrees, next: seq<Name>)
    requires forall n | n in list :: n in inDegree
    requires forall n | n in inDegree :: multiset(list)[n] <= inDegree[n]
    ensures Released(inDegree, list, inDegree', next)
  {
    hide Released;
    inDegree', next := inDegree, [];
    NothingReleased(inDegree);
    for k := 0 to |list|
      invariant Released(inDegree, list[..k], inDegree', next)
    {
      var n := list[k];
      ReleaseStep(inDegree, list, k, inDegree', next);
      inDegree' := inDegree'[n := inDegree'[n] - 1];
      if inDegree'[n] == 0 {
        next := next + [n];
      }
    }
    assert list[..|list|] == list;
  }

  lemma DependentsHaveDegree(ms: seq<ModuleConfig>, dependents: Dependents, inDegree: Degrees, order: seq<Name>,
                             queue: seq<Name>)
    requires Draining(ms, inDegree, order, queue) && queue != []
    requires forall d, n :: TimesUnder(dependents, d, n) == TimesListed(ms, n, d)
    ensures
      var list := DependentsOf(dependents, queue[0]);
      && (forall n | n in list :: n in inDegree)
      && (forall n | n in inDegree :: multiset(list)[n] <= inDegree[n])
  {
    var v := queue[0];
    var list := DependentsOf(dependents, v);
    FrontIsNew(order, queue);
    forall n | n in list ensures n in inDegree {
      assert TimesUnder(dependents, v, n) == TimesListed(ms, n, v) > 0;
      if n !in inDegree { NoDepList(ms, n); }
    }
    forall n | n in inDegree ensures multiset(list)[n] <= inDegree[n] {
      assert TimesUnder(dependents, v, n) == TimesListed(ms, n, v);
      UnmetAfter(DepList(ms, n), Elements(order), v);
    }
  }

  lemma FrontIsNew(order: seq<Name>, queue: seq<Name>)
    requires Distinct(order + queue) && queue != []
    ensures queue[0] !in Elements(order) && queue[0] in order + queue
    ensures order + queue == order + [queue[0]] + queue[1..]
  {
    forall i | 0 <= i < |order| ensures order[i] != queue[0] {
      assert (order + queue)[i] != (order + queue)[|order|];
    }
  }

  /** The degrees after a name is emitted count what is unmet without it. */
  lemma DegreesAfter(ms: seq<ModuleConfig>, dependents: Dependents, inDegree: Degrees, inDegree': Degrees,
                     order: seq<Name>, v: Name, next: seq<Name>, n: Name)
    requires forall d, x :: TimesUnder(dependents, d, x) == TimesListed(ms, x, d)
    requires Released(inDegree, DependentsOf(dependents, v), inDegree', next)
    requires n in inDegree && inDegree[n] == Unmet(DepList(ms, n), Elements(order)) && v !in Elements(order)
    ensures inDegree'[n] == Unmet(DepList(ms, n), Elements(order + [v]))
    ensures inDegree'[n] < inDegree[n] ==> v in Deps(ms, n)
  {
    assert TimesUnder(dependents, v, n) == TimesListed(ms, n, v);
    UnmetAfter(DepList(ms, n), Elements(order), v);
    ElementsAppend(order, v);
  }

  /** Those already in line keep their places, and the freed ones come after them by name. */
  lemma LineGrows(ms: seq<ModuleConfig>, order: seq<Name>, v: Name, line: seq<Name>, next: seq<Name>)
    requires InLine(ms, order, line) && v !in Elements(order)
    requires forall n | n in line :: Deps(ms, n) <= Elements(order)
    requires forall n | n in next :: v in Deps(ms, n)
    requires Increasing(next, NameLess)
    ensures InLine(ms, order + [v], line + next)
  {
    var all := line + next;
    assert (order + [v])[..|order|] == order;
    forall n | n in line ensures Latest(Deps(ms, n), order + [v]) == Latest(Deps(ms, n), order) < |order| {
      LatestBounds(Deps(ms, n), order);
    }
    forall n | n in next ensures Latest(Deps(ms, n), order + [v]) == |order| {
    }
    forall i, j | 0 <= i < j < |all| ensures Precedes(ms, order + [v], all[i], all[j]) {
      if j < |line| {
        assert Precedes(ms, order, line[i], line[j]) && line[i] in line && line[j] in line;
      } else {
        assert all[j] in next;
        if i < |line| { assert all[i] in line; } else { assert all[i] in next; }
      }
    }
  }

  lemma DistinctJoin(line: seq<Name>, next: seq<Name>)
    requires Distinct(line) && Distinct(next) && forall n | n in next :: n !in line
    ensures Distinct(line + next)
  {
    forall i, j | 0 <= i < j < |line + next| ensures (line + next)[i] != (line + next)[j] {
      if i < |line| <= j { assert (line + next)[j] in next && (line + next)[i] in line; }
    }
  }

  lemma DepsFirstGrows(ms: seq<ModuleConfig>, order: seq<Name>, v: Name)
    requires DepsFirst(ms, order) && Deps(ms, v) <= Elements(order)
    ensures DepsFirst(ms, order + [v])
  {
    var longer := order + [v];
    forall i | 0 <= i < |longer| ensures Deps(ms, longer[i]) <= Elements(longer[..i]) {
      assert longer[..i] == order[..i];
      assert order[..|order|] == order;
    }
  }

  lemma DegreesKept(ms: seq<ModuleConfig>, dependents: Dependents, inDegree: Degrees, order: seq<Name>,
                    queue: seq<Name>,
                    inDegree': Degrees, next: seq<Name>)
    requires Draining(ms, inDegree, order, queue) && queue != []
    requires forall d, x :: TimesUnder(dependents, d, x) == TimesListed(ms, x, d)
    requires Released(inDegree, DependentsOf(dependents, queue[0]), inDegree', next)
    ensures forall n | n in inDegree' :: inDegree'[n] == Unmet(DepList(ms, n), Elements(order + [queue[0]]))
    ensures forall n | n in next :: queue[0] in Deps(ms, n) && n !in order + queue
    ensures forall n :: n in order + queue + next <==> n in inDegree' && inDegree'[n] == 0
  {
    FrontIsNew(order, queue);
    forall n | n in inDegree
      ensures inDegree'[n] == Unmet(DepList(ms, n), Elements(order + [queue[0]]))
      ensures inDegree'[n] < inDegree[n] ==> queue[0] in Deps(ms, n)
    {
      DegreesAfter(ms, dependents, inDegree, inDegree', order, queue[0], next, n);
    }
  }

  lemma AllMet(ms: seq<ModuleConfig>, inDegree: Degrees, order: seq<Name>, queue: seq<Name>)
    requires Draining(ms, inDegree, order, queue)
    ensures forall n | n in order + queue :: Deps(ms, n) <= Elements(order)
  {
    forall n | n in order + queue ensures Deps(ms, n) <= Elements(order) {
      UnmetZero(DepList(ms, n), Elements(order));
    }
  }

  lemma LineKept(ms: seq<ModuleConfig>, order: seq<Name>, queue: seq<Name>, next: seq<Name>)
    requires queue != [] && Lined(ms, order, order + queue)
    requires forall n | n in order + queue :: Deps(ms, n) <= Elements(order)
    requires forall n | n in next :: queue[0] in Deps(ms, n) && n !in order + queue
    requires Distinct(next) && Increasing(next, NameLess)
    ensures Lined(ms, order + [queue[0]], order + queue + next)
  {
    FrontIsNew(order, queue);
    DistinctJoin(order + queue, next);
    DepsFirstGrows(ms, order, queue[0]);
    LineGrows(ms, order, queue[0], order + queue, next);
  }

  lemma FrontMoves(order: seq<Name>, queue: seq<Name>, next: seq<Name>)
    requires queue != []
    ensures order + [queue[0]] + (queue[1..] + next) == order + queue + next
  {
  }

  /** Emitting the front of the queue and lining up what it frees keeps everything in order. */
  lemma EmitKeeps(ms: seq<ModuleConfig>, dependents: Dependents, inDegree: Degrees, order: seq<Name>, queue: seq<Name>,
                  inDegree': Degrees, next: seq<Name>)
    requires Draining(ms, inDegree, order, queue) && queue != []
    requires forall d, x :: TimesUnder(dependents, d, x) == TimesListed(ms, x, d)
    requires Released(inDegree, DependentsOf(dependents, queue[0]), inDegree', next)
    requires Increasing(next, NameLess)
    ensures Draining(ms, inDegree', order + [queue[0]], queue[1..] + next)
  {
    DegreesKept(ms, dependents, inDegree, order, queue, inDegree', next);
    AllMet(ms, inDegree, order, queue);
    LineKept(ms, order, queue, next);
    FrontMoves(order, queue, next);
  }

  /** The modules no dependency holds back, by name. */
  method Ready(ms: seq<ModuleConfig>, inDegree: Degrees) returns (queue: seq<Name>)
    requires inDegree.Keys == NameSet(ms) && forall n | n in inDegree :: inDegree[n] == |DepList(ms, n)|
    ensures Draining(ms, inDegree, [], queue)
  {
    hide Unmet, DepList;
    queue := SortedMembers(set n | n in inDegree && inDegree[n] == 0);
    var none: seq<Name> := [];
    assert none + queue == queue && Elements(none) == {};
    forall n ensures Unmet(DepList(ms, n), {}) == |DepList(ms, n)| { UnmetNone(DepList(ms, n)); }
    NameOrder();
    assert forall n :: n in queue <==> n in Elements(queue);
    forall i, j | 0 <= i < j < |queue| ensures queue[i] != queue[j] { assert NameLess(queue[i], queue[j]); }
  }

  lemma WaitsOnLeftover(ms: seq<ModuleConfig>, order: seq<Name>, x: Name)
    requires DepsKnown(ms) && Unmet(DepList(ms, x), Elements(order)) > 0
    ensures Deps(ms, x) * (NameSet(ms) - Elements(order)) != {}
  {
    UnmetZero(DepList(ms, x), Elements(order));
    var d :| d in Deps(ms, x) && d !in Elements(order);
    DepListMembers(ms, x, d);
    assert d in Deps(ms, x) * (NameSet(ms) - Elements(order));
  }

  /** When the queue runs dry, what was not emitted waits on a cycle. */
  lemma LeftoverIsCyclic(ms: seq<ModuleConfig>, inDegree: Degrees, order: seq<Name>, left: Name)
    requires Draining(ms, inDegree, order, []) && DepsKnown(ms)
    requires left in NameSet(ms) && left !in Elements(order)
    ensures Cyclic(ms)
  {
    assert order + [] == order;
    var stuck := NameSet(ms) - Elements(order);
    forall x | x in stuck ensures Deps(ms, x) * stuck != {} {
      assert x in inDegree && x !in order;
      WaitsOnLeftover(ms, order, x);
    }
    StuckIsCyclic(ms, stuck, [left]);
  }

  // --- The sort ---

  /** The module filed under each name; a later one of the same name replaces an earlier. */
  function ModuleMap(ms: seq<ModuleConfig>): map<Name, ModuleConfig> {
    if ms == [] then map[] else ModuleMap(ms[..|ms| - 1])[ms[|ms| - 1].name := ms[|ms| - 1]]
  }

  lemma {:induction false} ModuleMapEntries(ms: seq<ModuleConfig>)
    ensures ModuleMap(ms).Keys == NameSet(ms)
    ensures forall n | n in ModuleMap(ms) :: ModuleMap(ms)[n] in ms && ModuleMap(ms)[n].name == n
  {
    if ms != [] {
      var front, last := ms[..|ms| - 1], ms[|ms| - 1];
      ModuleMapEntries(front);
      ModuleNamesAppend(front, last);
      assert ms == front + [last];
    }
  }

  /** The first dependency that names no module, if any. */
  method FindUnknown(ms: seq<ModuleConfig>, known: set<Name>) returns (unknown: Option<(Name, Name)>)
    requires known == NameSet(ms)
    ensures unknown.None? <==> DepsKnown(ms)
    ensures unknown.Some? ==> unknown.value.1 in Deps(ms, unknown.value.0) && unknown.value.1 !in known
  {
    for i := 0 to |ms|
      invariant forall m, d | m in ms[..i] && d in m.dependsOn :: d in known
    {
      var m := ms[i];
      for j := 0 to |m.dependsOn|
        invariant forall d | d in m.dependsOn[..j] :: d in known
      {
        if m.dependsOn[j] !in known {
          DepListMembers(ms, m.name, m.dependsOn[j]);
          assert m in ms && m.dependsOn[j] in m.dependsOn;
          return Some((m.name, m.dependsOn[j]));
        }
      }
    }
    return None;
  }

  /** Emit names until the queue is dry. */
  method Drain(ms: seq<ModuleConfig>, inDegree: Degrees, dependents: Dependents)
    returns (result: seq<ModuleConfig>, ghost left: Degrees)
    requires Tabled(ms, inDegree, dependents)
    ensures Draining(ms, left, ModuleNames(result), [])
    ensures forall m | m in result :: m in ms
  {
    var moduleMap := ModuleMap(ms);
    ModuleMapEntries(ms);
    var degrees := inDegree;
    var queue := Ready(ms, inDegree);
    result := [];
    while queue != []
      invariant Draining(ms, degrees, ModuleNames(result), queue)
      invariant forall m | m in result :: m in ms
      decreases |NameSet(ms)| - |result|
    {
      InNames(ms, degrees, ModuleNames(result), queue);
      var name := queue[0];
      queue, degrees := LineUpDependents(ms, dependents, degrees, ModuleNames(result), queue);
      EmittedName(result, moduleMap[name]);
      result := result + [moduleMap[name]];
    }
    left := degrees;
  }

  lemma EmittedName(result: seq<ModuleConfig>, m: ModuleConfig)
    ensures ModuleNames(result + [m]) == ModuleNames(result) + [m.name]
  {
  }

  method LineUpDependents(ghost ms: seq<ModuleConfig>, dependents: Dependents, degrees: Degrees, ghost order: seq<Name>,
                          queue: seq<Name>)
    returns (queue': seq<Name>, degrees': Degrees)
    requires queue != [] && Draining(ms, degrees, order, queue)
    requires forall d, n :: TimesUnder(dependents, d, n) == TimesListed(ms, n, d)
    ensures Draining(ms, degrees', order + [queue[0]], queue')
  {
    var next;
    DependentsHaveDegree(ms, dependents, degrees, order, queue);
    degrees', next := Release(degrees, DependentsOf(dependents, queue[0]));
    NextSorted(degrees, DependentsOf(dependents, queue[0]), degrees', next);
    next := SortBy(next, NameLess);
    EmitKeeps(ms, dependents, degrees, order, queue, degrees', next);
    queue' := queue[1..] + next;
  }

  lemma InNames(ms: seq<ModuleConfig>, inDegree: Degrees, order: seq<Name>, queue: seq<Name>)
    requires Draining(ms, inDegree, order, queue) && queue != []
    ensures queue[0] in NameSet(ms) && |order| < |NameSet(ms)|
  {
    assert (order + queue)[|order|] == queue[0];
    assert Elements(order + queue) <= NameSet(ms) by {
      assert forall n | n in Elements(order + queue) :: n in order + queue;
    }
    DistinctFits(order + queue, NameSet(ms));
  }

  lemma NextSorted(inDegree: Degrees, list: seq<Name>, inDegree': Degrees, next: seq<Name>)
    requires Released(inDegree, list, inDegree', next)
    ensures Released(inDegree, list, inDegree', SortBy(next, NameLess))
    ensures Increasing(SortBy(next, NameLess), NameLess)
  {
    NameOrder();
    SortByCorrect(next, NameLess);
    PermutedDistinct(next, SortBy(next, NameLess));
    SortedDistinctIncreases(SortBy(next, NameLess), NameLess);
  }

  /**
   The sort succeeds iff every dependency is known, no two modules share a name and nothing depends on
   itself in a circle; then it lists each module once, in the one order the modules determine.
   */
  method TopologicalSort(ms: seq<ModuleConfig>) returns (r: Result<seq<ModuleConfig>, SortError>)
    ensures r.Ok? <==> Sortable(ms)
    ensures r.Ok? ==> multiset(r.value) == multiset(ms) && KahnOrder(ms, ModuleNames(r.value))
    ensures r.Err? && r.error.UnknownDependency? <==> !DepsKnown(ms)
    ensures r.Err? && r.error.UnknownDependency? ==>
      r.error.dependency in Deps(ms, r.error.moduleName) && r.error.dependency !in NameSet(ms)
  {
    if ms == [] {
      NothingToSort();
      return Ok([]);
    }
    ModuleMapEntries(ms);
    var unknown := FindUnknown(ms, ModuleMap(ms).Keys);
    if unknown.Some? {
      return Err(UnknownDependency(unknown.value.0, unknown.value.1));
    }
    var inDegree, dependents := BuildTables(ms);
    var result;
    ghost var left;
    result, left := Drain(ms, inDegree, dependents);
    if |result| != |ms| {
      CountTellsFailure(ms, left, result);
      return Err(CircularDependency);
    }
    CountTellsSuccess(ms, left, result);
    return Ok(result);
  }

  lemma NothingToSort()
    ensures DepsKnown([]) && Distinct(ModuleNames([])) && KahnOrder([], ModuleNames([])) && !Cyclic([])
  {
    OrderedIsAcyclic([], ModuleNames([]));
  }

  lemma EmittedNames(ms: seq<ModuleConfig>, left: Degrees, order: seq<Name>)
    requires Draining(ms, left, order, [])
    ensures Distinct(order) && Elements(order) <= NameSet(ms)
    ensures DepsFirst(ms, order) && InLine(ms, order, order)
  {
    assert order + [] == order;
    assert forall n | n in Elements(order) :: n in order;
  }

  /** Fewer modules out than in: a name was repeated or a cycle kept some back. */
  lemma CountTellsFailure(ms: seq<ModuleConfig>, left: Degrees, result: seq<ModuleConfig>)
    requires Draining(ms, left, ModuleNames(result), []) && DepsKnown(ms) && |result| != |ms|
    ensures !Distinct(ModuleNames(ms)) || Cyclic(ms)
  {
    var order := ModuleNames(result);
    EmittedNames(ms, left, order);
    if Distinct(ModuleNames(ms)) {
      var x := SomeoneMissing(ModuleNames(ms), order);
      LeftoverIsCyclic(ms, left, order, x);
    }
  }

  lemma SomeoneMissing(all: seq<Name>, some: seq<Name>) returns (x: Name)
    requires Distinct(all) && Distinct(some) && Elements(some) <= Elements(all) && |some| != |all|
    ensures x in Elements(all) && x !in Elements(some)
  {
    DistinctCounts(all);
    DistinctCounts(some);
    assert Elements(some) != Elements(all);
    x :| x in Elements(all) && x !in Elements(some);
  }

  /** As many modules out as in: every name is there once, and so is every module. */
  lemma CountTellsSuccess(ms: seq<ModuleConfig>, left: Degrees, result: seq<ModuleConfig>)
    requires Draining(ms, left, ModuleNames(result), []) && |result| == |ms|
    requires forall m | m in result :: m in ms
    ensures Distinct(ModuleNames(ms)) && !Cyclic(ms)
    ensures KahnOrder(ms, ModuleNames(result)) && multiset(result) == multiset(ms)
  {
    var order := ModuleNames(result);
    EmittedNames(ms, left, order);
    ElementsAtMost(ModuleNames(ms));
    DistinctFits(order, NameSet(ms));
    OrderedIsAcyclic(ms, order);
    DistinctNamesDistinct(ms);
    DistinctNamesDistinct(result);
    DistinctFits(result, Elements(ms));
    DistinctCounts(ms);
    DistinctCounts(result);
  }

  lemma DistinctNamesDistinct(ms: seq<ModuleConfig>)
    requires Distinct(ModuleNames(ms))
    ensures Distinct(ms)
  {
    forall i, j | 0 <= i < j < |ms| ensures ms[i] != ms[j] {
      assert ModuleNames(ms)[i] != ModuleNames(ms)[j];
    }
  }

  /** Two listings of the same modules sort alike: both fail, or both give the same order of names. */
  method SortBothWays(ms: seq<ModuleConfig>, ns: seq<ModuleConfig>)
    returns (r: Result<seq<ModuleConfig>, SortError>, s: Result<seq<ModuleConfig>, SortError>)
    requires AllAmong(ms, ns) && AllAmong(ns, ms) && |ms| == |ns|
    ensures r.Ok? <==> s.Ok?
    ensures r.Ok? ==> ModuleNames(r.value) == ModuleNames(s.value)
  {
    ShuffledModules(ms, ns);
    BothOrNeither(ms, ns);
    r := TopologicalSort(ms);
    s := TopologicalSort(ns);
    if r.Ok? {
      OrderDetermined(ms, ns, ModuleNames(r.value), ModuleNames(s.value));
    }
  }

  lemma BothOrNeither(ms: seq<ModuleConfig>, ns: seq<ModuleConfig>)
    requires SameModules(ms, ns) && |ms| == |ns|
    ensures Sortable(ms) <==> Sortable(ns)
  {
    if Sortable(ms) { SameOutcome(ms, ns); }
    if Sortable(ns) { SameOutcome(ns, ms); }
  }

  lemma SameOutcome(ms: seq<ModuleConfig>, ns: seq<ModuleConfig>)
    requires SameModules(ms, ns) && |ms| == |ns|
    requires Sortable(ms)
    ensures Sortable(ns)
  {
    DistinctCounts(ModuleNames(ms));
    ElementsAtMost(ModuleNames(ns));
    forall m, d | m in ns && d in m.dependsOn ensures d in NameSet(ns) {
      DepListMembers(ns, m.name, d);
      DepListMembers(ms, m.name, d);
    }
    if c :| |c| > 1 && Chain(ns, c) && c[0] == c[|c| - 1] {
      assert Chain(ms, c);
    }
  }
}
