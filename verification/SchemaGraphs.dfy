/** The queryable schema graph: building, merging, indexing and traversing it. */
module SchemaGraphs {
  import opened Ordering
  import opened Schema
  import opened Definitions
  import opened Merging
  import opened Walks
  import opened Reachability
  import opened DependencyTrees

  // Where a field stands: its table and its position in the table's list.
  type Place = (Name, nat)

  ghost predicate FieldAt(tables: Tables, n: Name, p: Place) {
    p.0 in tables && p.1 < |tables[p.0].fields| && tables[p.0].fields[p.1].name == n
  }

  /** The index lists, under each name, every place of a field so named, once. */
  ghost predicate IndexAgrees(tables: Tables, index: map<Name, seq<Place>>) {
    && (forall n | n in index :: Distinct(index[n]))
    && (forall n, p: Place :: n in index && p in index[n] <==> FieldAt(tables, n, p))
  }

  /** The index of the places visited so far: whole tables, and the first fields of one more. */
  ghost predicate IndexesSoFar(tables: Tables, done: set<Name>, cur: Name, upto: nat, index: map<Name, seq<Place>>) {
    && (forall n | n in index :: Distinct(index[n]))
    && (forall n, p: Place :: n in index && p in index[n] <==>
          FieldAt(tables, n, p) && (p.0 in done || (p.0 == cur && p.1 < upto)))
  }

  lemma NothingIndexed(tables: Tables)
    ensures IndexesSoFar(tables, {}, "", 0, map[])
  {
  }

  lemma TableBegun(tables: Tables, done: set<Name>, t: Name, index: map<Name, seq<Place>>)
    requires IndexesSoFar(tables, done, "", 0, index)
    ensures IndexesSoFar(tables, done, t, 0, index)
  {
  }

  /** One more field is a place no list has yet. */
  lemma IndexGrows(tables: Tables, done: set<Name>, t: Name, i: nat, index: map<Name, seq<Place>>)
    requires t in tables && t !in done && i < |tables[t].fields| && IndexesSoFar(tables, done, t, i, index)
    ensures
      var n := tables[t].fields[i].name;
      IndexesSoFar(tables, done, t, i + 1, index[n := (if n in index then index[n] else []) + [(t, i)]])
  {
  }

  lemma WholeTableIndexed(tables: Tables, done: set<Name>, t: Name, index: map<Name, seq<Place>>)
    requires t in tables && IndexesSoFar(tables, done, t, |tables[t].fields|, index)
    ensures IndexesSoFar(tables, done + {t}, "", 0, index)
  {
  }

  lemma AllIndexed(tables: Tables, index: map<Name, seq<Place>>)
    requires IndexesSoFar(tables, tables.Keys, "", 0, index)
    ensures IndexAgrees(tables, index)
  {
  }

  predicate EqualIgnoringCase(a: string, b: string) {
    |a| == |b| && forall i | 0 <= i < |a| :: AsciiLower(a[i]) == AsciiLower(b[i])
  }

  function AsciiLower(c: char): char {
    if 'A' <= c <= 'Z' then c + 32 as char else c
  }

  /** A table or filter that names no namespace or database matches any. */
  predicate ScopePartMatches(part: Option<string>, filter: Option<string>) {
    part.Some? && filter.Some? ==> EqualIgnoringCase(part.value, filter.value)
  }

  predicate InScope(t: TableDef, ns: Option<string>, db: Option<string>) {
    ScopePartMatches(t.ns, ns) && ScopePartMatches(t.db, db)
  }

  /** One is the other, or its ASCII capital. */
  predicate SameLetter(c: char, d: char) {
    || c == d
    || ('A' <= c <= 'Z' && d as int == c as int + 32)
    || ('A' <= d <= 'Z' && c as int == d as int + 32)
  }

  predicate SameLetters(a: string, b: string) {
    |a| == |b| && forall i | 0 <= i < |a| :: SameLetter(a[i], b[i])
  }

  lemma AsciiLowerMeans(c: char, d: char)
    ensures AsciiLower(c) == AsciiLower(d) <==> SameLetter(c, d)
  {
  }

  /** In scope are the tables whose namespace and database, where both sides name one, differ at most in ASCII case. */
  lemma InScopeIff(t: TableDef, ns: Option<string>, db: Option<string>)
    ensures InScope(t, ns, db) <==> (
      && (t.ns.None? || ns.None? || SameLetters(t.ns.value, ns.value))
      && (t.db.None? || db.None? || SameLetters(t.db.value, db.value)))
  {
    forall c, d ensures AsciiLower(c) == AsciiLower(d) <==> SameLetter(c, d) { AsciiLowerMeans(c, d); }
  }

  function FunctionName(f: FunctionDef): Name { f.name }

  function ParamName(p: ParamDef): Name { p.name }

  method DeclareTables(defs: SchemaDefinitions) returns (tables: Tables)
    ensures tables == DescribedTables(Upto(defs, |defs.tables|, 0, 0, 0))
  {
    tables := map[];
    for i := 0 to |defs.tables|
      invariant tables == DescribedTables(Upto(defs, i, 0, 0, 0))
    {
      TableStepAt(defs, i);
      tables := tables[defs.tables[i].name := NewTable(defs.tables[i], defs.ns, defs.db)];
    }
  }

  method DeclareFields(defs: SchemaDefinitions, declared: Tables) returns (tables: Tables)
    requires declared == DescribedTables(Upto(defs, |defs.tables|, 0, 0, 0))
    ensures tables == DescribedTables(Upto(defs, |defs.tables|, |defs.fields|, 0, 0))
  {
    tables := declared;
    for i := 0 to |defs.fields|
      invariant tables == DescribedTables(Upto(defs, |defs.tables|, i, 0, 0))
    {
      FieldStepAt(defs, i);
      tables := DeclareField(tables, defs.fields[i].0, defs.fields[i].1, defs.ns, defs.db);
    }
  }

  method DeclareIndexes(defs: SchemaDefinitions, declared: Tables) returns (tables: Tables)
    requires declared == DescribedTables(Upto(defs, |defs.tables|, |defs.fields|, 0, 0))
    ensures tables == DescribedTables(Upto(defs, |defs.tables|, |defs.fields|, |defs.indexes|, 0))
  {
    tables := declared;
    for i := 0 to |defs.indexes|
      invariant tables == DescribedTables(Upto(defs, |defs.tables|, |defs.fields|, i, 0))
    {
      IndexStepAt(defs, i);
      tables := DeclareIndex(tables, defs.indexes[i].0, defs.indexes[i].1);
    }
  }

  method DeclareEvents(defs: SchemaDefinitions, declared: Tables) returns (tables: Tables)
    requires declared == DescribedTables(Upto(defs, |defs.tables|, |defs.fields|, |defs.indexes|, 0))
    ensures tables == DescribedTables(defs)
  {
    tables := declared;
    for i := 0 to |defs.events|
      invariant tables == DescribedTables(Upto(defs, |defs.tables|, |defs.fields|, |defs.indexes|, i))
    {
      EventStepAt(defs, i);
      tables := DeclareEvent(tables, defs.events[i].0, defs.events[i].1);
    }
    UptoAll(defs);
  }

  /** The fields at the given places; a place that no longer exists is skipped. */
  function Resolve(tables: Tables, places: seq<Place>): seq<(Name, FieldDef)> {
    if places == [] then []
    else
      var front, (t, i) := Resolve(tables, places[..|places| - 1]), places[|places| - 1];
      if t in tables && i < |tables[t].fields| then front + [(t, tables[t].fields[i])] else front
  }

  lemma {:induction false} ResolveAll(tables: Tables, n: Name, places: seq<Place>)
    requires forall i | 0 <= i < |places| :: FieldAt(tables, n, places[i])
    ensures |Resolve(tables, places)| == |places|
    ensures forall i | 0 <= i < |places| ::
      && FieldAt(tables, n, places[i])
      && Resolve(tables, places)[i] == (places[i].0, tables[places[i].0].fields[places[i].1])
  {
    if places != [] {
      var front := places[..|places| - 1];
      ResolveAll(tables, n, front);
      assert FieldAt(tables, n, places[|places| - 1]);
    }
  }

  lemma PlacesDiffer(tables: Tables, n: Name, p: Place, q: Place)
    requires WellFormed(tables) && FieldAt(tables, n, p) && FieldAt(tables, n, q) && p != q
    ensures p.0 != q.0
  {
    assert FieldName(tables[p.0].fields[p.1]) == n == FieldName(tables[q.0].fields[q.1]);
  }

  /** In a well-formed graph a complete list of places resolves to the fields of the name, one per table. */
  lemma ResolveExact(tables: Tables, n: Name, places: seq<Place>)
    requires WellFormed(tables) && Distinct(places)
    requires forall p: Place :: p in places <==> FieldAt(tables, n, p)
    ensures |Resolve(tables, places)| == |places|
    ensures forall t, f :: (t, f) in Resolve(tables, places) <==> t in tables && f in tables[t].fields && f.name == n
    ensures forall i, j | 0 <= i < j < |places| :: Resolve(tables, places)[i].0 != Resolve(tables, places)[j].0
  {
    hide Resolve;
    ResolveAll(tables, n, places);
    var found := Resolve(tables, places);
    forall t, f | t in tables && f in tables[t].fields && f.name == n ensures (t, f) in found {
      var k :| 0 <= k < |tables[t].fields| && tables[t].fields[k] == f;
      assert FieldAt(tables, n, (t, k));
      var i :| 0 <= i < |places| && places[i] == (t, k);
      assert found[i] == (t, f);
    }
    forall i, j | 0 <= i < j < |places| ensures found[i].0 != found[j].0 {
      PlacesDiffer(tables, n, places[i], places[j]);
    }
  }

  /** A field of the first name stands before one of the second. */
  ghost predicate StandsBefore(fields: seq<FieldDef>, m: Name, n: Name) {
    exists i, j :: 0 <= i < j < |fields| && fields[i].name == m && fields[j].name == n
  }

  /** The fields of table `t` that link to `target`, in order. */
  method FieldsLinking(t: Name, fields: seq<FieldDef>, target: Name) returns (found: seq<(Name, Name)>)
    requires UniqueNames(fields, FieldName)
    ensures forall r | r in found :: r.0 == t
    ensures forall f :: (t, f) in found <==> exists d :: d in fields && d.name == f && target in d.recordLinks
    ensures Distinct(found)
    ensures forall i, j | 0 <= i < j < |found| :: StandsBefore(fields, found[i].1, found[j].1)
  {
    found := [];
    for m := 0 to |fields|
      invariant forall r | r in found :: r.0 == t
      invariant forall f :: (t, f) in found <==> exists d :: d in fields[..m] && d.name == f && target in d.recordLinks
      invariant Distinct(found)
      invariant forall i | 0 <= i < |found| :: exists k :: 0 <= k < m && fields[k].name == found[i].1
      invariant forall i, j | 0 <= i < j < |found| :: StandsBefore(fields, found[i].1, found[j].1)
    {
      assert fields[..m + 1] == fields[..m] + [fields[m]];
      assert forall d | d in fields[..m] :: FieldName(d) != FieldName(fields[m]);
      if target in fields[m].recordLinks {
        found := found + [(t, fields[m].name)];
      }
    }
    assert fields[..|fields|] == fields;
  }

  /** The references found in the first `k` tables. */
  ghost predicate ReferencesOf(tables: Tables, names: seq<Name>, k: nat, target: Name, refs: seq<(Name, Name)>)
    requires k <= |names|
  {
    && (forall t, f :: (t, f) in refs <==> t in names[..k] && Links(tables, t, f, target))
    && Distinct(refs)
    && InReferenceOrder(tables, refs)
  }

  /** By table name, and within a table by the position of the field. */
  ghost predicate InReferenceOrder(tables: Tables, refs: seq<(Name, Name)>) {
    forall i, j | 0 <= i < j < |refs| ::
      NameLess(refs[i].0, refs[j].0)
      || (refs[i].0 == refs[j].0 && refs[i].0 in tables && StandsBefore(tables[refs[i].0].fields, refs[i].1, refs[j].1))
  }

  lemma MoreReferences(tables: Tables, names: seq<Name>, k: nat, target: Name, refs: seq<(Name, Name)>,
                       found: seq<(Name, Name)>)
    requires k < |names| && names[k] in tables && Increasing(names, NameLess)
    requires ReferencesOf(tables, names, k, target, refs)
    requires forall r | r in found :: r.0 == names[k]
    requires forall f :: (names[k], f) in found <==> Links(tables, names[k], f, target)
    requires Distinct(found)
    requires forall i, j | 0 <= i < j < |found| :: StandsBefore(tables[names[k]].fields, found[i].1, found[j].1)
    ensures ReferencesOf(tables, names, k + 1, target, refs + found)
  {
    var all := refs + found;
    assert names[..k + 1] == names[..k] + [names[k]];
    NameOrder();
    forall r | r in refs ensures NameLess(r.0, names[k]) {
      assert (r.0, r.1) in refs;
      var i :| 0 <= i < k && names[i] == r.0;
    }
    forall i, j | 0 <= i < j < |all| ensures all[i] != all[j] {
      if i < |refs| <= j {
        assert all[i] in refs && all[j] in found;
      }
    }
    forall t, f ensures (t, f) in all <==> t in names[..k + 1] && Links(tables, t, f, target) {
      if (t, f) in found { assert t == names[k]; }
    }
  }

  /** Push the definitions whose names the list did not have on entry. */
  method AppendUnknown<T(==)>(existing: seq<T>, incoming: seq<T>, nameOf: T -> Name) returns (all: seq<T>)
    ensures all == MergeDefs(existing, incoming, nameOf)
  {
    var known := NamesOf(existing, nameOf);
    all := existing;
    for i := 0 to |incoming|
      invariant all == existing + Unknown(incoming[..i], nameOf, known)
    {
      assert incoming[..i + 1][..i] == incoming[..i];
      if nameOf(incoming[i]) !in known {
        all := all + [incoming[i]];
      }
    }
    assert incoming[..|incoming|] == incoming;
  }

  method MergeInto(existing: TableDef, table: TableDef) returns (merged: TableDef)
    ensures merged == MergeTable(existing, table)
  {
    merged := existing;
    if table.full {
      merged := merged.(full := true);
    }
    var fields := AppendUnknown(existing.fields, table.fields, FieldName);
    var indexes := AppendUnknown(existing.indexes, table.indexes, IndexName);
    var events := AppendUnknown(existing.events, table.events, EventName);
    merged := merged.(fields := fields, indexes := indexes, events := events);
    if table.source.Some? {
      merged := merged.(source := table.source);
    }
  }

  /** Merge the tables of `b` into those of `a`, in any order. */
  method MergeAllTables(a: Tables, b: Tables) returns (tables: Tables)
    ensures tables == MergeTables(a, b)
  {
    tables := a;
    var rest := b.Keys;
    ghost var done: Tables := map[];
    assert MergeTables(a, done) == a;
    hide MergeTables, MergeTable;
    while rest != {}
      invariant rest <= b.Keys && done.Keys == b.Keys - rest && forall t | t in done :: done[t] == b[t]
      invariant tables == MergeTables(a, done)
    {
      var t :| t in rest;
      MergeOneMore(a, b, done, t);
      NotYetMerged(a, done, t);
      if t in tables {
        var merged := MergeInto(tables[t], b[t]);
        tables := tables[t := merged];
      } else {
        tables := tables[t := b[t]];
      }
      rest := rest - {t};
      done := done[t := b[t]];
    }
    assert done == b;
  }

  /** Insert the entries whose key is vacant, in any order. */
  method KeepFirst<T>(first: map<Name, T>, other: map<Name, T>) returns (all: map<Name, T>)
    ensures all == other + first
  {
    all := first;
    var rest := other.Keys;
    while rest != {}
      invariant rest <= other.Keys
      invariant all == (other - rest) + first
    {
      var n :| n in rest;
      if n !in all {
        all := all[n := other[n]];
      }
      rest := rest - {n};
    }
    assert other - {} == other;
  }

  lemma NotYetMerged(a: Tables, done: Tables, t: Name)
    requires t !in done
    ensures t in MergeTables(a, done) <==> t in a
    ensures t in a ==> MergeTables(a, done)[t] == a[t]
  {
  }

  lemma MergeOneMore(a: Tables, b: Tables, done: Tables, t: Name)
    requires t in b && t !in done
    ensures MergeTables(a, done[t := b[t]])
         == MergeTables(a, done)[t := if t in a then MergeTable(a[t], b[t]) else b[t]]
  {
  }

  /** `visited` holds the ancestors and comes back as it was; `nodeCount` counts the nodes built. */
  method BuildSubtree(tables: Tables, t: Name, via: Option<Name>, depth: nat, visited: set<Name>, nodeCount: nat,
                      ghost level: nat)
    returns (node: Node, visited': set<Name>, nodeCount': nat)
    requires nodeCount < MAX_NODES
    ensures visited' == visited
    ensures nodeCount' == nodeCount + Size(node) <= MAX_NODES
    ensures CutFrom(node, Unfold(tables, t, via, depth, visited), level, MAX_NODES - nodeCount)
    ensures CyclesMarked(node, visited)
    ensures ChildrenOrdered(node) && node.table == t && node.field == via
    decreases depth
  {
    hide ChildrenOrdered;
    hide Unfold, CutFrom, CutsFrom, CyclesMarked, Size, Preorder, PreorderAll, SortedLinks;
    UnfoldShape(tables, t, via, depth, visited);
    nodeCount', visited' := nodeCount + 1, visited;
    if t in visited' {
      node := Node(t, via, [], true);
      LeafOrdered(node);
      NodeMarked(node, visited);
      LeafCut(node, level, MAX_NODES - nodeCount);
      return;
    }
    visited' := visited' + {t};
    var children: seq<Node> := [];
    ghost var whole := Unfold(tables, t, via, depth, visited);
    NoChildYet(whole.children, level + 1, MAX_NODES - nodeCount - 1);
    if depth > 0 && nodeCount' < MAX_NODES && t in tables {
      var links := SortedLinks(tables[t]);
      var k := 0;
      while k < |links|
        invariant k <= |links| == |whole.children|
        invariant visited' == visited + {t} && nodeCount' <= MAX_NODES
        invariant nodeCount' == nodeCount + 1 + |PreorderAll(children, level + 1)|
        invariant CutsFrom(children, whole.children[..k], level + 1, MAX_NODES - nodeCount - 1)
        invariant forall c | c in children :: CyclesMarked(c, visited + {t})
        invariant |children| == k && forall c | c in children :: ChildrenOrdered(c)
        invariant forall i | 0 <= i < k :: children[i].table == links[i].1 && children[i].field == Some(links[i].0)
      {
        if nodeCount' >= MAX_NODES {
          break;
        }
        UnfoldChild(tables, t, via, depth, visited, k);
        var child;
        child, visited', nodeCount' :=
          BuildSubtree(tables, links[k].1, Some(links[k].0), depth - 1, visited', nodeCount', level + 1);
        ChildAppended(children, whole.children, k, child, level + 1, MAX_NODES - nodeCount - 1);
        children := children + [child];
        k := k + 1;
      }
      CutShort(children, whole.children, k, level + 1, MAX_NODES - nodeCount - 1);
      FirstLinksOrdered(tables[t], Node(t, via, children, false));
    } else {
      LeafOrdered(Node(t, via, children, false));
    }
    visited' := visited' - {t};
    node := Node(t, via, children, false);
    NodeMarked(node, visited);
    NodeCut(node, whole, level, MAX_NODES - nodeCount);
  }

  /** Follow every link of the current table, field by field. */
  method Expand(fields: seq<FieldDef>, cur: Reached, s: Frontier) returns (s': Frontier)
    ensures s' == VisitFields(s, cur, fields)
  {
    s' := s;
    for i := 0 to |fields|
      invariant s' == VisitFields(s, cur, fields[..i])
    {
      assert fields[..i + 1][..i] == fields[..i];
      var links := fields[i].recordLinks;
      ghost var before := s';
      for j := 0 to |links|
        invariant s' == VisitLinks(before, cur, fields[i].name, links[..j])
      {
        assert links[..j + 1][..j] == links[..j];
        var newPath := cur.path + [Hop(cur.table, fields[i].name)];
        if links[j] !in s'.visited {
          var found := Reached(links[j], cur.depth + 1, newPath);
          s' := Frontier(s'.visited + {links[j]}, s'.queue + [found], s'.results + [found]);
        }
      }
      assert links[..|links|] == links;
    }
    assert fields[..|fields|] == fields;
  }

  /** Breadth-first search along record links, bounded in depth. */
  method Search(tables: Tables, start: Name, maxDepth: nat) returns (results: seq<Reached>)
    ensures IsReachableListing(tables, start, maxDepth, results)
  {
    if start !in tables {
      UndefinedStart(tables, start, maxDepth);
      return [];
    }
    var s := Frontier({start}, [Reached(start, 0, [])], []);
    ghost var dist := map[start := 0];
    ghost var d := 0;
    while s.queue != []
      invariant s.visited == dist.Keys
      invariant Searching(tables, start, maxDepth, d, dist, s.queue, s.results)
      invariant Closed(tables, maxDepth, dist, TablesOf(s.queue))
      decreases |Universe(tables, start)| - |s.results|, |s.queue|
    {
      PopFront(tables, start, maxDepth, d, dist, s.queue, s.results);
      ResultsFit(tables, start, maxDepth, d, dist, s.queue, s.results);
      var cur := s.queue[0];
      s := s.(queue := s.queue[1..]);
      d := cur.depth;
      if cur.depth >= maxDepth {
        continue;
      }
      if cur.table !in tables {
        continue;
      }
      dist := ExpandKeeps(tables, start, maxDepth, cur, dist, s);
      s := Expand(tables[cur.table].fields, cur, s);
      ResultsFit(tables, start, maxDepth, d, dist, s.queue, s.results);
    }
    SearchedIsListing(tables, start, maxDepth, d, dist, s.results);
    results := SortBy(s.results, ReachedLess);
  }

  class SchemaGraph {
    var tables: Tables
    var functions: map<Name, FunctionDef>
    var params: map<Name, ParamDef>
    var fieldIndex: map<Name, seq<Place>>

    ghost predicate Valid()
      reads this
    {
      WellFormed(tables) && IndexAgrees(tables, fieldIndex)
    }

    function View(): Graph
      reads this
    {
      Graph(tables, functions, params)
    }

    constructor Default()
      ensures Valid() && View() == EMPTY_GRAPH
    {
      tables, functions, params, fieldIndex := map[], map[], map[], map[];
    }

    constructor FromDefinitions(defs: SchemaDefinitions)
      ensures Valid()
      ensures View() == Graph(DescribedTables(defs), LastNamed(defs.functions, FunctionName),
                              LastNamed(defs.params, ParamName))
      ensures forall i | LastOfName(defs.tables, StatementName, i) ::
        var s := defs.tables[i];
        && s.name in tables
        && var t := tables[s.name];
           t.full == s.full && t.tableType == s.tableType && t.comment == s.comment && t.ns == defs.ns
             && t.db == defs.db
      ensures forall n | n in tables && (forall s | s in defs.tables :: s.name != n) ::
        !tables[n].full && tables[n].tableType == "Any" && tables[n].ns == defs.ns && tables[n].db == defs.db
      ensures forall i | LastOfName(defs.functions, FunctionName, i) ::
        defs.functions[i].name in functions && functions[defs.functions[i].name] == defs.functions[i]
      ensures forall i | LastOfName(defs.params, ParamName, i) ::
        defs.params[i].name in params && params[defs.params[i].name] == defs.params[i]
    {
      tables, functions, params, fieldIndex := map[], map[], map[], map[];
      new;
      var declared := DeclareTables(defs);
      declared := DeclareFields(defs, declared);
      declared := DeclareIndexes(defs, declared);
      declared := DeclareEvents(defs, declared);
      DescribedWellFormed(defs);
      tables := declared;
      DeclareRest(defs);
      AttributesDescribed(defs);
      LastKept(defs.functions, FunctionName);
      LastKept(defs.params, ParamName);
    }

    /** The last definition of a function or parameter name wins. */
    method DeclareRest(defs: SchemaDefinitions)
      requires WellFormed(tables) && functions == map[] && params == map[]
      modifies this
      ensures Valid() && tables == old(tables)
      ensures functions == LastNamed(defs.functions, FunctionName) && params == LastNamed(defs.params, ParamName)
    {
      for i := 0 to |defs.functions|
        invariant functions == LastNamed(defs.functions[..i], FunctionName)
        invariant params == map[] && tables == old(tables)
      {
        LastNamedStep(defs.functions, FunctionName, i);
        functions := functions[defs.functions[i].name := defs.functions[i]];
      }
      assert defs.functions[..|defs.functions|] == defs.functions;
      for i := 0 to |defs.params|
        invariant params == LastNamed(defs.params[..i], ParamName)
        invariant functions == LastNamed(defs.functions, FunctionName) && tables == old(tables)
      {
        LastNamedStep(defs.params, ParamName, i);
        params := params[defs.params[i].name := defs.params[i]];
      }
      assert defs.params[..|defs.params|] == defs.params;
      RebuildFieldIndex();
    }

    /** Tables come in no particular order; every field of each is listed under its name. */
    method RebuildFieldIndex()
      modifies this`fieldIndex
      ensures IndexAgrees(tables, fieldIndex)
    {
      hide IndexesSoFar;
      fieldIndex := map[];
      var rest := tables.Keys;
      ghost var done: set<Name> := {};
      NothingIndexed(tables);
      while rest != {}
        invariant rest <= tables.Keys && done == tables.Keys - rest
        invariant IndexesSoFar(tables, done, "", 0, fieldIndex)
      {
        var t :| t in rest;
        var fields := tables[t].fields;
        TableBegun(tables, done, t, fieldIndex);
        for i := 0 to |fields|
          invariant IndexesSoFar(tables, done, t, i, fieldIndex)
        {
          var n := fields[i].name;
          IndexGrows(tables, done, t, i, fieldIndex);
          var listed := if n in fieldIndex then fieldIndex[n] else [];
          fieldIndex := fieldIndex[n := listed + [(t, i)]];
        }
        WholeTableIndexed(tables, done, t, fieldIndex);
        rest, done := rest - {t}, done + {t};
      }
      assert done == tables.Keys;
      AllIndexed(tables, fieldIndex);
    }

    /** The fields of a given name, looked up through the index; a stale entry would be dropped. */
    function FindField(n: Name): (found: seq<(Name, FieldDef)>)
      requires Valid()
      reads this
      ensures forall t, f :: (t, f) in found <==> t in tables && f in tables[t].fields && f.name == n
      ensures forall i, j | 0 <= i < j < |found| :: found[i].0 != found[j].0
      ensures n in fieldIndex ==> |found| == |fieldIndex[n]|
    {
      var places := if n in fieldIndex then fieldIndex[n] else [];
      ResolveExact(tables, n, places);
      Resolve(tables, places)
    }

    method Merge(other: Graph)
      requires Valid() && WellFormed(other.tables)
      modifies this
      ensures Valid()
      ensures View() == Merging.Merge(old(View()), other)
    {
      MergeWellFormed(View(), other);
      tables := MergeAllTables(tables, other.tables);
      functions := KeepFirst(functions, other.functions);
      params := KeepFirst(params, other.params);
      RebuildFieldIndex();
    }

    /** The tables of one namespace and database, with everything else kept. */
    method Scoped(ns: Option<string>, db: Option<string>) returns (g: SchemaGraph)
      requires Valid()
      ensures fresh(g) && g.Valid()
      ensures g.functions == functions && g.params == params
      ensures forall t :: t in g.tables <==> t in tables && InScope(tables[t], ns, db)
      ensures forall t | t in g.tables :: g.tables[t] == tables[t]
    {
      g := new SchemaGraph.Default();
      g.tables := map t | t in tables && InScope(tables[t], ns, db) :: tables[t];
      g.functions, g.params := functions, params;
      g.RebuildFieldIndex();
    }

    /** The fields that link to `target`: its incoming edges, by table name and then by position. */
    method TablesReferencing(target: Name) returns (results: seq<(Name, Name)>)
      requires Valid()
      ensures forall t, f :: (t, f) in results <==> Links(tables, t, f, target)
      ensures Distinct(results) && InReferenceOrder(tables, results)
    {
      results := [];
      var names := SortedMembers(tables.Keys);
      assert forall t :: t in tables <==> t in Elements(names);
      for k := 0 to |names|
        invariant ReferencesOf(tables, names, k, target, results)
      {
        var found := FieldsLinking(names[k], tables[names[k]].fields, target);
        MoreReferences(tables, names, k, target, results, found);
        results := results + found;
      }
    }

    /** Breadth-first search along record links, bounded in depth; the start is not reported. */
    method TablesReachableFrom(start: Name, maxDepth: nat) returns (results: seq<Reached>)
      ensures IsReachableListing(tables, start, maxDepth, results)
    {
      results := Search(tables, start, maxDepth);
    }

    /** The dependency tree of `root`: the first nodes, in visiting order, of the whole unfolding. */
    method DependencyTree(root: Name, maxDepth: nat) returns (tree: Node)
      ensures Preorder(tree, 0) == Take(Preorder(Unfold(tables, root, None, maxDepth, {}), 0), MAX_NODES)
      ensures Size(tree) < MAX_NODES ==> tree == Unfold(tables, root, None, maxDepth, {})
      ensures CyclesMarked(tree, {}) && ChildrenOrdered(tree)
      ensures Size(tree) <= 1000 && (Size(tree) < 1000 ==> LinksComplete(tables, tree, maxDepth))
      ensures forall e | e in Preorder(tree, 0) :: e.level <= maxDepth
    {
      var visited, nodeCount;
      tree, visited, nodeCount := BuildSubtree(tables, root, None, maxDepth, {}, 0, 0);
      UnfoldHeight(tables, root, None, maxDepth, {}, 0);
      UnfoldComplete(tables, root, None, maxDepth, {});
    }

    /** The two traversals side by side, as a forward query reports them. */
    method ForwardTraversal(table: Name, depth: nat) returns (reachable: seq<Reached>, tree: Node)
      ensures IsReachableListing(tables, table, depth, reachable)
      ensures forall e | e in Preorder(tree, 0) && e.table != table :: ReportedBy(reachable, e.table, e.level)
      ensures
        var visited := Take(Preorder(Unfold(tables, table, None, depth, {}), 0), MAX_NODES);
        forall r | r in reachable :: LeastDepth(tree, r.table, r.depth) <==> Shows(visited, r.table, r.depth)
      ensures |reachable| >= MAX_NODES ==> exists r :: r in reachable && !Stands(tree, r.table)
      ensures Size(tree) < MAX_NODES ==>
        && (forall t | t != table :: Stands(tree, t) <==> t in TablesOf(reachable))
        && (forall r | r in reachable :: LeastDepth(tree, r.table, r.depth))
    {
      reachable := TablesReachableFrom(table, depth);
      tree := DependencyTree(table, depth);
      TraversalsAgree(tables, table, depth, reachable);
      CutNodesReported(tables, table, depth, reachable, tree);
      forall r | r in reachable
        ensures LeastDepth(tree, r.table, r.depth)
          <==> Shows(Take(Preorder(Unfold(tables, table, None, depth, {}), 0), MAX_NODES), r.table, r.depth)
      {
        CutShowsIff(tables, table, depth, reachable, tree, r);
      }
      if |reachable| >= MAX_NODES { CapHidesTable(tables, table, depth, reachable, tree); }
    }
  }
}
