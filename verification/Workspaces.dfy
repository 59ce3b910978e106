/** The language server's per-file schema cache and the workspace schema merged from it. */
module Workspaces {
  import opened Ordering
  import opened Schema
  import opened Definitions
  import opened Merging
  import opened SchemaDiffs
  import opened SchemaGraphs

  type Path = string

  ghost predicate SomeFileSays(files: map<Path, Graph>, fact: Fact) {
    exists p :: p in files && Says(files[p], fact)
  }

  /** The merged schema says exactly what some cached file says. */
  ghost predicate Summarizes(g: Graph, files: map<Path, Graph>) {
    forall fact :: Says(g, fact) <==> SomeFileSays(files, fact)
  }

  /** The files merged one after another in the given order. */
  function MergedInOrder(files: map<Path, Graph>, order: seq<Path>): Graph
    requires forall p | p in order :: p in files
  {
    if order == [] then EMPTY_GRAPH
    else Merge(MergedInOrder(files, order[..|order| - 1]), files[order[|order| - 1]])
  }

  /** All the files, each once. */
  ghost predicate IsOrder(files: map<Path, Graph>, order: seq<Path>) {
    Distinct(order) && Elements(order) == files.Keys && forall p | p in order :: p in files
  }

  /** `g` is the merge of all the files in some order, each once. */
  ghost predicate MergeOf(g: Graph, files: map<Path, Graph>) {
    exists order :: IsOrder(files, order) && g == MergedInOrder(files, order)
  }

  ghost predicate AllWellFormed(files: map<Path, Graph>) {
    forall p | p in files :: WellFormed(files[p].tables)
  }

  lemma SummarizeOneMore(g: Graph, files: map<Path, Graph>, p: Path, added: Graph)
    requires p !in files && Summarizes(g, files)
    ensures Summarizes(Merge(g, added), files[p := added])
  {
    forall fact ensures Says(Merge(g, added), fact) <==> SomeFileSays(files[p := added], fact) {
      MergeSays(g, added, fact);
      if Says(added, fact) {
        assert files[p := added][p] == added;
      }
      if SomeFileSays(files, fact) {
        var q :| q in files && Says(files[q], fact);
        assert files[p := added][q] == files[q];
      }
    }
  }

  lemma NothingMerged()
    ensures MergeOf(EMPTY_GRAPH, map[])
  {
    var none: seq<Path> := [];
    assert IsOrder(map[], none);
  }

  lemma MergedNext(files: map<Path, Graph>, order: seq<Path>, p: Path)
    requires p in files && p !in Elements(order) && Distinct(order) && forall q | q in order :: q in files
    ensures Distinct(order + [p]) && Elements(order + [p]) == Elements(order) + {p}
    ensures forall q | q in order + [p] :: q in files
    ensures MergedInOrder(files, order + [p]) == Merge(MergedInOrder(files, order), files[p])
  {
    ElementsAppend(order, p);
    assert (order + [p])[..|order|] == order;
  }

  function Only(files: map<Path, Graph>, paths: seq<Path>): map<Path, Graph> {
    map p | p in files && p in paths :: files[p]
  }

  lemma NothingSummarized()
    ensures Summarizes(EMPTY_GRAPH, map[])
  {
  }

  lemma {:induction false} OrderSummarizes(files: map<Path, Graph>, order: seq<Path>)
    requires Distinct(order) && forall p | p in order :: p in files
    ensures Summarizes(MergedInOrder(files, order), Only(files, order))
  {
    if order == [] {
      NothingSummarized();
      assert Only(files, order) == map[];
    } else {
      var front, p := order[..|order| - 1], order[|order| - 1];
      assert order == front + [p];
      OrderSummarizes(files, front);
      SummarizeOneMore(MergedInOrder(files, front), Only(files, front), p, files[p]);
      OnlyOneMore(files, front, p);
    }
  }

  lemma OnlyOneMore(files: map<Path, Graph>, order: seq<Path>, p: Path)
    requires p in files
    ensures Only(files, order + [p]) == Only(files, order)[p := files[p]]
  {
  }

  lemma OnlyAll(files: map<Path, Graph>, order: seq<Path>)
    requires Elements(order) == files.Keys
    ensures Only(files, order) == files
  {
    assert forall p :: p in Elements(order) <==> p in order;
  }

  /** Two merges of one cache, whatever their orders, say the same. */
  lemma SummaryUnique(files: map<Path, Graph>, order: seq<Path>, other: seq<Path>)
    requires IsOrder(files, order) && IsOrder(files, other)
    ensures forall fact :: Says(MergedInOrder(files, order), fact) <==> Says(MergedInOrder(files, other), fact)
  {
    OrderSummarizes(files, order);
    OnlyAll(files, order);
    OrderSummarizes(files, other);
    OnlyAll(files, other);
  }

  class Workspace {
    var fileSchemas: map<Path, Graph>
    var schema: Graph

    /** The stored schema is up to date with the cache. */
    ghost predicate Valid()
      reads this
    {
      && AllWellFormed(fileSchemas) && WellFormed(schema.tables)
      && MergeOf(schema, fileSchemas) && Summarizes(schema, fileSchemas)
    }

    constructor ()
      ensures Valid() && fileSchemas == map[]
    {
      fileSchemas, schema := map[], EMPTY_GRAPH;
      new;
      NothingSummarized();
      NothingMerged();
    }

    /** One file changed: cache what it now defines, or forget it, and merge afresh. */
    method RebuildFileSchema(path: Path, parsed: Option<Graph>)
      requires Valid()
      requires parsed.Some? ==> WellFormed(parsed.value.tables)
      modifies this
      ensures Valid()
      ensures fileSchemas == if parsed.Some? then old(fileSchemas)[path := parsed.value] else old(fileSchemas) - {path}
    {
      match parsed {
        case Some(graph) => fileSchemas := fileSchemas[path := graph];
        case None => fileSchemas := fileSchemas - {path};
      }
      var merged := MergeFileSchemas();
    }

    /** Merge the cached files in whatever order the cache yields them. */
    method MergeFileSchemas() returns (merged: Graph)
      requires AllWellFormed(fileSchemas)
      modifies this`schema
      ensures Valid() && merged == schema
    {
      var g := new SchemaGraph.Default();
      var rest := fileSchemas.Keys;
      ghost var order: seq<Path> := [];
      assert Elements(order) == {};
      while rest != {}
        invariant fresh(g) && g.Valid() && rest <= fileSchemas.Keys
        invariant Distinct(order) && Elements(order) == fileSchemas.Keys - rest
        invariant (forall p | p in order :: p in fileSchemas) && g.View() == MergedInOrder(fileSchemas, order)
        modifies g
      {
        var p :| p in rest;
        MergedNext(fileSchemas, order, p);
        g.Merge(fileSchemas[p]);
        rest := rest - {p};
        order := order + [p];
      }
      OrderSummarizes(fileSchemas, order);
      OnlyAll(fileSchemas, order);
      merged := g.View();
      schema := merged;
    }
  }

  // --- Whole runs ---

  datatype FileEvent = FileEvent(path: Path, parsed: Option<Graph>)

  /** The cache after a history of file events, whatever was merged in between. */
  function CacheAfter(events: seq<FileEvent>): map<Path, Graph> {
    if events == [] then map[]
    else
      var before, e := CacheAfter(events[..|events| - 1]), events[|events| - 1];
      if e.parsed.Some? then before[e.path := e.parsed.value] else before - {e.path}
  }

  /** The last event on a path, if any. */
  function LastOn(events: seq<FileEvent>, path: Path): Option<Graph> {
    if events == [] then None
    else if events[|events| - 1].path == path then events[|events| - 1].parsed
    else LastOn(events[..|events| - 1], path)
  }

  ghost predicate LastSays(events: seq<FileEvent>, fact: Fact) {
    exists p :: LastOn(events, p).Some? && Says(LastOn(events, p).value, fact)
  }

  lemma {:induction false} CacheHoldsLast(events: seq<FileEvent>, path: Path)
    ensures path in CacheAfter(events) <==> LastOn(events, path).Some?
    ensures path in CacheAfter(events) ==> CacheAfter(events)[path] == LastOn(events, path).value
  {
    if events != [] {
      CacheHoldsLast(events[..|events| - 1], path);
    }
  }

  /** Drive a workspace through a history; only the last state of each file is left to see. */
  method RunHistory(w: Workspace, events: seq<FileEvent>)
    requires w.Valid() && w.fileSchemas == map[]
    requires forall e | e in events && e.parsed.Some? :: WellFormed(e.parsed.value.tables)
    modifies w
    ensures w.Valid() && w.fileSchemas == CacheAfter(events)
    ensures forall fact :: Says(w.schema, fact) <==> LastSays(events, fact)
  {
    for i := 0 to |events|
      invariant w.Valid() && w.fileSchemas == CacheAfter(events[..i])
    {
      assert events[..i + 1][..i] == events[..i];
      w.RebuildFileSchema(events[i].path, events[i].parsed);
    }
    assert events[..|events|] == events;
    SaysLast(w.schema, events);
  }

  lemma SaysLast(g: Graph, events: seq<FileEvent>)
    requires Summarizes(g, CacheAfter(events))
    ensures forall fact :: Says(g, fact) <==> LastSays(events, fact)
  {
    var files := CacheAfter(events);
    forall fact ensures SomeFileSays(files, fact) <==> LastSays(events, fact) {
      if SomeFileSays(files, fact) {
        var p :| p in files && Says(files[p], fact);
        CacheHoldsLast(events, p);
      }
      if LastSays(events, fact) {
        var p :| LastOn(events, p).Some? && Says(LastOn(events, p).value, fact);
        CacheHoldsLast(events, p);
      }
    }
  }

  // --- What order does decide ---

  lemma {:induction false} LookupJoin(xs: seq<FieldDef>, ys: seq<FieldDef>, n: Name)
    ensures FieldNamed(xs + ys, n) == if FieldNamed(xs, n).Some? then FieldNamed(xs, n) else FieldNamed(ys, n)
  {
    if xs == [] {
      assert xs + ys == ys;
    } else {
      assert (xs + ys)[1..] == xs[1..] + ys;
      LookupJoin(xs[1..], ys, n);
    }
  }

  lemma {:induction false} LookupUnknown(xs: seq<FieldDef>, known: set<Name>, n: Name)
    requires n !in known
    ensures FieldNamed(Unknown(xs, FieldName, known), n) == FieldNamed(xs, n)
  {
    if xs != [] {
      var front, last := xs[..|xs| - 1], xs[|xs| - 1];
      assert xs == front + [last];
      LookupUnknown(front, known, n);
      LookupJoin(front, [last], n);
      LookupJoin(Unknown(front, FieldName, known), [last], n);
      if FieldName(last) in known {
        assert Unknown(xs, FieldName, known) == Unknown(front, FieldName, known);
        assert FieldNamed([last], n) == None;
      }
    }
  }

  /** A merged list finds a field where the first list does, and otherwise where the second does. */
  lemma MergedLookup(a: seq<FieldDef>, b: seq<FieldDef>, n: Name)
    ensures FieldNamed(MergeDefs(a, b, FieldName), n)
         == if FieldNamed(a, n).Some? then FieldNamed(a, n) else FieldNamed(b, n)
  {
    var known := NamesOf(a, FieldName);
    LookupJoin(a, Unknown(b, FieldName, known), n);
    NotNamed(a, n);
    if n !in known { LookupUnknown(b, known, n); }
  }

  lemma MergedKind(a: Graph, b: Graph, p: Pair)
    ensures KindOf(Merge(a, b).tables, p)
         == if KindOf(a.tables, p).Some? then KindOf(a.tables, p) else KindOf(b.tables, p)
  {
    if p.0 in a.tables && p.0 in b.tables {
      MergedLookup(a.tables[p.0].fields, b.tables[p.0].fields, p.1);
    }
  }

  /** Every order of merging gives the field the same kind, or leaves it undefined. */
  ghost predicate KindSettled(files: map<Path, Graph>, p: Pair) {
    forall order, other | IsOrder(files, order) && IsOrder(files, other) ::
      KindOf(MergedInOrder(files, order).tables, p) == KindOf(MergedInOrder(files, other).tables, p)
  }

  /** All files that define the field give it the same kind. */
  ghost predicate DefinersAgree(files: map<Path, Graph>, p: Pair) {
    forall f, g | f in files && g in files && KindOf(files[f].tables, p).Some? && KindOf(files[g].tables, p).Some? ::
      KindOf(files[f].tables, p) == KindOf(files[g].tables, p)
  }

  /** The kind of a merge is that of one of the files merged that define the field, if any does. */
  lemma {:induction false} KindFromDefiner(files: map<Path, Graph>, order: seq<Path>, p: Pair) returns (f: Path)
    requires forall q | q in order :: q in files
    ensures KindOf(MergedInOrder(files, order).tables, p).Some? ==>
      f in order && KindOf(files[f].tables, p) == KindOf(MergedInOrder(files, order).tables, p)
    ensures KindOf(MergedInOrder(files, order).tables, p).None? ==>
      forall q | q in order :: KindOf(files[q].tables, p).None?
  {
    f := "";
    if order != [] {
      var front, last := order[..|order| - 1], order[|order| - 1];
      assert order == front + [last];
      f := KindFromDefiner(files, front, p);
      MergedKind(MergedInOrder(files, front), files[last], p);
      if KindOf(MergedInOrder(files, front).tables, p).None? { f := last; }
    }
  }

  /** A definer merged first decides. */
  lemma {:induction false} FirstDecides(files: map<Path, Graph>, f: Path, rest: seq<Path>, p: Pair)
    requires f in files && (forall q | q in rest :: q in files) && KindOf(files[f].tables, p).Some?
    ensures forall q | q in [f] + rest :: q in files
    ensures KindOf(MergedInOrder(files, [f] + rest).tables, p) == KindOf(files[f].tables, p)
  {
    var order := [f] + rest;
    if rest == [] {
      assert order[..0] == [] && order[0] == f;
      MergeIdentity(files[f]);
    } else {
      var front, last := rest[..|rest| - 1], rest[|rest| - 1];
      assert order[..|order| - 1] == [f] + front && order[|order| - 1] == last;
      FirstDecides(files, f, front, p);
      MergedKind(MergedInOrder(files, [f] + front), files[last], p);
    }
  }

  lemma OrderStartingWith(files: map<Path, Graph>, f: Path) returns (rest: seq<Path>)
    requires f in files
    ensures IsOrder(files, [f] + rest) && forall q | q in rest :: q in files
  {
    rest := EnumerationExists(files.Keys - {f});
    assert forall q :: q in rest <==> q in Elements(rest);
    assert Elements([f] + rest) == files.Keys;
  }

  lemma AgreementSettles(files: map<Path, Graph>, order: seq<Path>, other: seq<Path>, p: Pair)
    requires IsOrder(files, order) && IsOrder(files, other) && DefinersAgree(files, p)
    ensures KindOf(MergedInOrder(files, order).tables, p) == KindOf(MergedInOrder(files, other).tables, p)
  {
    var f := KindFromDefiner(files, order, p);
    var g := KindFromDefiner(files, other, p);
    SameMembers(files, order, other);
  }

  lemma SameMembers(files: map<Path, Graph>, order: seq<Path>, other: seq<Path>)
    requires IsOrder(files, order) && IsOrder(files, other)
    ensures forall q :: q in order <==> q in other
  {
    assert forall q :: q in order <==> q in Elements(order);
    assert forall q :: q in other <==> q in Elements(other);
  }

  lemma DisagreementUnsettles(files: map<Path, Graph>, f: Path, g: Path, p: Pair)
    requires f in files && g in files
    requires KindOf(files[f].tables, p).Some? && KindOf(files[g].tables, p).Some?
    requires KindOf(files[f].tables, p) != KindOf(files[g].tables, p)
    ensures !KindSettled(files, p)
  {
    hide KindOf, MergedInOrder;
    var afterF := OrderStartingWith(files, f);
    var afterG := OrderStartingWith(files, g);
    FirstDecides(files, f, afterF, p);
    FirstDecides(files, g, afterG, p);
    var order, other := [f] + afterF, [g] + afterG;
    assert KindOf(MergedInOrder(files, order).tables, p) != KindOf(MergedInOrder(files, other).tables, p);
  }

  /** The kind a workspace gives a field is independent of the merge order iff the files that define it agree on it. */
  lemma KindSettledIff(files: map<Path, Graph>, p: Pair)
    ensures KindSettled(files, p) <==> DefinersAgree(files, p)
  {
    if DefinersAgree(files, p) {
      forall order, other | IsOrder(files, order) && IsOrder(files, other)
        ensures KindOf(MergedInOrder(files, order).tables, p) == KindOf(MergedInOrder(files, other).tables, p)
      {
        AgreementSettles(files, order, other, p);
      }
    } else {
      var f, g :| f in files && g in files && KindOf(files[f].tables, p).Some? && KindOf(files[g].tables, p).Some?
        && KindOf(files[f].tables, p) != KindOf(files[g].tables, p);
      DisagreementUnsettles(files, f, g, p);
    }
  }

  /** Two files that give one field different kinds: each order keeps the first. */
  lemma OrderPicksTheKind(t: TableDef, f: FieldDef, g: FieldDef)
    requires f.name == g.name && f.kind != g.kind
    ensures
      var a := Graph(map[t.name := t.(fields := [f])], map[], map[]);
      var b := Graph(map[t.name := t.(fields := [g])], map[], map[]);
      Merge(a, b).tables[t.name].fields == [f] && Merge(b, a).tables[t.name].fields == [g]
  {
    NamesOfOne(f, FieldName);
    NamesOfOne(g, FieldName);
    AllKnown([g], FieldName, {f.name});
    AllKnown([f], FieldName, {g.name});
  }
}
