/** Merging schema graphs: the operation on values, its algebra, and what no merge order can change. */
module Merging {
  import opened Ordering
  import opened Schema

  /** The definitions whose name is not yet taken, in order. */
  function Unknown<T>(xs: seq<T>, nameOf: T -> Name, known: set<Name>): seq<T> {
    if xs == [] then []
    else
      var front, last := xs[..|xs| - 1], xs[|xs| - 1];
      Unknown(front, nameOf, known) + if nameOf(last) in known then [] else [last]
  }

  function MergeDefs<T(==)>(a: seq<T>, b: seq<T>, nameOf: T -> Name): seq<T> {
    a + Unknown(b, nameOf, NamesOf(a, nameOf))
  }

  /** First wins for definitions and table attributes, SCHEMAFULL wins, the last known location wins. */
  function MergeTable(a: TableDef, b: TableDef): TableDef {
    a.(full := a.full || b.full,
       fields := MergeDefs(a.fields, b.fields, FieldName),
       indexes := MergeDefs(a.indexes, b.indexes, IndexName),
       events := MergeDefs(a.events, b.events, EventName),
       source := if b.source.Some? then b.source else a.source)
  }

  function MergeTables(a: Tables, b: Tables): Tables {
    map t | t in a.Keys + b.Keys ::
      if t in a && t in b then MergeTable(a[t], b[t]) else if t in a then a[t] else b[t]
  }

  function Merge(a: Graph, b: Graph): Graph {
    Graph(MergeTables(a.tables, b.tables), b.functions + a.functions, b.params + a.params)
  }

  // --- Lists of named definitions ---

  lemma {:induction false} UnknownMembers<T(!new)>(xs: seq<T>, nameOf: T -> Name, known: set<Name>)
    ensures forall x :: x in Unknown(xs, nameOf, known) <==> x in xs && nameOf(x) !in known
  {
    if xs != [] {
      var front, last := xs[..|xs| - 1], xs[|xs| - 1];
      UnknownMembers(front, nameOf, known);
      assert xs == front + [last];
      assert forall x :: x in xs <==> x in front || x == last;
    }
  }

  lemma {:induction false} UnknownJoin<T>(xs: seq<T>, ys: seq<T>, nameOf: T -> Name, known: set<Name>)
    ensures Unknown(xs + ys, nameOf, known) == Unknown(xs, nameOf, known) + Unknown(ys, nameOf, known)
  {
    if ys == [] {
      assert xs + ys == xs;
    } else {
      var front, last := ys[..|ys| - 1], ys[|ys| - 1];
      assert (xs + ys)[..|xs + ys| - 1] == xs + front;
      UnknownJoin(xs, front, nameOf, known);
    }
  }

  lemma {:induction false} UnknownTwice<T>(xs: seq<T>, nameOf: T -> Name, known: set<Name>, more: set<Name>)
    ensures Unknown(Unknown(xs, nameOf, known), nameOf, more) == Unknown(xs, nameOf, known + more)
  {
    if xs != [] {
      var front, last := xs[..|xs| - 1], xs[|xs| - 1];
      UnknownTwice(front, nameOf, known, more);
      if nameOf(last) !in known {
        var kept := Unknown(front, nameOf, known);
        assert (kept + [last])[..|kept|] == kept;
      } else {
        assert Unknown(xs, nameOf, known) == Unknown(front, nameOf, known);
      }
    }
  }

  lemma {:induction false} AllKnown<T>(xs: seq<T>, nameOf: T -> Name, known: set<Name>)
    requires NamesOf(xs, nameOf) <= known
    ensures Unknown(xs, nameOf, known) == []
  {
    if xs != [] {
      var front, last := xs[..|xs| - 1], xs[|xs| - 1];
      assert last in xs && forall x | x in front :: x in xs;
      AllKnown(front, nameOf, known);
    }
  }

  lemma {:induction false} NoneKnown<T>(xs: seq<T>, nameOf: T -> Name)
    ensures Unknown(xs, nameOf, {}) == xs
  {
    if xs != [] {
      NoneKnown(xs[..|xs| - 1], nameOf);
      assert xs == xs[..|xs| - 1] + [xs[|xs| - 1]];
    }
  }

  lemma MergedNames<T(!new)>(a: seq<T>, b: seq<T>, nameOf: T -> Name)
    ensures NamesOf(MergeDefs(a, b, nameOf), nameOf) == NamesOf(a, nameOf) + NamesOf(b, nameOf)
  {
    UnknownMembers(b, nameOf, NamesOf(a, nameOf));
    var merged := MergeDefs(a, b, nameOf);
    forall n ensures n in NamesOf(merged, nameOf) <==> n in NamesOf(a, nameOf) + NamesOf(b, nameOf) {
      if n in NamesOf(b, nameOf) && n !in NamesOf(a, nameOf) {
        var x :| x in b && nameOf(x) == n;
        assert x in merged;
      }
    }
  }

  lemma {:induction false} UnknownUnique<T(!new)>(xs: seq<T>, nameOf: T -> Name, known: set<Name>)
    requires UniqueNames(xs, nameOf)
    ensures UniqueNames(Unknown(xs, nameOf, known), nameOf)
  {
    if xs != [] {
      var front := xs[..|xs| - 1];
      UnknownUnique(front, nameOf, known);
      UnknownMembers(front, nameOf, known);
    }
  }

  lemma MergedUnique<T(!new)>(a: seq<T>, b: seq<T>, nameOf: T -> Name)
    requires UniqueNames(a, nameOf) && UniqueNames(b, nameOf)
    ensures UniqueNames(MergeDefs(a, b, nameOf), nameOf)
  {
    UnknownUnique(b, nameOf, NamesOf(a, nameOf));
    UnknownMembers(b, nameOf, NamesOf(a, nameOf));
  }

  lemma MergeDefsAssociates<T(!new)>(a: seq<T>, b: seq<T>, c: seq<T>, nameOf: T -> Name)
    ensures MergeDefs(MergeDefs(a, b, nameOf), c, nameOf) == MergeDefs(a, MergeDefs(b, c, nameOf), nameOf)
  {
    hide Unknown, NamesOf;
    var known := NamesOf(a, nameOf);
    MergedNames(a, b, nameOf);
    UnknownJoin(b, Unknown(c, nameOf, NamesOf(b, nameOf)), nameOf, known);
    UnknownTwice(c, nameOf, NamesOf(b, nameOf), known);
    assert NamesOf(b, nameOf) + known == known + NamesOf(b, nameOf);
  }

  lemma MergeDefsIdempotent<T>(a: seq<T>, nameOf: T -> Name)
    ensures MergeDefs(a, a, nameOf) == a
  {
    AllKnown(a, nameOf, NamesOf(a, nameOf));
  }

  lemma UnknownLast<T>(xs: seq<T>, nameOf: T -> Name, known: set<Name>)
    requires xs != []
    ensures
      var front, last := xs[..|xs| - 1], xs[|xs| - 1];
      Unknown(xs, nameOf, known) == Unknown(front, nameOf, known) + if nameOf(last) in known then [] else [last]
  {
  }

  /** What is added is what had no name yet, as often as it was given. */
  lemma {:induction false} UnknownCounts<T>(xs: seq<T>, nameOf: T -> Name, known: set<Name>, x: T)
    ensures multiset(Unknown(xs, nameOf, known))[x] == if nameOf(x) in known then 0 else multiset(xs)[x]
  {
    if xs != [] {
      var front, last := xs[..|xs| - 1], xs[|xs| - 1];
      hide Unknown;
      UnknownCounts(front, nameOf, known, x);
      UnknownLast(xs, nameOf, known);
      assert xs == front + [last];
    }
  }

  /** A merged list begins with the first and goes on with what the second adds. */
  ghost predicate Extends<T(!new)>(a: seq<T>, b: seq<T>, nameOf: T -> Name, merged: seq<T>) {
    && a <= merged
    && forall x :: multiset(merged[|a|..])[x] == if exists y ::
      y in a && nameOf(y) == nameOf(x) then 0 else multiset(b)[x]
  }

  lemma MergeDefsExtend<T(!new)>(a: seq<T>, b: seq<T>, nameOf: T -> Name)
    ensures Extends(a, b, nameOf, MergeDefs(a, b, nameOf))
  {
    var merged := MergeDefs(a, b, nameOf);
    assert merged[|a|..] == Unknown(b, nameOf, NamesOf(a, nameOf));
    forall x ensures multiset(merged[|a|..])[x]
      == if exists y :: y in a && nameOf(y) == nameOf(x) then 0 else multiset(b)[x]
    {
      UnknownCounts(b, nameOf, NamesOf(a, nameOf), x);
    }
  }

  /** Of a table both have: the first's attributes, either's SCHEMAFULL flag, the last location known. */
  lemma SharedTableKeeps(a: Graph, b: Graph, t: Name)
    requires t in a.tables && t in b.tables
    ensures t in Merge(a, b).tables
    ensures
      var x, y, m := a.tables[t], b.tables[t], Merge(a, b).tables[t];
      && m.name == x.name && m.tableType == x.tableType && m.comment == x.comment && m.ns == x.ns && m.db == x.db
      && (m.full <==> x.full || y.full)
      && (y.source.Some? ==> m.source == y.source) && (y.source.None? ==> m.source == x.source)
      && Extends(x.fields, y.fields, FieldName, m.fields) && Extends(x.indexes, y.indexes, IndexName, m.indexes)
      && Extends(x.events, y.events, EventName, m.events)
  {
    MergeDefsExtend(a.tables[t].fields, b.tables[t].fields, FieldName);
    MergeDefsExtend(a.tables[t].indexes, b.tables[t].indexes, IndexName);
    MergeDefsExtend(a.tables[t].events, b.tables[t].events, EventName);
  }

  /** Everything else is the first's where it has the name, and otherwise the second's. */
  lemma OthersKept(a: Graph, b: Graph, n: Name)
    ensures n in a.tables && n !in b.tables ==> n in Merge(a, b).tables && Merge(a, b).tables[n] == a.tables[n]
    ensures n !in a.tables && n in b.tables ==> n in Merge(a, b).tables && Merge(a, b).tables[n] == b.tables[n]
    ensures n in a.functions ==> n in Merge(a, b).functions && Merge(a, b).functions[n] == a.functions[n]
    ensures n !in a.functions && n in b.functions ==>
      n in Merge(a, b).functions && Merge(a, b).functions[n] == b.functions[n]
    ensures n in a.params ==> n in Merge(a, b).params && Merge(a, b).params[n] == a.params[n]
    ensures n !in a.params && n in b.params ==> n in Merge(a, b).params && Merge(a, b).params[n] == b.params[n]
  {
  }

  // --- The algebra of merge ---

  lemma MergeTableAssociates(a: TableDef, b: TableDef, c: TableDef)
    ensures MergeTable(MergeTable(a, b), c) == MergeTable(a, MergeTable(b, c))
  {
    MergeDefsAssociates(a.fields, b.fields, c.fields, FieldName);
    MergeDefsAssociates(a.indexes, b.indexes, c.indexes, IndexName);
    MergeDefsAssociates(a.events, b.events, c.events, EventName);
  }

  lemma MergeTableIdempotent(a: TableDef)
    ensures MergeTable(a, a) == a
  {
    MergeDefsIdempotent(a.fields, FieldName);
    MergeDefsIdempotent(a.indexes, IndexName);
    MergeDefsIdempotent(a.events, EventName);
  }

  lemma MergeTablesAt(a: Tables, b: Tables, c: Tables, t: Name)
    requires t in a.Keys + b.Keys + c.Keys
    ensures MergeTables(MergeTables(a, b), c)[t] == MergeTables(a, MergeTables(b, c))[t]
  {
    if t in a && t in b && t in c {
      MergeTableAssociates(a[t], b[t], c[t]);
    }
  }

  lemma MergeTablesAssociates(a: Tables, b: Tables, c: Tables)
    ensures MergeTables(MergeTables(a, b), c) == MergeTables(a, MergeTables(b, c))
  {
    var left, right := MergeTables(MergeTables(a, b), c), MergeTables(a, MergeTables(b, c));
    assert left.Keys == a.Keys + b.Keys + c.Keys == right.Keys;
    forall t | t in left ensures left[t] == right[t] {
      MergeTablesAt(a, b, c, t);
    }
  }

  /** Grouping does not matter, down to the order of definitions and their locations. */
  lemma MergeAssociates(a: Graph, b: Graph, c: Graph)
    ensures Merge(Merge(a, b), c) == Merge(a, Merge(b, c))
  {
    MergeTablesAssociates(a.tables, b.tables, c.tables);
    assert c.functions + (b.functions + a.functions) == (c.functions + b.functions) + a.functions;
    assert c.params + (b.params + a.params) == (c.params + b.params) + a.params;
  }

  lemma MergeIdempotent(a: Graph)
    ensures Merge(a, a) == a
  {
    forall t | t in a.tables ensures MergeTable(a.tables[t], a.tables[t]) == a.tables[t] {
      MergeTableIdempotent(a.tables[t]);
    }
    assert MergeTables(a.tables, a.tables) == a.tables;
  }

  lemma MergeIdentity(a: Graph)
    ensures Merge(EMPTY_GRAPH, a) == a == Merge(a, EMPTY_GRAPH)
  {
    assert MergeTables(map[], a.tables) == a.tables == MergeTables(a.tables, map[]);
  }

  lemma MergeWellFormed(a: Graph, b: Graph)
    requires WellFormed(a.tables) && WellFormed(b.tables)
    ensures WellFormed(Merge(a, b).tables)
  {
    forall t | t in a.tables && t in b.tables
      ensures UniqueNames(MergeTable(a.tables[t], b.tables[t]).fields, FieldName)
    {
      MergedUnique(a.tables[t].fields, b.tables[t].fields, FieldName);
    }
  }

  // --- What a merged graph says, whatever the order ---

  datatype Fact =
    | Defined(table: Name)
    | Schemafull(table: Name)
    | HasField(table: Name, name: Name)
    | HasIndex(table: Name, name: Name)
    | HasEvent(table: Name, name: Name)
    | HasFunction(name: Name)
    | HasParam(name: Name)

  predicate Says(g: Graph, fact: Fact) {
    match fact
    case Defined(t) => t in g.tables
    case Schemafull(t) => t in g.tables && g.tables[t].full
    case HasField(t, n) => t in g.tables && n in NamesOf(g.tables[t].fields, FieldName)
    case HasIndex(t, n) => t in g.tables && n in NamesOf(g.tables[t].indexes, IndexName)
    case HasEvent(t, n) => t in g.tables && n in NamesOf(g.tables[t].events, EventName)
    case HasFunction(n) => n in g.functions
    case HasParam(n) => n in g.params
  }

  /** A merged graph says what either side says and nothing more. */
  lemma MergeSays(a: Graph, b: Graph, fact: Fact)
    ensures Says(Merge(a, b), fact) <==> Says(a, fact) || Says(b, fact)
  {
    hide NamesOf, MergeDefs;
    match fact {
      case HasField(t, _) =>
        if t in a.tables && t in b.tables { MergedNames(a.tables[t].fields, b.tables[t].fields, FieldName); }
      case HasIndex(t, _) =>
        if t in a.tables && t in b.tables { MergedNames(a.tables[t].indexes, b.tables[t].indexes, IndexName); }
      case HasEvent(t, _) =>
        if t in a.tables && t in b.tables { MergedNames(a.tables[t].events, b.tables[t].events, EventName); }
      case _ =>
    }
  }
}
