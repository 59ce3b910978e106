/** The definition lists a parsed source yields, and the tables they describe. */
module Definitions {
  import opened Ordering
  import opened Schema

  datatype TableStmt = TableStmt(name: Name, full: bool, tableType: string, comment: Option<string>)

  /** Statements in source order; fields, indexes and events are paired with the table they are on. */
  datatype SchemaDefinitions = SchemaDefinitions(
    tables: seq<TableStmt>, fields: seq<(Name, FieldDef)>, indexes: seq<(Name, IndexDef)>,
    events: seq<(Name, EventDef)>, functions: seq<FunctionDef>, params: seq<ParamDef>,
    ns: Option<string>, db: Option<string>)

  function NewTable(s: TableStmt, ns: Option<string>, db: Option<string>): TableDef {
    TableDef(s.name, s.full, s.tableType, s.comment, [], [], [], None, ns, db)
  }

  /** The table a field statement brings into being when no table statement did. */
  function ImplicitTable(name: Name, ns: Option<string>, db: Option<string>): TableDef {
    TableDef(name, false, "Any", None, [], [], [], None, ns, db)
  }

  function OnTable<T>(stmts: seq<(Name, T)>, t: Name): seq<T> {
    if stmts == [] then []
    else
      var front, last := stmts[..|stmts| - 1], stmts[|stmts| - 1];
      OnTable(front, t) + if last.0 == t then [last.1] else []
  }

  /** The first definition of each name. */
  function FirstOfEach(fields: seq<FieldDef>): seq<FieldDef> {
    if fields == [] then []
    else
      var kept, last := FirstOfEach(fields[..|fields| - 1]), fields[|fields| - 1];
      if last.name in NamesOf(kept, FieldName) then kept else kept + [last]
  }

  /** The table as its statements leave it: the last table statement, or none, decides its attributes. */
  function Base(d: SchemaDefinitions, tables: seq<TableStmt>, t: Name): TableDef {
    if tables == [] then ImplicitTable(t, d.ns, d.db)
    else if tables[|tables| - 1].name == t then NewTable(tables[|tables| - 1], d.ns, d.db)
    else Base(d, tables[..|tables| - 1], t)
  }

  function DescribedTable(d: SchemaDefinitions, t: Name): TableDef {
    Base(d, d.tables, t).(fields := FirstOfEach(OnTable(d.fields, t)),
                          indexes := OnTable(d.indexes, t), events := OnTable(d.events, t))
  }

  function DescribedNames(d: SchemaDefinitions): set<Name> {
    (set s | s in d.tables :: s.name) + (set f | f in d.fields :: f.0)
  }

  function DescribedTables(d: SchemaDefinitions): Tables {
    map t | t in DescribedNames(d) :: DescribedTable(d, t)
  }

  function LastNamed<T>(xs: seq<T>, nameOf: T -> Name): map<Name, T> {
    if xs == [] then map[] else LastNamed(xs[..|xs| - 1], nameOf)[nameOf(xs[|xs| - 1]) := xs[|xs| - 1]]
  }

  lemma NoNames()
    ensures UniqueNames([], FieldName) && NamesOf([], FieldName) == {}
  {
  }

  lemma UniqueAppend(fields: seq<FieldDef>, f: FieldDef)
    requires UniqueNames(fields, FieldName) && f.name !in NamesOf(fields, FieldName)
    ensures UniqueNames(fields + [f], FieldName)
  {
    assert forall g | g in fields :: FieldName(g) in NamesOf(fields, FieldName);
  }

  lemma {:induction false} FirstOfEachUnique(fields: seq<FieldDef>)
    ensures UniqueNames(FirstOfEach(fields), FieldName)
    ensures NamesOf(FirstOfEach(fields), FieldName) == NamesOf(fields, FieldName)
  {
    NoNames();
    if fields != [] {
      var front, last := fields[..|fields| - 1], fields[|fields| - 1];
      hide NamesOf, UniqueNames;
      FirstOfEachUnique(front);
      var kept := FirstOfEach(front);
      assert fields == front + [last];
      NamesOfJoin(front, [last], FieldName);
      NamesOfJoin(kept, [last], FieldName);
      NamesOfOne(last, FieldName);
      if last.name !in NamesOf(kept, FieldName) { UniqueAppend(kept, last); }
    }
  }

  /** The first field of a name, as a lookup finds it. */
  function FieldNamed(fields: seq<FieldDef>, n: Name): Option<FieldDef> {
    if fields == [] then None
    else if fields[0].name == n then Some(fields[0])
    else FieldNamed(fields[1..], n)
  }

  lemma {:induction false} FieldNamedAppend(fields: seq<FieldDef>, last: FieldDef, n: Name)
    ensures FieldNamed(fields + [last], n)
         == if FieldNamed(fields, n).Some? then FieldNamed(fields, n)
            else if last.name == n then Some(last) else None
  {
    if fields != [] {
      assert (fields + [last])[1..] == fields[1..] + [last];
      FieldNamedAppend(fields[1..], last, n);
    }
  }

  lemma {:induction false} NotNamed(fields: seq<FieldDef>, n: Name)
    ensures FieldNamed(fields, n).None? <==> n !in NamesOf(fields, FieldName)
  {
    if fields != [] {
      NotNamed(fields[1..], n);
      assert fields == [fields[0]] + fields[1..];
      NamesOfJoin([fields[0]], fields[1..], FieldName);
      NamesOfOne(fields[0], FieldName);
    }
  }

  /** Dropping later namesakes changes no lookup: the first definition of a name is the one kept. */
  lemma {:induction false} FirstOfEachLookup(fields: seq<FieldDef>, n: Name)
    ensures FieldNamed(FirstOfEach(fields), n) == FieldNamed(fields, n)
  {
    if fields != [] {
      var front, last := fields[..|fields| - 1], fields[|fields| - 1];
      FirstOfEachLookup(front, n);
      assert fields == front + [last];
      FieldNamedAppend(front, last, n);
      FieldNamedAppend(FirstOfEach(front), last, n);
      NotNamed(FirstOfEach(front), n);
    }
  }

  lemma DescribedWellFormed(d: SchemaDefinitions)
    ensures WellFormed(DescribedTables(d))
  {
    forall t | t in DescribedTables(d)
      ensures DescribedTables(d)[t].name == t && UniqueNames(DescribedTables(d)[t].fields, FieldName)
    {
      BaseName(d, d.tables, t);
      FirstOfEachUnique(OnTable(d.fields, t));
    }
  }

  lemma {:induction false} BaseName(d: SchemaDefinitions, tables: seq<TableStmt>, t: Name)
    ensures Base(d, tables, t).name == t
  {
    if tables != [] && tables[|tables| - 1].name != t {
      BaseName(d, tables[..|tables| - 1], t);
    }
  }

  // --- What the last statement of a name decides ---

  /** Statement `i` is the last of its name. */
  ghost predicate LastOfName<T>(xs: seq<T>, nameOf: T -> Name, i: int) {
    0 <= i < |xs| && forall j | i < j < |xs| :: nameOf(xs[j]) != nameOf(xs[i])
  }

  function StatementName(s: TableStmt): Name { s.name }

  lemma {:induction false} BaseOfLast(d: SchemaDefinitions, tables: seq<TableStmt>, i: nat)
    requires LastOfName(tables, StatementName, i)
    ensures
      var s, t := tables[i], Base(d, tables, tables[i].name);
      && t.name == s.name && t.full == s.full && t.tableType == s.tableType && t.comment == s.comment
      && t.ns == d.ns && t.db == d.db && t.source == None
  {
    var last := |tables| - 1;
    if i < last {
      assert StatementName(tables[last]) != StatementName(tables[i]);
      BaseOfLast(d, tables[..last], i);
    }
  }

  /** A table has the attributes of its last statement, and without one it is not full and of any type. */
  lemma AttributesDescribed(d: SchemaDefinitions)
    ensures forall i | LastOfName(d.tables, StatementName, i) ::
      var s := d.tables[i];
      && s.name in DescribedTables(d)
      && var t := DescribedTables(d)[s.name];
         t.full == s.full && t.tableType == s.tableType && t.comment == s.comment && t.ns == d.ns && t.db == d.db
    ensures forall n | n in DescribedTables(d) && (forall s | s in d.tables :: s.name != n) ::
      var t := DescribedTables(d)[n];
      !t.full && t.tableType == "Any" && t.comment == None && t.ns == d.ns && t.db == d.db
  {
    forall i | LastOfName(d.tables, StatementName, i)
      ensures
        var s := d.tables[i];
        && s.name in DescribedTables(d)
        && var t := DescribedTables(d)[s.name];
           t.full == s.full && t.tableType == s.tableType && t.comment == s.comment && t.ns == d.ns && t.db == d.db
    {
      assert d.tables[i] in d.tables;
      BaseOfLast(d, d.tables, i);
    }
    forall n | n in DescribedTables(d) && (forall s | s in d.tables :: s.name != n)
      ensures Base(d, d.tables, n) == TableDef(n, false, "Any", None, [], [], [], None, d.ns, d.db)
    {
      NoBase(d, d.tables, n);
    }
  }

  /** The fields of a table are the first of each name among the statements on it, and its indexes and events all. */
  lemma MembersDescribed(d: SchemaDefinitions, t: Name, n: Name)
    requires t in DescribedTables(d)
    ensures FieldNamed(DescribedTables(d)[t].fields, n) == FieldNamed(OnTable(d.fields, t), n)
    ensures multiset(DescribedTables(d)[t].indexes) == multiset(OnTable(d.indexes, t))
    ensures multiset(DescribedTables(d)[t].events) == multiset(OnTable(d.events, t))
  {
    FirstOfEachLookup(OnTable(d.fields, t), n);
  }

  /** The statements on a table, as often as they were given. */
  lemma {:induction false} OnTableCounts<T>(stmts: seq<(Name, T)>, t: Name, x: T)
    ensures multiset(OnTable(stmts, t))[x] == multiset(stmts)[(t, x)]
  {
    if stmts != [] {
      var front, last := stmts[..|stmts| - 1], stmts[|stmts| - 1];
      OnTableCounts(front, t, x);
      assert stmts == front + [last];
    }
  }

  lemma {:induction false} LastIsKept<T>(xs: seq<T>, nameOf: T -> Name, i: nat)
    requires LastOfName(xs, nameOf, i)
    ensures nameOf(xs[i]) in LastNamed(xs, nameOf) && LastNamed(xs, nameOf)[nameOf(xs[i])] == xs[i]
  {
    var last := |xs| - 1;
    if i < last {
      assert nameOf(xs[last]) != nameOf(xs[i]);
      LastIsKept(xs[..last], nameOf, i);
    }
  }

  lemma {:induction false} KeptIsLast<T>(xs: seq<T>, nameOf: T -> Name, n: Name) returns (i: nat)
    requires n in LastNamed(xs, nameOf)
    ensures LastOfName(xs, nameOf, i) && nameOf(xs[i]) == n
  {
    var last := |xs| - 1;
    if nameOf(xs[last]) == n {
      i := last;
    } else {
      i := KeptIsLast(xs[..last], nameOf, n);
    }
  }

  /** Under every name stands the last definition of it, and nothing else. */
  lemma LastKept<T>(xs: seq<T>, nameOf: T -> Name)
    ensures forall i | LastOfName(xs, nameOf, i) ::
      nameOf(xs[i]) in LastNamed(xs, nameOf) && LastNamed(xs, nameOf)[nameOf(xs[i])] == xs[i]
    ensures forall n | n in LastNamed(xs, nameOf) :: exists i :: LastOfName(xs, nameOf, i) && nameOf(xs[i]) == n
  {
    hide LastNamed;
    forall i | LastOfName(xs, nameOf, i)
      ensures nameOf(xs[i]) in LastNamed(xs, nameOf) && LastNamed(xs, nameOf)[nameOf(xs[i])] == xs[i]
    {
      LastIsKept(xs, nameOf, i);
    }
    forall n | n in LastNamed(xs, nameOf) ensures exists i :: LastOfName(xs, nameOf, i) && nameOf(xs[i]) == n {
      var i := KeptIsLast(xs, nameOf, n);
    }
  }

  // --- One more statement at a time ---

  /** The first statements of each kind. */
  function Upto(d: SchemaDefinitions, tables: nat, fields: nat, indexes: nat, events: nat): SchemaDefinitions
    requires tables <= |d.tables| && fields <= |d.fields| && indexes <= |d.indexes| && events <= |d.events|
  {
    d.(tables := d.tables[..tables], fields := d.fields[..fields],
       indexes := d.indexes[..indexes], events := d.events[..events])
  }

  lemma UptoAll(d: SchemaDefinitions)
    ensures Upto(d, |d.tables|, |d.fields|, |d.indexes|, |d.events|) == d
  {
  }

  lemma TableStepAt(d: SchemaDefinitions, i: nat)
    requires i < |d.tables|
    ensures DescribedTables(Upto(d, i + 1, 0, 0, 0))
         == DescribedTables(Upto(d, i, 0, 0, 0))[d.tables[i].name := NewTable(d.tables[i], d.ns, d.db)]
  {
    TableStep(Upto(d, i, 0, 0, 0), d.tables[i]);
    assert d.tables[..i + 1] == d.tables[..i] + [d.tables[i]];
  }

  lemma FieldStepAt(d: SchemaDefinitions, i: nat)
    requires i < |d.fields|
    ensures DescribedTables(Upto(d, |d.tables|, i + 1, 0, 0))
         == DeclareField(DescribedTables(Upto(d, |d.tables|, i, 0, 0)), d.fields[i].0, d.fields[i].1, d.ns, d.db)
  {
    FieldStep(Upto(d, |d.tables|, i, 0, 0), d.fields[i].0, d.fields[i].1);
    assert d.fields[..i + 1] == d.fields[..i] + [d.fields[i]];
  }

  lemma IndexStepAt(d: SchemaDefinitions, i: nat)
    requires i < |d.indexes|
    ensures DescribedTables(Upto(d, |d.tables|, |d.fields|, i + 1, 0))
         == DeclareIndex(DescribedTables(Upto(d, |d.tables|, |d.fields|, i, 0)), d.indexes[i].0, d.indexes[i].1)
  {
    IndexStep(Upto(d, |d.tables|, |d.fields|, i, 0), d.indexes[i].0, d.indexes[i].1);
    assert d.indexes[..i + 1] == d.indexes[..i] + [d.indexes[i]];
  }

  lemma EventStepAt(d: SchemaDefinitions, i: nat)
    requires i < |d.events|
    ensures DescribedTables(Upto(d, |d.tables|, |d.fields|, |d.indexes|, i + 1))
         == DeclareEvent(DescribedTables(Upto(d, |d.tables|, |d.fields|, |d.indexes|, i)), d.events[i].0, d.events[i].1)
  {
    EventStep(Upto(d, |d.tables|, |d.fields|, |d.indexes|, i), d.events[i].0, d.events[i].1);
    assert d.events[..i + 1] == d.events[..i] + [d.events[i]];
  }

  lemma LastNamedStep<T>(xs: seq<T>, nameOf: T -> Name, i: nat)
    requires i < |xs|
    ensures LastNamed(xs[..i + 1], nameOf) == LastNamed(xs[..i], nameOf)[nameOf(xs[i]) := xs[i]]
  {
    assert xs[..i + 1][..i] == xs[..i];
  }

  lemma OneEntryChanges(ts: Tables, ts': Tables, t: Name)
    requires ts'.Keys == ts.Keys + {t}
    requires forall u | u in ts && u != t :: ts'[u] == ts[u]
    ensures ts' == ts[t := ts'[t]]
  {
  }

  function WithTable(d: SchemaDefinitions, s: TableStmt): SchemaDefinitions {
    d.(tables := d.tables + [s])
  }

  lemma TableStepAmong(d: SchemaDefinitions, s: TableStmt, u: Name)
    requires d.fields == [] && d.indexes == [] && d.events == []
    ensures DescribedTable(WithTable(d, s), u)
         == if u == s.name then NewTable(s, d.ns, d.db) else DescribedTable(d, u)
  {
    assert WithTable(d, s).tables[..|d.tables|] == d.tables;
    BasesAgree(d, WithTable(d, s), d.tables);
  }

  lemma TableStep(d: SchemaDefinitions, s: TableStmt)
    requires d.fields == [] && d.indexes == [] && d.events == []
    ensures DescribedTables(WithTable(d, s)) == DescribedTables(d)[s.name := NewTable(s, d.ns, d.db)]
  {
    hide DescribedTable;
    assert forall x :: x in WithTable(d, s).tables <==> x in d.tables || x == s;
    assert DescribedNames(WithTable(d, s)) == DescribedNames(d) + {s.name};
    forall u ensures DescribedTable(WithTable(d, s), u)
      == if u == s.name then NewTable(s, d.ns, d.db) else DescribedTable(d, u)
    {
      TableStepAmong(d, s, u);
    }
    OneEntryChanges(DescribedTables(d), DescribedTables(WithTable(d, s)), s.name);
  }

  function WithField(d: SchemaDefinitions, t: Name, f: FieldDef): SchemaDefinitions {
    d.(fields := d.fields + [(t, f)])
  }

  function AddField(t: TableDef, f: FieldDef): TableDef {
    if f.name in NamesOf(t.fields, FieldName) then t else t.(fields := t.fields + [f])
  }

  /** A field joins its table unless the name is taken, and brings an undefined table into being. */
  function DeclareField(ts: Tables, t: Name, f: FieldDef, ns: Option<string>, db: Option<string>): Tables {
    if t in ts then ts[t := AddField(ts[t], f)]
    else ts[t := ImplicitTable(t, ns, db).(fields := [f])]
  }

  /** An index or event on an undefined table is dropped. */
  function DeclareIndex(ts: Tables, t: Name, i: IndexDef): Tables {
    if t in ts then ts[t := ts[t].(indexes := ts[t].indexes + [i])] else ts
  }

  function DeclareEvent(ts: Tables, t: Name, e: EventDef): Tables {
    if t in ts then ts[t := ts[t].(events := ts[t].events + [e])] else ts
  }

  lemma FieldStepElsewhere(d: SchemaDefinitions, t: Name, f: FieldDef, u: Name)
    requires u != t
    ensures DescribedTable(WithField(d, t, f), u) == DescribedTable(d, u)
  {
    BasesAgree(d, WithField(d, t, f), d.tables);
    OnTableAppend(d.fields, t, f, u);
  }

  lemma FieldStepHere(d: SchemaDefinitions, t: Name, f: FieldDef)
    ensures DescribedTable(WithField(d, t, f), t) == AddField(DescribedTable(d, t), f)
  {
    BasesAgree(d, WithField(d, t, f), d.tables);
    OnTableAppend(d.fields, t, f, t);
    FirstOfEachAppend(OnTable(d.fields, t), f);
  }

  lemma FieldStepNames(d: SchemaDefinitions, t: Name, f: FieldDef)
    ensures DescribedNames(WithField(d, t, f)) == DescribedNames(d) + {t}
  {
    assert forall x :: x in WithField(d, t, f).fields <==> x in d.fields || x == (t, f);
  }

  lemma UndescribedTable(d: SchemaDefinitions, t: Name)
    requires t !in DescribedNames(d) && d.indexes == [] && d.events == []
    ensures DescribedTable(d, t) == ImplicitTable(t, d.ns, d.db)
  {
    NoBase(d, d.tables, t);
    NothingOn(d.fields, t);
  }

  lemma FieldStep(d: SchemaDefinitions, t: Name, f: FieldDef)
    requires d.indexes == [] && d.events == []
    ensures DescribedTables(WithField(d, t, f)) == DeclareField(DescribedTables(d), t, f, d.ns, d.db)
  {
    FieldStepNames(d, t, f);
    forall u | u in DescribedNames(d) && u != t
      ensures DescribedTable(WithField(d, t, f), u) == DescribedTable(d, u)
    {
      FieldStepElsewhere(d, t, f, u);
    }
    FieldStepHere(d, t, f);
    if t !in DescribedNames(d) {
      UndescribedTable(d, t);
    }
    OneEntryChanges(DescribedTables(d), DescribedTables(WithField(d, t, f)), t);
  }

  lemma IndexStep(d: SchemaDefinitions, t: Name, i: IndexDef)
    requires d.events == []
    ensures DescribedTables(d.(indexes := d.indexes + [(t, i)]))
         == DeclareIndex(DescribedTables(d), t, i)
  {
    var d' := d.(indexes := d.indexes + [(t, i)]);
    var ts, ts' := DescribedTables(d), DescribedTables(d');
    BasesAgree(d, d', d.tables);
    assert DescribedNames(d') == DescribedNames(d);
    forall u | u in ts
      ensures ts'[u] == if u == t then ts[u].(indexes := ts[u].indexes + [i]) else ts[u]
    {
      OnTableAppend(d.indexes, t, i, u);
    }
  }

  lemma EventStep(d: SchemaDefinitions, t: Name, e: EventDef)
    ensures DescribedTables(d.(events := d.events + [(t, e)]))
         == DeclareEvent(DescribedTables(d), t, e)
  {
    var d' := d.(events := d.events + [(t, e)]);
    var ts, ts' := DescribedTables(d), DescribedTables(d');
    BasesAgree(d, d', d.tables);
    assert DescribedNames(d') == DescribedNames(d);
    forall u | u in ts
      ensures ts'[u] == if u == t then ts[u].(events := ts[u].events + [e]) else ts[u]
    {
      OnTableAppend(d.events, t, e, u);
    }
  }

  lemma OnTableAppend<T>(stmts: seq<(Name, T)>, t: Name, x: T, u: Name)
    ensures OnTable(stmts + [(t, x)], u) == if t == u then OnTable(stmts, u) + [x] else OnTable(stmts, u)
  {
    assert (stmts + [(t, x)])[..|stmts|] == stmts;
  }

  lemma FirstOfEachAppend(fields: seq<FieldDef>, f: FieldDef)
    ensures FirstOfEach(fields + [f])
         == FirstOfEach(fields) + if f.name in NamesOf(FirstOfEach(fields), FieldName) then [] else [f]
  {
    assert (fields + [f])[..|fields|] == fields;
  }

  lemma {:induction false} BasesAgree(d: SchemaDefinitions, d': SchemaDefinitions, tables: seq<TableStmt>)
    requires d.ns == d'.ns && d.db == d'.db
    ensures forall t :: Base(d, tables, t) == Base(d', tables, t)
  {
    if tables != [] {
      BasesAgree(d, d', tables[..|tables| - 1]);
    }
  }

  lemma {:induction false} NoBase(d: SchemaDefinitions, tables: seq<TableStmt>, t: Name)
    requires forall s | s in tables :: s.name != t
    ensures Base(d, tables, t) == ImplicitTable(t, d.ns, d.db)
  {
    if tables != [] {
      NoBase(d, tables[..|tables| - 1], t);
    }
  }

  lemma {:induction false} NothingOn<T>(stmts: seq<(Name, T)>, t: Name)
    requires forall s | s in stmts :: s.0 != t
    ensures OnTable(stmts, t) == []
  {
    if stmts != [] {
      NothingOn(stmts[..|stmts| - 1], t);
    }
  }
}
