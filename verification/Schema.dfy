/** The definitions a schema graph holds, and the links between its tables. */
module Schema {
  import opened Ordering

  datatype SourceLocation = SourceLocation(file: string, offset: nat, len: nat)

  datatype FieldDef = FieldDef(
    name: Name, kind: Option<string>, recordLinks: seq<Name>, default: Option<string>,
    readonly: bool, comment: Option<string>, source: Option<SourceLocation>)

  datatype IndexDef = IndexDef(
    name: Name, columns: seq<string>, unique: bool, comment: Option<string>, source: Option<SourceLocation>)

  datatype EventDef = EventDef(name: Name, comment: Option<string>, source: Option<SourceLocation>)

  datatype TableDef = TableDef(
    name: Name, full: bool, tableType: string, comment: Option<string>,
    fields: seq<FieldDef>, indexes: seq<IndexDef>, events: seq<EventDef>,
    source: Option<SourceLocation>, ns: Option<string>, db: Option<string>)

  datatype FunctionDef = FunctionDef(
    name: Name, args: seq<(string, string)>, result: Option<string>,
    comment: Option<string>, source: Option<SourceLocation>)

  datatype ParamDef = ParamDef(name: Name, source: Option<SourceLocation>)

  type Tables = map<Name, TableDef>

  datatype Graph = Graph(tables: Tables, functions: map<Name, FunctionDef>, params: map<Name, ParamDef>)

  const EMPTY_GRAPH := Graph(map[], map[], map[])

  function FieldName(f: FieldDef): Name { f.name }

  function IndexName(i: IndexDef): Name { i.name }

  function EventName(e: EventDef): Name { e.name }

  function NamesOf<T(==)>(xs: seq<T>, nameOf: T -> Name): set<Name> {
    set x | x in xs :: nameOf(x)
  }

  lemma NamesOfJoin<T>(xs: seq<T>, ys: seq<T>, nameOf: T -> Name)
    ensures NamesOf(xs + ys, nameOf) == NamesOf(xs, nameOf) + NamesOf(ys, nameOf)
  {
    assert forall x :: x in xs + ys <==> x in xs || x in ys;
  }

  lemma NamesOfOne<T>(x: T, nameOf: T -> Name)
    ensures NamesOf([x], nameOf) == {nameOf(x)}
  {
    assert x in [x];
  }

  ghost predicate UniqueNames<T>(xs: seq<T>, nameOf: T -> Name) {
    forall i, j | 0 <= i < j < |xs| :: nameOf(xs[i]) != nameOf(xs[j])
  }

  /** Tables are filed under their own name and no table has two fields of one name. */
  ghost predicate WellFormed(tables: Tables) {
    forall t | t in tables :: tables[t].name == t && UniqueNames(tables[t].fields, FieldName)
  }

  /** Table `from` is defined and has a field `via` that may hold a record of table `to`. */
  ghost predicate Links(tables: Tables, from: Name, via: Name, to: Name) {
    from in tables && exists f :: f in tables[from].fields && f.name == via && to in f.recordLinks
  }
}
