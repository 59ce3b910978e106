/** Structural comparison of two schema graphs, as a patch from one to the other. */
module SchemaDiffs {
  import opened Ordering
  import opened Schema
  import opened Definitions

  datatype TableChange = TableChange(name: Name, beforeFull: bool, afterFull: bool)

  datatype FieldTypeChange = FieldTypeChange(table: Name, field: Name, beforeType: string, afterType: string)

  // A definition named by its table and its own name.
  type Pair = (Name, Name)

  datatype SchemaDiff = SchemaDiff(
    addedTables: seq<Name>, removedTables: seq<Name>, changedTables: seq<TableChange>,
    addedFields: seq<Pair>, removedFields: seq<Pair>, changedFields: seq<FieldTypeChange>,
    addedIndexes: seq<Pair>, removedIndexes: seq<Pair>,
    addedEvents: seq<Pair>, removedEvents: seq<Pair>,
    addedFunctions: seq<Name>, removedFunctions: seq<Name>)
  {
    predicate IsEmpty() {
      && addedTables == [] && removedTables == [] && changedTables == []
      && addedFields == [] && removedFields == [] && changedFields == []
      && addedIndexes == [] && removedIndexes == []
      && addedEvents == [] && removedEvents == []
      && addedFunctions == [] && removedFunctions == []
    }
  }

  // --- What the lists must hold ---

  function FieldNames(t: TableDef): set<Name> { NamesOf(t.fields, FieldName) }

  function IndexNames(t: TableDef): set<Name> { NamesOf(t.indexes, IndexName) }

  function EventNames(t: TableDef): set<Name> { NamesOf(t.events, EventName) }

  /** The definitions of one sort on the given tables. */
  function Defined(tables: Tables, names: TableDef -> set<Name>, among: set<Name>): set<Pair> {
    set t, n | t in among && t in tables && n in names(tables[t]) :: (t, n)
  }

  function All(tables: Tables, names: TableDef -> set<Name>): set<Pair> {
    Defined(tables, names, tables.Keys)
  }

  /** A pair names a field, index or event of its table. */
  lemma AllMeans(tables: Tables, t: Name, n: Name)
    ensures (t, n) in All(tables, FieldNames) <==> t in tables && exists f :: f in tables[t].fields && f.name == n
    ensures (t, n) in All(tables, IndexNames) <==> t in tables && exists i :: i in tables[t].indexes && i.name == n
    ensures (t, n) in All(tables, EventNames) <==> t in tables && exists e :: e in tables[t].events && e.name == n
  {
  }

  function KindOf(tables: Tables, p: Pair): Option<Option<string>> {
    if p.0 in tables && FieldNamed(tables[p.0].fields, p.1).Some?
    then Some(FieldNamed(tables[p.0].fields, p.1).value.kind) else None
  }

  /** How a change report writes a type: an absent one reads as empty. */
  function TypeText(kind: Option<string>): string {
    if kind.Some? then kind.value else ""
  }

  function FlagChanges(before: Tables, after: Tables, among: set<Name>): set<TableChange> {
    set t | t in among && t in before && t in after && before[t].full != after[t].full ::
      TableChange(t, before[t].full, after[t].full)
  }

  function KindChanges(before: Tables, after: Tables, among: set<Pair>): set<FieldTypeChange> {
    set p | p in among && KindOf(before, p).Some? && KindOf(after, p).Some? && KindOf(before, p) != KindOf(after, p) ::
      FieldTypeChange(p.0, p.1, TypeText(KindOf(before, p).value), TypeText(KindOf(after, p).value))
  }

  ghost predicate ListsNames(xs: seq<Name>, ns: set<Name>) {
    Elements(xs) == ns && Increasing(xs, NameLess)
  }

  /** The lists of changes and of definitions on tables hold exactly the differences. */
  ghost predicate TablesCompared(a: Graph, b: Graph, d: SchemaDiff) {
    && Elements(d.changedTables) == FlagChanges(a.tables, b.tables, a.tables.Keys)
    && Elements(d.addedFields) == All(b.tables, FieldNames) - All(a.tables, FieldNames)
    && Elements(d.removedFields) == All(a.tables, FieldNames) - All(b.tables, FieldNames)
    && Elements(d.changedFields) == KindChanges(a.tables, b.tables, All(a.tables, FieldNames))
    && Elements(d.addedIndexes) == All(b.tables, IndexNames) - All(a.tables, IndexNames)
    && Elements(d.removedIndexes) == All(a.tables, IndexNames) - All(b.tables, IndexNames)
    && Elements(d.addedEvents) == All(b.tables, EventNames) - All(a.tables, EventNames)
    && Elements(d.removedEvents) == All(a.tables, EventNames) - All(b.tables, EventNames)
  }

  /** No table change, field or field change is reported twice. Indexes and events may repeat a name. */
  ghost predicate ListedOnce(d: SchemaDiff) {
    Distinct(d.changedTables) && Distinct(d.addedFields) && Distinct(d.removedFields) && Distinct(d.changedFields)
  }

  /** Each list of the report holds exactly the differences of its sort. */
  ghost predicate IsDiff(a: Graph, b: Graph, d: SchemaDiff) {
    && ListsNames(d.addedTables, b.tables.Keys - a.tables.Keys)
    && ListsNames(d.removedTables, a.tables.Keys - b.tables.Keys)
    && TablesCompared(a, b, d)
    && ListsNames(d.addedFunctions, b.functions.Keys - a.functions.Keys)
    && ListsNames(d.removedFunctions, a.functions.Keys - b.functions.Keys)
  }

  // --- The order of the lists ---

  function NameSeq<T>(xs: seq<T>, nameOf: T -> Name): seq<Name> {
    seq(|xs|, i requires 0 <= i < |xs| => nameOf(xs[i]))
  }

  function FieldList(t: TableDef): seq<Name> { NameSeq(t.fields, FieldName) }

  function IndexList(t: TableDef): seq<Name> { NameSeq(t.indexes, IndexName) }

  function EventList(t: TableDef): seq<Name> { NameSeq(t.events, EventName) }

  function PairUp(t: Name, names: seq<Name>): seq<Pair> {
    seq(|names|, i requires 0 <= i < |names| => (t, names[i]))
  }

  lemma SortedExists(names: set<Name>)
    ensures exists q :: ListsNames(q, names)
  {
    NameOrder();
    var q := ListingExists(names, NameLess);
    assert ListsNames(q, names);
  }

  /** The members of a set of names in increasing order. */
  ghost function SortedOf(names: set<Name>): (q: seq<Name>)
    ensures ListsNames(q, names)
  {
    SortedExists(names);
    var q :| ListsNames(q, names);
    q
  }

  /** Everything defined on the given tables, in the order of the tables and of declaration. */
  function Whole(tables: Tables, list: TableDef -> seq<Name>, ts: seq<Name>): seq<Pair> {
    if ts == [] then []
    else
      var t := ts[|ts| - 1];
      Whole(tables, list, ts[..|ts| - 1]) + if t in tables then PairUp(t, list(tables[t])) else []
  }

  /** What the given tables have on the first side only, in the order of the tables and then of the names. */
  ghost function Lacking(here: Tables, there: Tables, names: TableDef -> set<Name>, ts: seq<Name>): seq<Pair> {
    if ts == [] then []
    else
      var t := ts[|ts| - 1];
      Lacking(here, there, names, ts[..|ts| - 1])
        + if t in here && t in there then PairUp(t, SortedOf(names(here[t]) - names(there[t]))) else []
  }

  function Flagged(before: Tables, after: Tables, ts: seq<Name>): seq<TableChange> {
    if ts == [] then []
    else
      var t := ts[|ts| - 1];
      Flagged(before, after, ts[..|ts| - 1])
        + if t in before && t in after && before[t].full != after[t].full
          then [TableChange(t, before[t].full, after[t].full)] else []
  }

  /** The change of kind of a field the other side has too, if there is one. */
  function FieldChange(t: Name, f: FieldDef, other: TableDef): seq<FieldTypeChange> {
    var found := FieldNamed(other.fields, f.name);
    if found.Some? && f.kind != found.value.kind
    then [FieldTypeChange(t, f.name, TypeText(f.kind), TypeText(found.value.kind))] else []
  }

  /** The fields of a table whose kinds differ in the other, in order of declaration. */
  function Retyped(t: Name, fields: seq<FieldDef>, other: TableDef): seq<FieldTypeChange> {
    if fields == [] then []
    else Retyped(t, fields[..|fields| - 1], other) + FieldChange(t, fields[|fields| - 1], other)
  }

  function RetypedAll(before: Tables, after: Tables, ts: seq<Name>): seq<FieldTypeChange> {
    if ts == [] then []
    else
      var t := ts[|ts| - 1];
      RetypedAll(before, after, ts[..|ts| - 1])
        + if t in before && t in after then Retyped(t, before[t].fields, after[t]) else []
  }

  /** Report `e` continues report `d` with the differences on the given common tables, in order. */
  ghost predicate Continues(a: Graph, b: Graph, d: SchemaDiff, e: SchemaDiff, ts: seq<Name>) {
    && e.changedTables == d.changedTables + Flagged(a.tables, b.tables, ts)
    && e.addedFields == d.addedFields + Lacking(b.tables, a.tables, FieldNames, ts)
    && e.removedFields == d.removedFields + Lacking(a.tables, b.tables, FieldNames, ts)
    && e.changedFields == d.changedFields + RetypedAll(a.tables, b.tables, ts)
    && e.addedIndexes == d.addedIndexes + Lacking(b.tables, a.tables, IndexNames, ts)
    && e.removedIndexes == d.removedIndexes + Lacking(a.tables, b.tables, IndexNames, ts)
    && e.addedEvents == d.addedEvents + Lacking(b.tables, a.tables, EventNames, ts)
    && e.removedEvents == d.removedEvents + Lacking(a.tables, b.tables, EventNames, ts)
  }

  /** The part of a report on tables only one side has. */
  ghost predicate StartsWithWhole(a: Graph, b: Graph, d: SchemaDiff) {
    && d.changedTables == [] && d.changedFields == []
    && d.addedFields == Whole(b.tables, FieldList, d.addedTables)
    && d.removedFields == Whole(a.tables, FieldList, d.removedTables)
    && d.addedIndexes == Whole(b.tables, IndexList, d.addedTables)
    && d.removedIndexes == Whole(a.tables, IndexList, d.removedTables)
    && d.addedEvents == Whole(b.tables, EventList, d.addedTables)
    && d.removedEvents == Whole(a.tables, EventList, d.removedTables)
  }

  /** One-sided tables come first, whole and as declared; then the common ones in order, each compared by name. */
  ghost predicate InReportOrder(a: Graph, b: Graph, e: SchemaDiff) {
    exists d: SchemaDiff ::
      && d.addedTables == e.addedTables && d.removedTables == e.removedTables
      && StartsWithWhole(a, b, d) && Continues(a, b, d, e, SortedOf(a.tables.Keys * b.tables.Keys))
  }

  // --- The report as a patch ---

  /** A schema down to its names. */
  datatype NameView = NameView(
    tables: set<Name>, fields: set<Pair>, indexes: set<Pair>, events: set<Pair>, functions: set<Name>)

  function ViewOf(g: Graph): NameView {
    NameView(g.tables.Keys, All(g.tables, FieldNames), All(g.tables, IndexNames), All(g.tables, EventNames),
             g.functions.Keys)
  }

  function Patched<T>(s: set<T>, removed: seq<T>, added: seq<T>): set<T> {
    s - Elements(removed) + Elements(added)
  }

  function Patch(v: NameView, d: SchemaDiff): NameView {
    NameView(Patched(v.tables, d.removedTables, d.addedTables),
             Patched(v.fields, d.removedFields, d.addedFields),
             Patched(v.indexes, d.removedIndexes, d.addedIndexes),
             Patched(v.events, d.removedEvents, d.addedEvents),
             Patched(v.functions, d.removedFunctions, d.addedFunctions))
  }

  lemma PatchedSet<T>(s: set<T>, t: set<T>, removed: seq<T>, added: seq<T>)
    requires Elements(removed) == s - t && Elements(added) == t - s
    ensures Patched(s, removed, added) == t
  {
  }

  /** Applying the report to the first schema's names gives the second's. */
  lemma DiffIsPatch(a: Graph, b: Graph, d: SchemaDiff)
    requires IsDiff(a, b, d)
    ensures Patch(ViewOf(a), d) == ViewOf(b)
  {
    PatchedSet(a.tables.Keys, b.tables.Keys, d.removedTables, d.addedTables);
    PatchedSet(All(a.tables, FieldNames), All(b.tables, FieldNames), d.removedFields, d.addedFields);
    PatchedSet(All(a.tables, IndexNames), All(b.tables, IndexNames), d.removedIndexes, d.addedIndexes);
    PatchedSet(All(a.tables, EventNames), All(b.tables, EventNames), d.removedEvents, d.addedEvents);
    PatchedSet(a.functions.Keys, b.functions.Keys, d.removedFunctions, d.addedFunctions);
  }

  /** A table both have changes its flag iff the report says so, and then to what the report says. */
  lemma DiffPatchesFlags(a: Graph, b: Graph, d: SchemaDiff, t: Name)
    requires IsDiff(a, b, d) && t in a.tables && t in b.tables
    ensures forall c | c in d.changedTables && c.name == t ::
        c.beforeFull == a.tables[t].full && c.afterFull == b.tables[t].full
    ensures a.tables[t].full != b.tables[t].full <==> exists c :: c in d.changedTables && c.name == t
  {
    forall c | c in d.changedTables ensures c in FlagChanges(a.tables, b.tables, a.tables.Keys) {
      assert c in Elements(d.changedTables);
    }
    if a.tables[t].full != b.tables[t].full {
      var c := TableChange(t, a.tables[t].full, b.tables[t].full);
      assert c in Elements(d.changedTables);
    }
  }

  /** A field both have changes its kind iff the report says so, and then to what the report says. */
  lemma DiffPatchesKinds(a: Graph, b: Graph, d: SchemaDiff, p: Pair)
    requires IsDiff(a, b, d) && p in All(a.tables, FieldNames) && p in All(b.tables, FieldNames)
    ensures KindOf(a.tables, p).Some? && KindOf(b.tables, p).Some?
    ensures forall c | c in d.changedFields && (c.table, c.field) == p ::
      && c.beforeType == (match KindOf(a.tables, p).value case Some(kind) => kind case None => "")
      && c.afterType == (match KindOf(b.tables, p).value case Some(kind) => kind case None => "")
    ensures KindOf(a.tables, p) != KindOf(b.tables, p) <==> exists c :: c in d.changedFields && (c.table, c.field) == p
  {
    NotNamed(a.tables[p.0].fields, p.1);
    NotNamed(b.tables[p.0].fields, p.1);
    forall c | c in d.changedFields ensures c in KindChanges(a.tables, b.tables, All(a.tables, FieldNames)) {
      assert c in Elements(d.changedFields);
    }
    if KindOf(a.tables, p) != KindOf(b.tables, p) {
      var c := FieldTypeChange(p.0, p.1, TypeText(KindOf(a.tables, p).value), TypeText(KindOf(b.tables, p).value));
      assert c in KindChanges(a.tables, b.tables, All(a.tables, FieldNames));
      assert c in Elements(d.changedFields);
    }
  }

  /** The schemas agree on everything the report speaks of. */
  ghost predicate Agree(a: Graph, b: Graph) {
    && ViewOf(a) == ViewOf(b)
    && (forall t | t in a.tables && t in b.tables :: a.tables[t].full == b.tables[t].full)
    && (forall p | p in All(a.tables, FieldNames) :: KindOf(a.tables, p) == KindOf(b.tables, p))
  }

  lemma EmptyIffAgree(a: Graph, b: Graph, d: SchemaDiff)
    requires IsDiff(a, b, d)
    ensures d.IsEmpty() <==> Agree(a, b)
  {
    if d.IsEmpty() {
      DiffIsPatch(a, b, d);
      forall t | t in a.tables && t in b.tables ensures a.tables[t].full == b.tables[t].full {
        DiffPatchesFlags(a, b, d, t);
      }
      forall p | p in All(a.tables, FieldNames) ensures KindOf(a.tables, p) == KindOf(b.tables, p) {
        DiffPatchesKinds(a, b, d, p);
      }
    } else if Agree(a, b) {
      AgreeEmpties(a, b, d);
    }
  }

  lemma NoElements<T>(s: seq<T>)
    ensures Elements(s) == {} ==> s == []
  {
    if s != [] { assert s[0] in Elements(s); }
  }

  lemma AgreeEmpties(a: Graph, b: Graph, d: SchemaDiff)
    requires IsDiff(a, b, d) && Agree(a, b)
    ensures d.IsEmpty()
  {
    NoElements(d.addedTables);
    NoElements(d.removedTables);
    NoElements(d.changedTables);
    NoElements(d.addedFields);
    NoElements(d.removedFields);
    assert KindChanges(a.tables, b.tables, All(a.tables, FieldNames)) == {};
    NoElements(d.changedFields);
    NoElements(d.addedIndexes);
    NoElements(d.removedIndexes);
    NoElements(d.addedEvents);
    NoElements(d.removedEvents);
    NoElements(d.addedFunctions);
    NoElements(d.removedFunctions);
  }

  function SwapTable(c: TableChange): TableChange { TableChange(c.name, c.afterFull, c.beforeFull) }

  function SwapField(c: FieldTypeChange): FieldTypeChange {
    FieldTypeChange(c.table, c.field, c.afterType, c.beforeType)
  }

  /** Comparing the other way round trades added for removed and before for after. */
  lemma DiffReverses(a: Graph, b: Graph, d: SchemaDiff, e: SchemaDiff)
    requires IsDiff(a, b, d) && IsDiff(b, a, e)
    ensures d.addedTables == e.removedTables && d.removedTables == e.addedTables
    ensures d.addedFunctions == e.removedFunctions && d.removedFunctions == e.addedFunctions
    ensures Elements(d.addedFields) == Elements(e.removedFields) && Elements(d.removedFields) == Elements(e.addedFields)
    ensures Elements(d.addedIndexes) == Elements(e.removedIndexes)
      && Elements(d.removedIndexes) == Elements(e.addedIndexes)
    ensures Elements(d.addedEvents) == Elements(e.removedEvents) && Elements(d.removedEvents) == Elements(e.addedEvents)
    ensures Elements(e.changedTables) == set c | c in Elements(d.changedTables) :: SwapTable(c)
    ensures Elements(e.changedFields) == set c | c in Elements(d.changedFields) :: SwapField(c)
  {
    NameOrder();
    ListingUnique(d.addedTables, e.removedTables, NameLess);
    ListingUnique(d.removedTables, e.addedTables, NameLess);
    ListingUnique(d.addedFunctions, e.removedFunctions, NameLess);
    ListingUnique(d.removedFunctions, e.addedFunctions, NameLess);
    FlagChangesReverse(a.tables, b.tables);
    KindChangesReverse(a.tables, b.tables);
  }

  lemma FlagChangesReverse(a: Tables, b: Tables)
    ensures FlagChanges(b, a, b.Keys) == set c | c in FlagChanges(a, b, a.Keys) :: SwapTable(c)
  {
    var forward := FlagChanges(a, b, a.Keys);
    forall c | c in FlagChanges(b, a, b.Keys) ensures c in (set c | c in forward :: SwapTable(c)) {
      assert SwapTable(c) in forward && SwapTable(SwapTable(c)) == c;
    }
  }

  lemma KindChangesReverse(a: Tables, b: Tables)
    ensures KindChanges(b, a, All(b, FieldNames)) == set c | c in KindChanges(a, b, All(a, FieldNames)) :: SwapField(c)
  {
    var forward, backward := KindChanges(a, b, All(a, FieldNames)), KindChanges(b, a, All(b, FieldNames));
    forall c | c in backward ensures c in (set c | c in forward :: SwapField(c)) {
      var p :| p in All(b, FieldNames) && KindOf(a, p).Some? && KindOf(b, p).Some? && KindOf(a, p) != KindOf(b, p)
        && c == FieldTypeChange(p.0, p.1, TypeText(KindOf(b, p).value), TypeText(KindOf(a, p).value));
      KindedIsField(a, p);
      assert SwapField(c) in forward && SwapField(SwapField(c)) == c;
    }
    forall c | c in forward ensures SwapField(c) in backward {
      var p :| p in All(a, FieldNames) && KindOf(a, p).Some? && KindOf(b, p).Some? && KindOf(a, p) != KindOf(b, p)
        && c == FieldTypeChange(p.0, p.1, TypeText(KindOf(a, p).value), TypeText(KindOf(b, p).value));
      KindedIsField(b, p);
    }
  }

  lemma KindedIsField(tables: Tables, p: Pair)
    requires KindOf(tables, p).Some?
    ensures p in All(tables, FieldNames)
  {
    NotNamed(tables[p.0].fields, p.1);
  }

  // --- Computing the report ---

  /** The names on one side and not on the other, in order. */
  method Missing(here: set<Name>, there: set<Name>) returns (names: seq<Name>)
    ensures ListsNames(names, here - there) && Distinct(names) && names == SortedOf(here - there)
  {
    names := [];
    var sorted := SortedMembers(here);
    hide NameLess;
    for i := 0 to |sorted|
      invariant Elements(names) == Elements(sorted[..i]) - there
      invariant Increasing(names, NameLess)
      invariant forall n | n in names :: n in sorted[..i]
    {
      assert sorted[..i + 1] == sorted[..i] + [sorted[i]];
      ElementsAppend(sorted[..i], sorted[i]);
      if sorted[i] !in there {
        assert forall n | n in sorted[..i] :: NameLess(n, sorted[i]);
        ElementsAppend(names, sorted[i]);
        names := names + [sorted[i]];
      }
    }
    assert sorted[..|sorted|] == sorted;
    ListedNamesDiffer(names);
    SortedIs(names, here - there);
  }

  lemma SortedIs(q: seq<Name>, names: set<Name>)
    requires ListsNames(q, names)
    ensures q == SortedOf(names)
  {
    NameOrder();
    ListingUnique(q, SortedOf(names), NameLess);
  }

  lemma ListedNamesDiffer(names: seq<Name>)
    requires Increasing(names, NameLess)
    ensures Distinct(names)
  {
    NameOrder();
    forall i, j | 0 <= i < j < |names| ensures names[i] != names[j] { assert NameLess(names[i], names[j]); }
  }

  function PairsOn(t: Name, names: set<Name>): set<Pair> {
    set n | n in names :: (t, n)
  }

  lemma PairUpElements(t: Name, names: seq<Name>)
    ensures Elements(PairUp(t, names)) == PairsOn(t, Elements(names))
  {
    forall p | p in PairsOn(t, Elements(names)) ensures p in PairUp(t, names) {
      var i :| 0 <= i < |names| && names[i] == p.1;
      assert PairUp(t, names)[i] == p;
    }
  }

  /** The pairs of a table not met before are new. */
  lemma PairsOnce(pairs: seq<Pair>, among: set<Name>, t: Name, found: seq<Name>)
    requires t !in among && forall p | p in Elements(pairs) :: p.0 in among
    ensures Distinct(pairs) && Distinct(found) ==> Distinct(pairs + PairUp(t, found))
  {
    var all := pairs + PairUp(t, found);
    if Distinct(pairs) && Distinct(found) {
      forall i, j | 0 <= i < j < |all| ensures all[i] != all[j] {
        if i < |pairs| <= j { assert all[i] in Elements(pairs); }
      }
    }
  }

  lemma ElementsJoin<T>(s: seq<T>, t: seq<T>)
    ensures Elements(s + t) == Elements(s) + Elements(t)
  {
    assert forall x :: x in s + t <==> x in s || x in t;
  }

  lemma DefinedOneMore(tables: Tables, names: TableDef -> set<Name>, among: set<Name>, t: Name)
    requires t in tables
    ensures Defined(tables, names, among + {t}) == Defined(tables, names, among) + PairsOn(t, names(tables[t]))
  {
  }

  /** The names of a list of definitions, in order and with repetitions. */
  method NameList<T(==)>(xs: seq<T>, nameOf: T -> Name) returns (names: seq<Name>)
    ensures Elements(names) == NamesOf(xs, nameOf)
    ensures UniqueNames(xs, nameOf) ==> Distinct(names)
    ensures names == NameSeq(xs, nameOf)
  {
    names := [];
    for i := 0 to |xs|
      invariant Elements(names) == NamesOf(xs[..i], nameOf)
      invariant |names| == i && forall j | 0 <= j < i :: names[j] == nameOf(xs[j])
    {
      assert xs[..i + 1] == xs[..i] + [xs[i]];
      NamesOfJoin(xs[..i], [xs[i]], nameOf);
      NamesOfOne(xs[i], nameOf);
      ElementsAppend(names, nameOf(xs[i]));
      names := names + [nameOf(xs[i])];
    }
    assert xs[..|xs|] == xs;
  }

  /** Everything defined on tables that only one side has. */
  method ListWhole(tables: Tables, names: seq<Name>) returns (fields: seq<Pair>, indexes: seq<Pair>, events: seq<Pair>)
    requires Elements(names) <= tables.Keys && Distinct(names) && WellFormed(tables)
    ensures Elements(fields) == Defined(tables, FieldNames, Elements(names)) && Distinct(fields)
    ensures Elements(indexes) == Defined(tables, IndexNames, Elements(names))
    ensures Elements(events) == Defined(tables, EventNames, Elements(names))
    ensures fields == Whole(tables, FieldList, names) && indexes == Whole(tables, IndexList, names)
    ensures events == Whole(tables, EventList, names)
  {
    hide Defined, PairUp;
    fields, indexes, events := [], [], [];
    NothingDefined(tables);
    assert Elements(names[..0]) == {};
    for i := 0 to |names|
      invariant Elements(fields) == Defined(tables, FieldNames, Elements(names[..i])) && Distinct(fields)
      invariant Elements(indexes) == Defined(tables, IndexNames, Elements(names[..i]))
      invariant Elements(events) == Defined(tables, EventNames, Elements(names[..i]))
      invariant fields == Whole(tables, FieldList, names[..i]) && indexes == Whole(tables, IndexList, names[..i])
      invariant events == Whole(tables, EventList, names[..i])
    {
      assert names[..i + 1][..i] == names[..i];
      var t := names[i];
      assert t in Elements(names);
      assert names[..i + 1] == names[..i] + [t];
      ElementsAppend(names[..i], t);
      var fs := NameList(tables[t].fields, FieldName);
      fields := AddPairs(tables, FieldNames, Elements(names[..i]), t, fields, fs);
      var ixs := NameList(tables[t].indexes, IndexName);
      indexes := AddPairs(tables, IndexNames, Elements(names[..i]), t, indexes, ixs);
      var evs := NameList(tables[t].events, EventName);
      events := AddPairs(tables, EventNames, Elements(names[..i]), t, events, evs);
    }
    assert names[..|names|] == names;
  }

  lemma NothingDefined(tables: Tables)
    ensures forall names :: Defined(tables, names, {}) == {}
  {
  }

  method AddPairs(tables: Tables, ghost names: TableDef -> set<Name>, ghost among: set<Name>, t: Name, pairs: seq<Pair>,
                  found: seq<Name>)
    returns (pairs': seq<Pair>)
    requires t in tables && Elements(found) == names(tables[t])
    requires Elements(pairs) == Defined(tables, names, among) && t !in among
    ensures Elements(pairs') == Defined(tables, names, among + {t})
    ensures Distinct(pairs) && Distinct(found) ==> Distinct(pairs')
    ensures pairs' == pairs + PairUp(t, found)
  {
    pairs' := pairs + PairUp(t, found);
    PairsOnce(pairs, among, t, found);
    ElementsJoin(pairs, PairUp(t, found));
    PairUpElements(t, found);
    DefinedOneMore(tables, names, among, t);
  }

  /** The names of one sort that table `t` has on the first side only. */
  method AddMissing(here: Tables, there: Tables, names: TableDef -> set<Name>, ghost among: set<Name>, t: Name,
                    pairs: seq<Pair>)
    returns (pairs': seq<Pair>)
    requires t in here && t in there
    requires Elements(pairs) == Defined(here, names, among) - All(there, names) && t !in among
    ensures Elements(pairs') == Defined(here, names, among + {t}) - All(there, names)
    ensures Distinct(pairs) ==> Distinct(pairs')
    ensures pairs' == pairs + Lacking(here, there, names, [t])
  {
    assert [t][..0] == [];
    var missing := Missing(names(here[t]), names(there[t]));
    pairs' := pairs + PairUp(t, missing);
    ElementsJoin(pairs, PairUp(t, missing));
    PairsOnce(pairs, among, t, missing);
    PairUpElements(t, missing);
    DefinedOneMore(here, names, among, t);
    assert PairsOn(t, names(here[t])) - All(there, names) == PairsOn(t, names(here[t]) - names(there[t]));
  }

  lemma NewElement<T>(s: seq<T>, x: T)
    requires Distinct(s) && x !in Elements(s)
    ensures Distinct(s + [x])
  {
    assert forall y | y in s :: y in Elements(s);
  }

  lemma NewFieldName(fields: seq<FieldDef>, i: nat)
    requires i < |fields| && UniqueNames(fields, FieldName)
    ensures fields[i].name !in NamesOf(fields[..i], FieldName)
  {
    assert forall f | f in fields[..i] :: FieldName(f) != FieldName(fields[i]);
  }

  lemma {:induction false} UniqueLookup(fields: seq<FieldDef>, i: nat)
    requires i < |fields| && UniqueNames(fields, FieldName)
    ensures FieldNamed(fields, fields[i].name) == Some(fields[i])
  {
    if i > 0 {
      assert FieldName(fields[0]) != FieldName(fields[i]);
      UniqueLookup(fields[1..], i - 1);
    }
  }

  /** The kind of a pair is that of the field it names. */
  lemma KindMeans(tables: Tables, t: Name, f: FieldDef)
    requires WellFormed(tables) && t in tables && f in tables[t].fields
    ensures KindOf(tables, (t, f.name)) == Some(f.kind)
  {
    var i :| 0 <= i < |tables[t].fields| && tables[t].fields[i] == f;
    UniqueLookup(tables[t].fields, i);
  }

  lemma OneMoreField(t: Name, fields: seq<FieldDef>, i: nat)
    requires i < |fields|
    ensures PairsOn(t, NamesOf(fields[..i + 1], FieldName))
      == PairsOn(t, NamesOf(fields[..i], FieldName)) + {(t, fields[i].name)}
  {
    assert fields[..i + 1] == fields[..i] + [fields[i]];
    NamesOfJoin(fields[..i], [fields[i]], FieldName);
    NamesOfOne(fields[i], FieldName);
  }

  lemma KindChangesOneMore(before: Tables, after: Tables, among: set<Pair>, p: Pair)
    ensures KindChanges(before, after, among + {p})
         == KindChanges(before, after, among) + KindChanges(before, after, {p})
    ensures KindChanges(before, after, {p})
         == if KindOf(before, p).Some? && KindOf(after, p).Some? && KindOf(before, p) != KindOf(after, p)
            then {FieldTypeChange(p.0, p.1, TypeText(KindOf(before, p).value), TypeText(KindOf(after, p).value))}
            else {}
  {
    if KindOf(before, p).Some? && KindOf(after, p).Some? && KindOf(before, p) != KindOf(after, p) {
      assert p in {p};
    }
  }

  /** The changes among the given fields and the first of table `t`, each once. */
  ghost predicate RetypedSoFar(before: Tables, after: Tables, t: Name, among: set<Pair>, i: nat,
                               changes: seq<FieldTypeChange>)
    requires t in before && i <= |before[t].fields|
  {
    && Elements(changes) == KindChanges(before, after, among + PairsOn(t, NamesOf(before[t].fields[..i], FieldName)))
    && Distinct(changes)
  }

  lemma NothingRetyped(before: Tables, after: Tables, t: Name, among: set<Pair>, changes: seq<FieldTypeChange>)
    requires t in before && Elements(changes) == KindChanges(before, after, among) && Distinct(changes)
    ensures RetypedSoFar(before, after, t, among, 0, changes)
  {
    assert among + PairsOn(t, NamesOf(before[t].fields[..0], FieldName)) == among;
  }

  lemma AllRetyped(before: Tables, after: Tables, t: Name, among: set<Pair>, changes: seq<FieldTypeChange>)
    requires t in before && RetypedSoFar(before, after, t, among, |before[t].fields|, changes)
    ensures Elements(changes) == KindChanges(before, after, among + PairsOn(t, FieldNames(before[t])))
    ensures Distinct(changes)
    ensures before[t].fields[..|before[t].fields|] == before[t].fields
  {
    assert before[t].fields[..|before[t].fields|] == before[t].fields;
  }

  lemma RetypedStep(before: Tables, after: Tables, t: Name, among: set<Pair>, i: nat, changes: seq<FieldTypeChange>)
    requires t in before && t in after && WellFormed(before) && i < |before[t].fields|
    requires RetypedSoFar(before, after, t, among, i, changes) && forall p | p in among :: p.0 != t
    ensures RetypedSoFar(before, after, t, among, i + 1, changes + FieldChange(t, before[t].fields[i], after[t]))
  {
    var fields := before[t].fields;
    var n := fields[i].name;
    var known := among + PairsOn(t, NamesOf(fields[..i], FieldName));
    UniqueLookup(fields, i);
    OneMoreField(t, fields, i);
    NewFieldName(fields, i);
    KindChangesOneMore(before, after, known, (t, n));
    assert known + {(t, n)} == among + PairsOn(t, NamesOf(fields[..i + 1], FieldName));
    var more := FieldChange(t, fields[i], after[t]);
    if more != [] {
      ElementsAppend(changes, more[0]);
      NewElement(changes, more[0]);
    } else {
      assert changes + more == changes;
    }
  }

  /** The fields of table `t` present on both sides under different types. */
  method AddKindChanges(before: Tables, after: Tables, t: Name, ghost among: set<Pair>, changes: seq<FieldTypeChange>)
    returns (changes': seq<FieldTypeChange>)
    requires t in before && t in after && WellFormed(before)
    requires Elements(changes) == KindChanges(before, after, among)
    requires Distinct(changes) && forall p | p in among :: p.0 != t
    ensures Distinct(changes')
    ensures changes' == changes + Retyped(t, before[t].fields, after[t])
    ensures Elements(changes') == KindChanges(before, after, among + PairsOn(t, FieldNames(before[t])))
  {
    changes' := changes;
    hide RetypedSoFar, KindChanges;
    var fields := before[t].fields;
    NothingRetyped(before, after, t, among, changes);
    for i := 0 to |fields|
      invariant RetypedSoFar(before, after, t, among, i, changes')
      invariant changes' == changes + Retyped(t, fields[..i], after[t])
    {
      assert fields[..i + 1][..i] == fields[..i];
      RetypedStep(before, after, t, among, i, changes');
      ghost var grown := changes' + FieldChange(t, fields[i], after[t]);
      var other := FieldNamed(after[t].fields, fields[i].name);
      if other.Some? && fields[i].kind != other.value.kind {
        changes' := changes'
          + [FieldTypeChange(t, fields[i].name, TypeText(fields[i].kind), TypeText(other.value.kind))];
      }
      assert changes' == grown;
    }
    AllRetyped(before, after, t, among, changes');
  }

  /** The lists cover the given tables. */
  ghost predicate ComparedTables(a: Graph, b: Graph, d: SchemaDiff, ts: set<Name>) {
    && Elements(d.changedTables) == FlagChanges(a.tables, b.tables, ts)
    && Elements(d.addedFields) == Defined(b.tables, FieldNames, ts) - All(a.tables, FieldNames)
    && Elements(d.removedFields) == Defined(a.tables, FieldNames, ts) - All(b.tables, FieldNames)
    && Elements(d.changedFields) == KindChanges(a.tables, b.tables, Defined(a.tables, FieldNames, ts))
    && Elements(d.addedIndexes) == Defined(b.tables, IndexNames, ts) - All(a.tables, IndexNames)
    && Elements(d.removedIndexes) == Defined(a.tables, IndexNames, ts) - All(b.tables, IndexNames)
    && Elements(d.addedEvents) == Defined(b.tables, EventNames, ts) - All(a.tables, EventNames)
    && Elements(d.removedEvents) == Defined(a.tables, EventNames, ts) - All(b.tables, EventNames)
  }

  /** The lists hold what stands on one-sided tables. */
  ghost predicate WholeTables(a: Graph, b: Graph, d: SchemaDiff) {
    var onlyA, onlyB := a.tables.Keys - b.tables.Keys, b.tables.Keys - a.tables.Keys;
    && Elements(d.addedFields) == Defined(b.tables, FieldNames, onlyB)
    && Elements(d.removedFields) == Defined(a.tables, FieldNames, onlyA)
    && Elements(d.addedIndexes) == Defined(b.tables, IndexNames, onlyB)
    && Elements(d.removedIndexes) == Defined(a.tables, IndexNames, onlyA)
    && Elements(d.addedEvents) == Defined(b.tables, EventNames, onlyB)
    && Elements(d.removedEvents) == Defined(a.tables, EventNames, onlyA)
  }

  lemma OneSidedPairs(here: Tables, there: Tables, names: TableDef -> set<Name>)
    ensures Defined(here, names, (here.Keys - there.Keys) + (there.Keys - here.Keys)) - All(there, names)
         == Defined(here, names, here.Keys - there.Keys)
  {
  }

  lemma OneSided(a: Graph, b: Graph, d: SchemaDiff)
    requires WholeTables(a, b, d) && d.changedTables == [] && d.changedFields == []
    ensures ComparedTables(a, b, d, (a.tables.Keys - b.tables.Keys) + (b.tables.Keys - a.tables.Keys))
  {
    var ts := (a.tables.Keys - b.tables.Keys) + (b.tables.Keys - a.tables.Keys);
    assert ts == (b.tables.Keys - a.tables.Keys) + (a.tables.Keys - b.tables.Keys);
    OneSidedPairs(a.tables, b.tables, FieldNames);
    OneSidedPairs(b.tables, a.tables, FieldNames);
    OneSidedPairs(a.tables, b.tables, IndexNames);
    OneSidedPairs(b.tables, a.tables, IndexNames);
    OneSidedPairs(a.tables, b.tables, EventNames);
    OneSidedPairs(b.tables, a.tables, EventNames);
    assert KindChanges(a.tables, b.tables, Defined(a.tables, FieldNames, ts)) == {};
  }

  lemma OneTable(a: Graph, b: Graph, t: Name)
    requires t in a.tables && t in b.tables
    ensures RetypedAll(a.tables, b.tables, [t]) == Retyped(t, a.tables[t].fields, b.tables[t])
  {
    assert [t][..0] == [];
  }

  lemma Chained<T>(d: seq<T>, e: seq<T>, first: seq<T>, second: seq<T>)
    requires e == d + first
    ensures e + second == d + (first + second)
  {
  }

  lemma LackingChained(d: seq<Pair>, e: seq<Pair>, f: seq<Pair>, here: Tables, there: Tables,
                       names: TableDef -> set<Name>, ts: seq<Name>, t: Name)
    requires e == d + Lacking(here, there, names, ts) && f == e + Lacking(here, there, names, [t])
    ensures f == d + Lacking(here, there, names, ts + [t])
  {
    assert (ts + [t])[..|ts|] == ts && [t][..0] == [];
  }

  lemma FlaggedNext(before: Tables, after: Tables, ts: seq<Name>, t: Name)
    ensures Flagged(before, after, ts + [t]) == Flagged(before, after, ts) + Flagged(before, after, [t])
  {
    assert (ts + [t])[..|ts|] == ts && [t][..0] == [];
  }

  lemma RetypedAllNext(before: Tables, after: Tables, ts: seq<Name>, t: Name)
    ensures RetypedAll(before, after, ts + [t]) == RetypedAll(before, after, ts) + RetypedAll(before, after, [t])
  {
    assert (ts + [t])[..|ts|] == ts && [t][..0] == [];
  }

  lemma ContinuesNext(a: Graph, b: Graph, d: SchemaDiff, e: SchemaDiff, f: SchemaDiff, ts: seq<Name>, t: Name)
    requires Continues(a, b, d, e, ts) && Continues(a, b, e, f, [t])
    ensures Continues(a, b, d, f, ts + [t])
  {
    hide Flagged, RetypedAll, Lacking;
    FlaggedNext(a.tables, b.tables, ts, t);
    RetypedAllNext(a.tables, b.tables, ts, t);
    Chained(d.changedTables, e.changedTables, Flagged(a.tables, b.tables, ts), Flagged(a.tables, b.tables, [t]));
    Chained(d.changedFields, e.changedFields, RetypedAll(a.tables, b.tables, ts), RetypedAll(a.tables, b.tables, [t]));
    LackingChained(d.addedFields, e.addedFields, f.addedFields, b.tables, a.tables, FieldNames, ts, t);
    LackingChained(d.removedFields, e.removedFields, f.removedFields, a.tables, b.tables, FieldNames, ts, t);
    LackingChained(d.addedIndexes, e.addedIndexes, f.addedIndexes, b.tables, a.tables, IndexNames, ts, t);
    LackingChained(d.removedIndexes, e.removedIndexes, f.removedIndexes, a.tables, b.tables, IndexNames, ts, t);
    LackingChained(d.addedEvents, e.addedEvents, f.addedEvents, b.tables, a.tables, EventNames, ts, t);
    LackingChained(d.removedEvents, e.removedEvents, f.removedEvents, a.tables, b.tables, EventNames, ts, t);
  }

  /** The flag change of table `t`, if there is one. */
  method AddFlagChange(before: Tables, after: Tables, t: Name, ghost among: set<Name>, changes: seq<TableChange>)
    returns (changes': seq<TableChange>)
    requires t in before && t in after && t !in among
    requires Elements(changes) == FlagChanges(before, after, among) && Distinct(changes)
    ensures Elements(changes') == FlagChanges(before, after, among + {t}) && Distinct(changes')
    ensures changes' == changes + Flagged(before, after, [t])
  {
    assert [t][..0] == [];
    changes' := changes;
    var change := TableChange(t, before[t].full, after[t].full);
    assert FlagChanges(before, after, among + {t})
        == FlagChanges(before, after, among) + if change.beforeFull != change.afterFull then {change} else {};
    if before[t].full != after[t].full {
      ElementsAppend(changes, change);
      NewElement(changes, change);
      changes' := changes + [change];
    }
  }

  method CompareTable(a: Graph, b: Graph, d: SchemaDiff, ghost ts: set<Name>, t: Name) returns (e: SchemaDiff)
    requires WellFormed(a.tables) && t in a.tables && t in b.tables
    requires ComparedTables(a, b, d, ts) && ListedOnce(d) && t !in ts
    ensures e.addedTables == d.addedTables && e.removedTables == d.removedTables
    ensures e.addedFunctions == d.addedFunctions && e.removedFunctions == d.removedFunctions
    ensures ComparedTables(a, b, e, ts + {t}) && ListedOnce(e)
    ensures Continues(a, b, d, e, [t])
  {
    e := d;
    OneTable(a, b, t);
    var fs := AddFlagChange(a.tables, b.tables, t, ts, e.changedTables);
    e := e.(changedTables := fs);
    var xs := AddMissing(b.tables, a.tables, FieldNames, ts, t, e.addedFields);
    e := e.(addedFields := xs);
    xs := AddMissing(a.tables, b.tables, FieldNames, ts, t, e.removedFields);
    e := e.(removedFields := xs);
    DefinedOneMore(a.tables, FieldNames, ts, t);
    var cs := AddKindChanges(a.tables, b.tables, t, Defined(a.tables, FieldNames, ts), e.changedFields);
    e := e.(changedFields := cs);
    xs := AddMissing(b.tables, a.tables, IndexNames, ts, t, e.addedIndexes);
    e := e.(addedIndexes := xs);
    xs := AddMissing(a.tables, b.tables, IndexNames, ts, t, e.removedIndexes);
    e := e.(removedIndexes := xs);
    xs := AddMissing(b.tables, a.tables, EventNames, ts, t, e.addedEvents);
    e := e.(addedEvents := xs);
    xs := AddMissing(a.tables, b.tables, EventNames, ts, t, e.removedEvents);
    e := e.(removedEvents := xs);
  }

  /** The report so far: complete for the one-sided tables and the given common ones, and in order. */
  ghost predicate ComparedSoFar(a: Graph, b: Graph, d: SchemaDiff, e: SchemaDiff, base: set<Name>, ts: seq<Name>) {
    && e.addedTables == d.addedTables && e.removedTables == d.removedTables
    && e.addedFunctions == d.addedFunctions && e.removedFunctions == d.removedFunctions
    && ComparedTables(a, b, e, base + Elements(ts)) && ListedOnce(e) && Continues(a, b, d, e, ts)
  }

  lemma NothingCompared(a: Graph, b: Graph, d: SchemaDiff, base: set<Name>)
    requires ComparedTables(a, b, d, base) && ListedOnce(d)
    ensures ComparedSoFar(a, b, d, d, base, [])
  {
    assert base + Elements([]) == base;
  }

  method CompareNext(a: Graph, b: Graph, ghost d: SchemaDiff, e: SchemaDiff, ghost base: set<Name>, ghost ts: seq<Name>,
                     t: Name)
    returns (f: SchemaDiff)
    requires WellFormed(a.tables) && t in a.tables && t in b.tables
    requires ComparedSoFar(a, b, d, e, base, ts) && t !in base + Elements(ts)
    ensures ComparedSoFar(a, b, d, f, base, ts + [t])
  {
    f := CompareTable(a, b, e, base + Elements(ts), t);
    ContinuesNext(a, b, d, e, f, ts, t);
    ElementsAppend(ts, t);
    assert base + Elements(ts) + {t} == base + Elements(ts + [t]);
  }

  /** Compare the tables both sides have. */
  method CompareCommon(a: Graph, b: Graph, d: SchemaDiff, common: seq<Name>) returns (e: SchemaDiff)
    requires WellFormed(a.tables) && WellFormed(b.tables)
    requires Elements(common) == a.tables.Keys * b.tables.Keys && Distinct(common)
    requires ListedOnce(d)
    requires d.changedTables == [] && d.changedFields == []
    requires WholeTables(a, b, d)
    ensures e.addedTables == d.addedTables && e.removedTables == d.removedTables
    ensures e.addedFunctions == d.addedFunctions && e.removedFunctions == d.removedFunctions
    ensures ComparedTables(a, b, e, a.tables.Keys + b.tables.Keys) && ListedOnce(e)
    ensures Continues(a, b, d, e, common)
  {
    hide ComparedTables, ListedOnce, Continues, WholeTables;
    e := d;
    OneSided(a, b, d);
    ghost var base := (a.tables.Keys - b.tables.Keys) + (b.tables.Keys - a.tables.Keys);
    NothingCompared(a, b, d, base);
    for i := 0 to |common|
      invariant ComparedSoFar(a, b, d, e, base, common[..i])
    {
      assert common[i] in Elements(common);
      assert common[..i + 1] == common[..i] + [common[i]];
      e := CompareNext(a, b, d, e, base, common[..i], common[i]);
    }
    assert common[..|common|] == common;
    BothSides(a.tables.Keys, b.tables.Keys);
  }

  lemma BothSides(here: set<Name>, there: set<Name>)
    ensures (here - there) + (there - here) + here * there == here + there
  {
  }

  lemma AllTables(tables: Tables, names: TableDef -> set<Name>, more: set<Name>)
    ensures Defined(tables, names, tables.Keys + more) == All(tables, names)
  {
  }

  /** One-sided tables whole, then the common ones one by one, then functions. */
  method CompareSchemas(before: Graph, after: Graph) returns (diff: SchemaDiff)
    requires WellFormed(before.tables) && WellFormed(after.tables)
    ensures IsDiff(before, after, diff) && ListedOnce(diff) && InReportOrder(before, after, diff)
  {
    var added := Missing(after.tables.Keys, before.tables.Keys);
    var addedFields, addedIndexes, addedEvents := ListWhole(after.tables, added);
    var removed := Missing(before.tables.Keys, after.tables.Keys);
    var removedFields, removedIndexes, removedEvents := ListWhole(before.tables, removed);
    diff := SchemaDiff(added, removed, [], addedFields, removedFields, [], addedIndexes, removedIndexes,
                       addedEvents, removedEvents, [], []);
    var common := SortedMembers(before.tables.Keys * after.tables.Keys);
    ListedNamesDiffer(common);
    ghost var whole := diff;
    diff := CompareCommon(before, after, diff, common);
    SortedIs(common, before.tables.Keys * after.tables.Keys);
    CoveredIsDiff(before, after, diff);
    var addedFunctions := Missing(after.functions.Keys, before.functions.Keys);
    var removedFunctions := Missing(before.functions.Keys, after.functions.Keys);
    diff := diff.(addedFunctions := addedFunctions, removedFunctions := removedFunctions);
    assert StartsWithWhole(before, after, whole);
    assert Continues(before, after, whole, diff, SortedOf(before.tables.Keys * after.tables.Keys));
  }

  lemma CoveredIsDiff(a: Graph, b: Graph, d: SchemaDiff)
    requires ComparedTables(a, b, d, a.tables.Keys + b.tables.Keys)
    ensures TablesCompared(a, b, d)
  {
    assert a.tables.Keys + b.tables.Keys == b.tables.Keys + a.tables.Keys;
    AllTables(a.tables, FieldNames, b.tables.Keys);
    AllTables(b.tables, FieldNames, a.tables.Keys);
    AllTables(a.tables, IndexNames, b.tables.Keys);
    AllTables(b.tables, IndexNames, a.tables.Keys);
    AllTables(a.tables, EventNames, b.tables.Keys);
    AllTables(b.tables, EventNames, a.tables.Keys);
    assert FlagChanges(a.tables, b.tables, a.tables.Keys + b.tables.Keys)
      == FlagChanges(a.tables, b.tables, a.tables.Keys);
  }
}
