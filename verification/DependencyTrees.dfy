/**
 Dependency trees: the depth-bounded unfolding of the link graph, the capped construction as the
 first nodes of that unfolding in visiting order, and its agreement with shortest distances.
 */
module DependencyTrees {
  import opened Ordering
  import opened Schema
  import opened Walks
  import opened Reachability

  datatype Node = Node(table: Name, field: Option<Name>, children: seq<Node>, isCycle: bool)

  const MAX_NODES: nat := 1000

  // A link of a table, as (field, target).
  type Link = (Name, Name)

  predicate LinkLess(a: Link, b: Link) {
    NameLess(a.0, b.0) || (a.0 == b.0 && NameLess(a.1, b.1))
  }

  /** The links of one field, in order of declaration. */
  function FieldLinks(f: FieldDef): seq<Link> {
    seq(|f.recordLinks|, i requires 0 <= i < |f.recordLinks| => (f.name, f.recordLinks[i]))
  }

  function AllLinks(fields: seq<FieldDef>): seq<Link> {
    if fields == [] then [] else AllLinks(fields[..|fields| - 1]) + FieldLinks(fields[|fields| - 1])
  }

  function SortedLinks(t: TableDef): seq<Link> {
    SortBy(AllLinks(t.fields), LinkLess)
  }

  /** The whole tree down to `depth`, cut only where a table meets itself among its ancestors. */
  function Unfold(tables: Tables, t: Name, via: Option<Name>, depth: nat, ancestors: set<Name>): Node
    decreases depth
  {
    if t in ancestors then Node(t, via, [], true)
    else if depth == 0 || t !in tables then Node(t, via, [], false)
    else
      var links := SortedLinks(tables[t]);
      Node(t, via, seq(|links|, i requires 0 <= i < |links| =>
        Unfold(tables, links[i].1, Some(links[i].0), depth - 1, ancestors + {t})), false)
  }

  // --- Visiting order ---

  datatype Entry = Entry(level: nat, table: Name, field: Option<Name>, isCycle: bool)

  function Preorder(n: Node, level: nat): seq<Entry> {
    [Entry(level, n.table, n.field, n.isCycle)] + PreorderAll(n.children, level + 1)
  }

  function PreorderAll(ns: seq<Node>, level: nat): seq<Entry> {
    if ns == [] then [] else Preorder(ns[0], level) + PreorderAll(ns[1..], level)
  }

  function Size(n: Node): nat { |Preorder(n, 0)| }

  function Take<T>(s: seq<T>, n: nat): seq<T> {
    if n <= |s| then s[..n] else s
  }

  lemma {:induction false} PreorderAllJoin(a: seq<Node>, b: seq<Node>, level: nat)
    ensures PreorderAll(a + b, level) == PreorderAll(a, level) + PreorderAll(b, level)
  {
    if a == [] {
      assert a + b == b;
    } else {
      assert (a + b)[1..] == a[1..] + b;
      PreorderAllJoin(a[1..], b, level);
    }
  }

  lemma PreorderAllOne(n: Node, level: nat)
    ensures PreorderAll([n], level) == Preorder(n, level)
  {
    assert PreorderAll([n][1..], level) == [];
  }

  lemma {:induction false} PreorderSize(n: Node, level: nat)
    ensures |Preorder(n, level)| == Size(n)
    decreases n
  {
    PreorderAllSize(n.children, level + 1, 1);
  }

  lemma {:induction false} PreorderAllSize(ns: seq<Node>, level: nat, other: nat)
    ensures |PreorderAll(ns, level)| == |PreorderAll(ns, other)|
    decreases ns
  {
    if ns != [] {
      PreorderSize(ns[0], level);
      PreorderSize(ns[0], other);
      PreorderAllSize(ns[1..], level, other);
    }
  }

  // --- Cutting the visit short ---

  /** `n` is the first `budget` nodes of `whole` in visiting order, and all of it if there are fewer. */
  ghost predicate CutFrom(n: Node, whole: Node, level: nat, budget: nat) {
    && Preorder(n, level) == Take(Preorder(whole, level), budget)
    && (|Preorder(n, level)| < budget ==> n == whole)
  }

  ghost predicate CutsFrom(ns: seq<Node>, wholes: seq<Node>, level: nat, budget: nat) {
    && PreorderAll(ns, level) == Take(PreorderAll(wholes, level), budget)
    && (|PreorderAll(ns, level)| < budget ==> ns == wholes)
  }

  lemma LeafCut(n: Node, level: nat, budget: nat)
    requires n.children == [] && budget > 0
    ensures CutFrom(n, n, level, budget) && Size(n) == 1
  {
    assert Preorder(n, level) == [Entry(level, n.table, n.field, n.isCycle)];
    PreorderSize(n, level);
  }

  /** One more child continues the visit where the previous ones left off. */
  lemma ChildAppended(ns: seq<Node>, wholes: seq<Node>, k: nat, child: Node, level: nat, budget: nat)
    requires k < |wholes| && CutsFrom(ns, wholes[..k], level, budget)
    requires |PreorderAll(ns, level)| < budget
    requires CutFrom(child, wholes[k], level, budget - |PreorderAll(ns, level)|)
    ensures CutsFrom(ns + [child], wholes[..k + 1], level, budget)
    ensures |PreorderAll(ns + [child], level)| == |PreorderAll(ns, level)| + Size(child)
  {
    PreorderAllJoin(ns, [child], level);
    PreorderAllOne(child, level);
    PreorderAllJoin(wholes[..k], [wholes[k]], level);
    PreorderAllOne(wholes[k], level);
    assert wholes[..k + 1] == wholes[..k] + [wholes[k]];
    PreorderSize(child, level);
  }

  /** When the budget is spent the children left out come after everything kept. */
  lemma CutShort(ns: seq<Node>, wholes: seq<Node>, k: nat, level: nat, budget: nat)
    requires k <= |wholes| && CutsFrom(ns, wholes[..k], level, budget)
    requires k < |wholes| ==> |PreorderAll(ns, level)| == budget
    ensures CutsFrom(ns, wholes, level, budget)
  {
    assert wholes == wholes[..k] + wholes[k..];
    PreorderAllJoin(wholes[..k], wholes[k..], level);
  }

  lemma NodeCut(n: Node, whole: Node, level: nat, budget: nat)
    requires budget > 0 && n == whole.(children := n.children)
    requires CutsFrom(n.children, whole.children, level + 1, budget - 1)
    ensures CutFrom(n, whole, level, budget)
    ensures Size(n) == 1 + |PreorderAll(n.children, level + 1)|
  {
    PreorderSize(n, level);
  }

  /** A node is marked as a cycle exactly when its table is one of its proper ancestors. */
  ghost predicate CyclesMarked(n: Node, ancestors: set<Name>) {
    && (n.isCycle <==> n.table in ancestors)
    && (n.isCycle ==> n.children == [])
    && forall c | c in n.children :: CyclesMarked(c, ancestors + {n.table})
  }

  lemma NodeMarked(n: Node, ancestors: set<Name>)
    requires (n.isCycle <==> n.table in ancestors) && (n.isCycle ==> n.children == [])
    requires forall c | c in n.children :: CyclesMarked(c, ancestors + {n.table})
    ensures CyclesMarked(n, ancestors)
  {
  }

  /** What stands at the top of the unfolding and right below it. */
  lemma UnfoldShape(tables: Tables, t: Name, via: Option<Name>, depth: nat, ancestors: set<Name>)
    ensures
      var n := Unfold(tables, t, via, depth, ancestors);
      if t in ancestors then n == Node(t, via, [], true)
      else
        && n == Node(t, via, n.children, false)
        && |n.children| == if depth > 0 && t in tables then |SortedLinks(tables[t])| else 0
  {
  }

  lemma UnfoldChild(tables: Tables, t: Name, via: Option<Name>, depth: nat, ancestors: set<Name>, k: nat)
    requires t !in ancestors && depth > 0 && t in tables && k < |SortedLinks(tables[t])|
    ensures
      var n, link := Unfold(tables, t, via, depth, ancestors), SortedLinks(tables[t])[k];
      k < |n.children| && n.children[k] == Unfold(tables, link.1, Some(link.0), depth - 1, ancestors + {t})
  {
  }

  /** Before the first child nothing has been visited. */
  lemma NoChildYet(wholes: seq<Node>, level: nat, budget: nat)
    ensures |PreorderAll([], level)| == 0
    ensures CutsFrom([], wholes[..0], level, budget)
    ensures wholes == [] || budget == 0 ==> CutsFrom([], wholes, level, budget)
  {
  }

  lemma {:induction false} UnfoldMarked(tables: Tables, t: Name, via: Option<Name>, depth: nat, ancestors: set<Name>)
    ensures CyclesMarked(Unfold(tables, t, via, depth, ancestors), ancestors)
    decreases depth
  {
    if t !in ancestors && depth > 0 && t in tables {
      forall i | 0 <= i < |SortedLinks(tables[t])|
        ensures CyclesMarked(Unfold(tables, t, via, depth, ancestors).children[i], ancestors + {t})
      {
        var link := SortedLinks(tables[t])[i];
        UnfoldMarked(tables, link.1, Some(link.0), depth - 1, ancestors + {t});
      }
    }
  }

  /** No visited node of the unfolding lies deeper than the bound. */
  lemma {:induction false} UnfoldHeight(tables: Tables, t: Name, via: Option<Name>, depth: nat, ancestors: set<Name>,
                                        level: nat)
    ensures forall e | e in Preorder(Unfold(tables, t, via, depth, ancestors), level) :: e.level <= level + depth
    decreases depth, 1, 0
  {
    var n := Unfold(tables, t, via, depth, ancestors);
    if n.children != [] {
      UnfoldAllHeight(tables, SortedLinks(tables[t]), n.children, depth - 1, ancestors + {t}, level + 1);
    }
  }

  lemma {:induction false} UnfoldAllHeight(tables: Tables, links: seq<Link>, ns: seq<Node>, depth: nat,
                                           ancestors: set<Name>, level: nat)
    requires |ns| == |links|
    requires forall i | 0 <= i < |ns| :: ns[i] == Unfold(tables, links[i].1, Some(links[i].0), depth, ancestors)
    ensures forall e | e in PreorderAll(ns, level) :: e.level <= level + depth
    decreases depth, 2, |ns|
  {
    if ns != [] {
      UnfoldHeight(tables, links[0].1, Some(links[0].0), depth, ancestors, level);
      UnfoldAllHeight(tables, links[1..], ns[1..], depth, ancestors, level);
    }
  }

  // --- The links of a table are its edges ---

  lemma LinkOrder()
    ensures TotalOrder(LinkLess)
  {
    NameOrder();
  }

  lemma {:induction false} AllLinksMembers(fields: seq<FieldDef>, via: Name, to: Name)
    ensures (via, to) in AllLinks(fields) <==> exists f :: f in fields && f.name == via && to in f.recordLinks
  {
    if fields != [] {
      var front, last := fields[..|fields| - 1], fields[|fields| - 1];
      AllLinksMembers(front, via, to);
      assert fields == front + [last];
      assert (via, to) in FieldLinks(last) <==> last.name == via && to in last.recordLinks by {
        if last.name == via && to in last.recordLinks {
          var i :| 0 <= i < |last.recordLinks| && last.recordLinks[i] == to;
          assert FieldLinks(last)[i] == (via, to);
        }
      }
      assert forall f :: f in fields <==> f in front || f == last;
    }
  }

  lemma SortedLinksAreLinks(tables: Tables, t: Name, via: Name, to: Name)
    requires t in tables
    ensures (via, to) in SortedLinks(tables[t]) <==> Links(tables, t, via, to)
  {
    LinkOrder();
    SortByCorrect(AllLinks(tables[t].fields), LinkLess);
    AllLinksMembers(tables[t].fields, via, to);
  }

  /** A child of the unfolding is the unfolding at the far end of a link. */
  lemma ChildLink(tables: Tables, t: Name, via: Option<Name>, depth: nat, ancestors: set<Name>, i: nat)
    returns (link: Link)
    requires i < |Unfold(tables, t, via, depth, ancestors).children|
    ensures depth > 0 && Links(tables, t, link.0, link.1)
    ensures Unfold(tables, t, via, depth, ancestors).children[i]
         == Unfold(tables, link.1, Some(link.0), depth - 1, ancestors + {t})
  {
    link := SortedLinks(tables[t])[i];
    assert (link.0, link.1) in SortedLinks(tables[t]);
    SortedLinksAreLinks(tables, t, link.0, link.1);
  }

  // --- The children of a node ---

  /** How often a field of the given name is declared to link to a table. */
  function Declared(fields: seq<FieldDef>, via: Name, to: Name): nat {
    if fields == [] then 0
    else
      var last := fields[|fields| - 1];
      Declared(fields[..|fields| - 1], via, to) + if last.name == via then multiset(last.recordLinks)[to] else 0
  }

  lemma {:induction false} FieldLinksCount(f: FieldDef, via: Name, to: Name)
    ensures multiset(FieldLinks(f))[(via, to)] == if f.name == via then multiset(f.recordLinks)[to] else 0
    decreases |f.recordLinks|
  {
    if f.recordLinks != [] {
      var front, last := f.recordLinks[..|f.recordLinks| - 1], f.recordLinks[|f.recordLinks| - 1];
      FieldLinksCount(f.(recordLinks := front), via, to);
      assert FieldLinks(f) == FieldLinks(f.(recordLinks := front)) + [(f.name, last)];
      assert f.recordLinks == front + [last];
    }
  }

  lemma {:induction false} AllLinksCount(fields: seq<FieldDef>, via: Name, to: Name)
    ensures multiset(AllLinks(fields))[(via, to)] == Declared(fields, via, to)
  {
    hide FieldLinks;
    if fields != [] {
      var last := fields[|fields| - 1];
      AllLinksCount(fields[..|fields| - 1], via, to);
      FieldLinksCount(last, via, to);
    }
  }

  /** Sorted links stand by field name and then by target, each as often as it is declared. */
  lemma SortedLinksExact(t: TableDef)
    ensures
      var links := SortedLinks(t);
      forall i, j | 0 <= i < j < |links| ::
        NameLess(links[i].0, links[j].0)
        || (links[i].0 == links[j].0 && (NameLess(links[i].1, links[j].1) || links[i].1 == links[j].1))
    ensures forall via, to :: multiset(SortedLinks(t))[(via, to)] == Declared(t.fields, via, to)
  {
    LinkOrder();
    SortByCorrect(AllLinks(t.fields), LinkLess);
    var links := SortedLinks(t);
    forall i, j | 0 <= i < j < |links|
      ensures NameLess(links[i].0, links[j].0)
        || (links[i].0 == links[j].0 && (NameLess(links[i].1, links[j].1) || links[i].1 == links[j].1))
    {
      assert !LinkLess(links[j], links[i]);
      NameLessTotal(links[i].0, links[j].0);
      NameLessTotal(links[i].1, links[j].1);
    }
    forall via, to ensures multiset(links)[(via, to)] == Declared(t.fields, via, to) {
      AllLinksCount(t.fields, via, to);
    }
  }

  /** Below every node the children stand by field name and then by target. */
  ghost predicate ChildrenOrdered(n: Node) {
    && (forall c | c in n.children :: c.field.Some? && ChildrenOrdered(c))
    && (forall i, j | 0 <= i < j < |n.children| && n.children[i].field.Some? && n.children[j].field.Some? ::
          || NameLess(n.children[i].field.value, n.children[j].field.value)
          || (n.children[i].field == n.children[j].field
              && (NameLess(n.children[i].table, n.children[j].table) || n.children[i].table == n.children[j].table)))
  }

  function LinksShown(n: Node): seq<Link> {
    seq(|n.children|, i requires 0 <= i < |n.children| =>
      (if n.children[i].field.Some? then n.children[i].field.value else "", n.children[i].table))
  }

  /** Down to the depth every node that is no cycle has one child for each time a link is declared. */
  ghost predicate LinksComplete(tables: Tables, n: Node, depth: nat)
    decreases depth
  {
    if n.isCycle || depth == 0 || n.table !in tables then n.children == []
    else
      && (forall via, to :: multiset(LinksShown(n))[(via, to)] == Declared(tables[n.table].fields, via, to))
      && (forall c | c in n.children :: LinksComplete(tables, c, depth - 1))
  }

  /** Children that show the first links of a table, in order, are ordered. */
  lemma FirstLinksOrdered(t: TableDef, n: Node)
    requires |n.children| <= |SortedLinks(t)| && forall c | c in n.children :: ChildrenOrdered(c)
    requires forall i | 0 <= i < |n.children| ::
      n.children[i].table == SortedLinks(t)[i].1 && n.children[i].field == Some(SortedLinks(t)[i].0)
    ensures ChildrenOrdered(n)
  {
    SortedLinksExact(t);
  }

  lemma LeafOrdered(n: Node)
    requires n.children == []
    ensures ChildrenOrdered(n)
  {
  }

  lemma {:induction false} UnfoldComplete(tables: Tables, t: Name, via: Option<Name>, depth: nat, ancestors: set<Name>)
    ensures LinksComplete(tables, Unfold(tables, t, via, depth, ancestors), depth)
    decreases depth
  {
    hide Unfold, SortedLinks, LinksShown, Declared;
    var n := Unfold(tables, t, via, depth, ancestors);
    UnfoldShape(tables, t, via, depth, ancestors);
    if !n.isCycle && depth > 0 && t in tables {
      forall c | c in n.children ensures LinksComplete(tables, c, depth - 1) {
        var i :| 0 <= i < |n.children| && n.children[i] == c;
        UnfoldChild(tables, t, via, depth, ancestors, i);
        UnfoldComplete(tables, SortedLinks(tables[t])[i].1, Some(SortedLinks(tables[t])[i].0), depth - 1, ancestors
          + {t});
      }
      UnfoldShows(tables, t, via, depth, ancestors);
      SortedLinksExact(tables[t]);
    }
  }

  lemma UnfoldShows(tables: Tables, t: Name, via: Option<Name>, depth: nat, ancestors: set<Name>)
    requires t !in ancestors && depth > 0 && t in tables
    ensures LinksShown(Unfold(tables, t, via, depth, ancestors)) == SortedLinks(tables[t])
  {
    var n, links := Unfold(tables, t, via, depth, ancestors), SortedLinks(tables[t]);
    UnfoldShape(tables, t, via, depth, ancestors);
    forall i | 0 <= i < |links| ensures LinksShown(n)[i] == links[i] {
      UnfoldChild(tables, t, via, depth, ancestors, i);
      UnfoldShape(tables, links[i].1, Some(links[i].0), depth - 1, ancestors + {t});
    }
  }

  // --- Agreement with distances ---

  /** Some node at depth `k` below `n` stands for table `t` and is not a cycle mark. */
  ghost predicate Occurs(n: Node, t: Name, k: nat)
    decreases k
  {
    if k == 0 then n.table == t && !n.isCycle
    else exists c :: c in n.children && Occurs(c, t, k - 1)
  }

  lemma {:induction false} OccurrenceHasWalk(tables: Tables, u: Name, via: Option<Name>, depth: nat,
                                             ancestors: set<Name>, t: Name, k: nat)
    returns (p: seq<Hop>)
    requires Occurs(Unfold(tables, u, via, depth, ancestors), t, k)
    ensures Walk(tables, u, p, t) && |p| == k <= depth
    decreases k
  {
    hide Walk, Unfold, Occurs;
    if k == 0 {
      StandsForRoot(tables, u, via, depth, ancestors, t);
      p := [];
      WalkNowhere(tables, u);
    } else {
      var i := ChildWithOccurrence(Unfold(tables, u, via, depth, ancestors), t, k);
      var link := ChildLink(tables, u, via, depth, ancestors, i);
      var rest := OccurrenceHasWalk(tables, link.1, Some(link.0), depth - 1, ancestors + {u}, t, k - 1);
      WalkCons(tables, u, link.0, link.1, rest, t);
      p := [Hop(u, link.0)] + rest;
    }
  }

  lemma StandsForRoot(tables: Tables, u: Name, via: Option<Name>, depth: nat, ancestors: set<Name>, t: Name)
    ensures Occurs(Unfold(tables, u, via, depth, ancestors), t, 0) <==> u == t && u !in ancestors
  {
  }

  lemma StandsBelow(tables: Tables, u: Name, via: Option<Name>, depth: nat, ancestors: set<Name>, link: Link, t: Name,
                    k: nat)
    requires u !in ancestors && depth > 0 && u in tables && link in SortedLinks(tables[u])
    requires Occurs(Unfold(tables, link.1, Some(link.0), depth - 1, ancestors + {u}), t, k)
    ensures Occurs(Unfold(tables, u, via, depth, ancestors), t, k + 1)
  {
    var i :| 0 <= i < |SortedLinks(tables[u])| && SortedLinks(tables[u])[i] == link;
    var n := Unfold(tables, u, via, depth, ancestors);
    assert n.children[i] in n.children;
  }

  lemma ChildWithOccurrence(n: Node, t: Name, k: nat) returns (i: nat)
    requires k > 0 && Occurs(n, t, k)
    ensures i < |n.children| && Occurs(n.children[i], t, k - 1)
  {
    i :| 0 <= i < |n.children| && Occurs(n.children[i], t, k - 1);
  }

  lemma {:induction false} SimpleWalkOccurs(tables: Tables, u: Name, via: Option<Name>, depth: nat,
                                            ancestors: set<Name>, p: seq<Hop>, t: Name)
    requires Walk(tables, u, p, t) && |p| <= depth
    requires Distinct(Stops(p) + [t]) && Elements(Stops(p) + [t]) !! ancestors
    ensures Occurs(Unfold(tables, u, via, depth, ancestors), t, |p|)
    decreases |p|
  {
    hide Walk, Unfold, Occurs, SortedLinks;
    var trail := Stops(p) + [t];
    assert trail[|p|] == t;
    if p == [] {
      WalkNothing(tables, u, t);
      StandsForRoot(tables, u, via, depth, ancestors, t);
    } else {
      var next := WalkUncons(tables, u, p, t);
      assert trail[0] == u;
      SortedLinksAreLinks(tables, u, p[0].field, next);
      assert Stops(p[1..]) + [t] == trail[1..];
      assert u !in trail[1..];
      SimpleWalkOccurs(tables, next, Some(p[0].field), depth - 1, ancestors + {u}, p[1..], t);
      StandsBelow(tables, u, via, depth, ancestors, (p[0].field, next), t, |p| - 1);
    }
  }

  /** `k` is the least depth at which `t` stands in the tree. */
  ghost predicate LeastDepth(n: Node, t: Name, k: nat) {
    Occurs(n, t, k) && forall j: nat | Occurs(n, t, j) :: k <= j
  }

  /** In the uncapped tree a table first stands exactly at its distance from the root. */
  lemma UnfoldFindsDistance(tables: Tables, root: Name, maxDepth: nat, t: Name, k: nat)
    ensures LeastDepth(Unfold(tables, root, None, maxDepth, {}), t, k)
       <==> k <= maxDepth && Distance(tables, root, t, k)
  {
    var tree := Unfold(tables, root, None, maxDepth, {});
    if Occurs(tree, t, k) {
      var p := OccurrenceHasWalk(tables, root, None, maxDepth, {}, t, k);
      var d := DistanceExists(tables, root, p, t);
      DistanceOccurs(tables, root, maxDepth, t, d);
    }
    if k <= maxDepth && Distance(tables, root, t, k) {
      DistanceOccurs(tables, root, maxDepth, t, k);
      forall j: nat | Occurs(tree, t, j) ensures k <= j {
        var p := OccurrenceHasWalk(tables, root, None, maxDepth, {}, t, j);
      }
    }
  }

  lemma DistanceOccurs(tables: Tables, root: Name, maxDepth: nat, t: Name, d: nat)
    requires d <= maxDepth && Distance(tables, root, t, d)
    ensures Occurs(Unfold(tables, root, None, maxDepth, {}), t, d)
  {
    var p :| Walk(tables, root, p, t) && |p| == d;
    ShortestIsSimple(tables, root, p, t);
    SimpleWalkOccurs(tables, root, None, maxDepth, {}, p, t);
  }

  ghost predicate Stands(n: Node, t: Name) {
    exists k: nat :: Occurs(n, t, k)
  }

  lemma StandsWithinDistance(tables: Tables, root: Name, maxDepth: nat, t: Name) returns (d: nat)
    requires Stands(Unfold(tables, root, None, maxDepth, {}), t)
    ensures d <= maxDepth && Distance(tables, root, t, d)
  {
    var k: nat :| Occurs(Unfold(tables, root, None, maxDepth, {}), t, k);
    var p := OccurrenceHasWalk(tables, root, None, maxDepth, {}, t, k);
    d := DistanceExists(tables, root, p, t);
  }

  /**
   The two traversals agree: below the node cap a table other than the root stands in the tree iff
   the listing reports it, and its least depth there is the depth reported.
   */
  lemma TraversalsAgree(tables: Tables, root: Name, maxDepth: nat, rs: seq<Reached>)
    requires IsReachableListing(tables, root, maxDepth, rs)
    ensures forall t | t != root :: Stands(Unfold(tables, root, None, maxDepth, {}), t) <==> t in TablesOf(rs)
    ensures forall r | r in rs :: LeastDepth(Unfold(tables, root, None, maxDepth, {}), r.table, r.depth)
  {
    var tree := Unfold(tables, root, None, maxDepth, {});
    forall r | r in rs ensures LeastDepth(tree, r.table, r.depth) {
      UnfoldFindsDistance(tables, root, maxDepth, r.table, r.depth);
    }
    forall t | t != root ensures Stands(tree, t) <==> t in TablesOf(rs) {
      if t in TablesOf(rs) {
        var r :| r in rs && r.table == t;
        assert Occurs(tree, t, r.depth);
      } else if Stands(tree, t) {
        var d := StandsWithinDistance(tables, root, maxDepth, t);
      }
    }
  }

  // --- Every node, at every size ---

  lemma {:induction false} ChildOf(ns: seq<Node>, level: nat, e: Entry) returns (i: nat)
    requires e in PreorderAll(ns, level)
    ensures i < |ns| && e in Preorder(ns[i], level)
  {
    if e in Preorder(ns[0], level) {
      i := 0;
    } else {
      i := ChildOf(ns[1..], level, e);
      i := i + 1;
    }
  }

  /** A node of the unfolding, cycle marks included, lies as deep as some walk to its table is long. */
  lemma {:induction false} EntryHasWalk(tables: Tables, t: Name, via: Option<Name>, depth: nat, ancestors: set<Name>,
                                        level: nat, e: Entry)
    returns (p: seq<Hop>)
    requires e in Preorder(Unfold(tables, t, via, depth, ancestors), level)
    ensures Walk(tables, t, p, e.table) && level + |p| == e.level && |p| <= depth
    decreases depth
  {
    hide Walk, Unfold, SortedLinks;
    var n := Unfold(tables, t, via, depth, ancestors);
    UnfoldShape(tables, t, via, depth, ancestors);
    if e == Entry(level, n.table, n.field, n.isCycle) {
      p := [];
      WalkNowhere(tables, t);
    } else {
      var i := ChildOf(n.children, level + 1, e);
      var link := ChildLink(tables, t, via, depth, ancestors, i);
      var rest := EntryHasWalk(tables, link.1, Some(link.0), depth - 1, ancestors + {t}, level + 1, e);
      WalkCons(tables, t, link.0, link.1, rest, e.table);
      p := [Hop(t, link.0)] + rest;
    }
  }

  /** The listing reports a table, and no deeper than the given level. */
  ghost predicate ReportedBy(rs: seq<Reached>, t: Name, level: nat) {
    exists r :: r in rs && r.table == t && r.depth <= level
  }

  /** Every node of the unfolding stands for a table the listing reports, no deeper than the node. */
  lemma NodeReported(tables: Tables, root: Name, maxDepth: nat, rs: seq<Reached>, e: Entry)
    requires IsReachableListing(tables, root, maxDepth, rs)
    requires e in Preorder(Unfold(tables, root, None, maxDepth, {}), 0) && e.table != root
    ensures ReportedBy(rs, e.table, e.level)
  {
    var p := EntryHasWalk(tables, root, None, maxDepth, {}, 0, e);
    var d := DistanceExists(tables, root, p, e.table);
    assert e.table in TablesOf(rs);
    var r :| r in rs && r.table == e.table;
    DistanceUnique(tables, root, e.table, d, r.depth);
  }

  /** So does every node of a tree cut short. */
  lemma CutNodesReported(tables: Tables, root: Name, maxDepth: nat, rs: seq<Reached>, tree: Node)
    requires IsReachableListing(tables, root, maxDepth, rs)
    requires Preorder(tree, 0) == Take(Preorder(Unfold(tables, root, None, maxDepth, {}), 0), MAX_NODES)
    ensures forall e | e in Preorder(tree, 0) && e.table != root :: ReportedBy(rs, e.table, e.level)
  {
    forall e | e in Preorder(tree, 0) && e.table != root ensures ReportedBy(rs, e.table, e.level) {
      assert e in Preorder(Unfold(tables, root, None, maxDepth, {}), 0);
      NodeReported(tables, root, maxDepth, rs, e);
    }
  }

  // --- What the cap hides ---

  /** An entry for a table at a level that is not a cycle mark. */
  ghost predicate Shows(entries: seq<Entry>, t: Name, level: nat) {
    exists e :: e in entries && e.table == t && e.level == level && !e.isCycle
  }

  lemma {:induction false} ShownBelow(ns: seq<Node>, level: nat, t: Name, at: nat)
    ensures Shows(PreorderAll(ns, level), t, at) <==> exists i :: 0 <= i < |ns| && Shows(Preorder(ns[i], level), t, at)
    decreases |ns|
  {
    if ns != [] {
      ShownBelow(ns[1..], level, t, at);
      ShowsJoin(Preorder(ns[0], level), PreorderAll(ns[1..], level), t, at);
      if i :| 0 <= i < |ns[1..]| && Shows(Preorder(ns[1..][i], level), t, at) {
        assert Shows(Preorder(ns[i + 1], level), t, at);
      }
      if i :| 0 < i < |ns| && Shows(Preorder(ns[i], level), t, at) {
        assert Shows(Preorder(ns[1..][i - 1], level), t, at);
      }
    }
  }

  lemma ShowsJoin(a: seq<Entry>, b: seq<Entry>, t: Name, at: nat)
    ensures Shows(a + b, t, at) <==> Shows(a, t, at) || Shows(b, t, at)
  {
    assert forall e :: e in a + b <==> e in a || e in b;
  }

  lemma RootShows(n: Node, level: nat, t: Name, at: nat)
    ensures Shows(Preorder(n, level), t, at)
       <==> (n.table == t && !n.isCycle && at == level) || Shows(PreorderAll(n.children, level + 1), t, at)
  {
    var root := Entry(level, n.table, n.field, n.isCycle);
    ShowsJoin([root], PreorderAll(n.children, level + 1), t, at);
    assert root in [root];
  }

  lemma {:induction false} ShownNoHigher(n: Node, level: nat, t: Name, at: nat)
    requires Shows(Preorder(n, level), t, at)
    ensures at >= level
    decreases n
  {
    hide Shows, Preorder, PreorderAll;
    RootShows(n, level, t, at);
    ShownBelow(n.children, level + 1, t, at);
    if Shows(PreorderAll(n.children, level + 1), t, at) {
      var i :| 0 <= i < |n.children| && Shows(Preorder(n.children[i], level + 1), t, at);
      ShownNoHigher(n.children[i], level + 1, t, at);
    }
  }

  /** Standing `k` below a node is being visited at its level plus `k`. */
  lemma {:induction false} OccursIffShown(n: Node, t: Name, k: nat, level: nat)
    ensures Occurs(n, t, k) <==> Shows(Preorder(n, level), t, level + k)
    decreases k
  {
    hide Shows, Preorder, PreorderAll;
    RootShows(n, level, t, level + k);
    ShownBelow(n.children, level + 1, t, level + k);
    if k == 0 {
      forall i | 0 <= i < |n.children| ensures !Shows(Preorder(n.children[i], level + 1), t, level) {
        if Shows(Preorder(n.children[i], level + 1), t, level) { ShownNoHigher(n.children[i], level + 1, t, level); }
      }
    } else {
      forall i | 0 <= i < |n.children|
        ensures Occurs(n.children[i], t, k - 1) <==> Shows(Preorder(n.children[i], level + 1), t, level + k)
      {
        OccursIffShown(n.children[i], t, k - 1, level + 1);
      }
      if Occurs(n, t, k) { var i := ChildWithOccurrence(n, t, k); }
      if i :| 0 <= i < |n.children| && Occurs(n.children[i], t, k - 1) { assert n.children[i] in n.children; }
    }
  }

  /** A table first stands in a cut tree where the listing has it iff it is shown there before the cut. */
  lemma CutShowsIff(tables: Tables, root: Name, maxDepth: nat, rs: seq<Reached>, tree: Node, r: Reached)
    requires IsReachableListing(tables, root, maxDepth, rs) && r in rs
    requires Preorder(tree, 0) == Take(Preorder(Unfold(tables, root, None, maxDepth, {}), 0), MAX_NODES)
    ensures LeastDepth(tree, r.table, r.depth)
       <==> Shows(Take(Preorder(Unfold(tables, root, None, maxDepth, {}), 0), MAX_NODES), r.table, r.depth)
  {
    OccursIffShown(tree, r.table, r.depth, 0);
    forall j: nat | Occurs(tree, r.table, j) ensures r.depth <= j {
      OccursIffShown(tree, r.table, j, 0);
      var e :| e in Preorder(tree, 0) && e.table == r.table && e.level == j && !e.isCycle;
      CutNodesReported(tables, root, maxDepth, rs, tree);
      var r' :| r' in rs && r'.table == e.table && r'.depth <= e.level;
      DistanceUnique(tables, root, r.table, r.depth, r'.depth);
    }
  }

  /** With as many tables reported as the cap allows nodes, one of them is missing from the tree. */
  lemma CapHidesTable(tables: Tables, root: Name, maxDepth: nat, rs: seq<Reached>, tree: Node)
    requires IsReachableListing(tables, root, maxDepth, rs) && |rs| >= MAX_NODES
    requires Preorder(tree, 0) == Take(Preorder(Unfold(tables, root, None, maxDepth, {}), 0), MAX_NODES)
    ensures exists r :: r in rs && !Stands(tree, r.table)
  {
    hide Preorder, Unfold, Stands, Take;
    if forall r | r in rs :: Stands(tree, r.table) {
      var shown := ShownTables(Preorder(tree, 0));
      RootIsShown(tables, root, maxDepth, tree);
      forall t | t in TablesOf(rs) + {root} ensures t in shown {
        if t != root { StandsShown(tree, t); }
      }
      ShownAtMost(Preorder(tree, 0));
      TablesCount(rs);
      SubsetSize(TablesOf(rs) + {root}, shown);
    }
  }

  function ShownTables(entries: seq<Entry>): set<Name> {
    set e | e in entries :: e.table
  }

  lemma RootIsShown(tables: Tables, root: Name, maxDepth: nat, tree: Node)
    requires Preorder(tree, 0) == Take(Preorder(Unfold(tables, root, None, maxDepth, {}), 0), MAX_NODES)
    ensures root in ShownTables(Preorder(tree, 0)) && |Preorder(tree, 0)| <= MAX_NODES
  {
    UnfoldShape(tables, root, None, maxDepth, {});
    assert Preorder(tree, 0)[0].table == root;
  }

  lemma StandsShown(tree: Node, t: Name)
    requires Stands(tree, t)
    ensures t in ShownTables(Preorder(tree, 0))
  {
    var k: nat :| Occurs(tree, t, k);
    OccursIffShown(tree, t, k, 0);
  }

  lemma {:induction false} ShownAtMost(entries: seq<Entry>)
    ensures |ShownTables(entries)| <= |entries|
  {
    var names := seq(|entries|, i requires 0 <= i < |entries| => entries[i].table);
    ElementsAtMost(names);
    forall e | e in entries ensures e.table in names {
      var i :| 0 <= i < |entries| && entries[i] == e;
      assert names[i] == e.table;
    }
    assert ShownTables(entries) == Elements(names);
  }

  lemma TablesCount(rs: seq<Reached>)
    requires forall i, j | 0 <= i < j < |rs| :: rs[i].table != rs[j].table
    ensures |TablesOf(rs)| == |rs|
  {
    var names := seq(|rs|, i requires 0 <= i < |rs| => rs[i].table);
    DistinctCounts(names);
    forall r | r in rs ensures r.table in names {
      var i :| 0 <= i < |rs| && rs[i] == r;
      assert names[i] == r.table;
    }
    assert TablesOf(rs) == Elements(names);
  }

  // A table with one field that links to `n` others.

  function RayName(i: nat): Name { seq(i + 1, _ => 'x') }

  function RayNames(n: nat): seq<Name> { seq(n, i requires 0 <= i < n => RayName(i)) }

  function Star(n: nat): Tables {
    map["" := TableDef("", true, "Normal", None, [FieldDef("link", None, RayNames(n), None, false, None, None)],
                       [], [], None, None, None)]
  }

  lemma RayReported(n: nat, rs: seq<Reached>, i: nat)
    requires i < n && IsReachableListing(Star(n), "", 1, rs)
    ensures RayName(i) in TablesOf(rs)
  {
    var tables, t := Star(n), RayName(i);
    assert RayNames(n)[i] == t;
    assert Links(tables, "", "link", t) by { assert tables[""].fields[0] in tables[""].fields; }
    WalkNowhere(tables, "");
    WalkOn(tables, "", [], "", "link", t);
    var d := DistanceExists(tables, "", [] + [Hop("", "link")], t);
  }

  /** A start with a thousand links already has a reported table that its tree does not show. */
  lemma StarIsCut(n: nat, rs: seq<Reached>, tree: Node)
    requires n >= MAX_NODES && IsReachableListing(Star(n), "", 1, rs)
    requires Preorder(tree, 0) == Take(Preorder(Unfold(Star(n), "", None, 1, {}), 0), MAX_NODES)
    ensures exists r :: r in rs && !Stands(tree, r.table)
  {
    hide Preorder, Unfold, Take, Star, Stands;
    var names := RayNames(n);
    forall i, j | 0 <= i < j < |names| ensures names[i] != names[j] { assert |names[i]| != |names[j]|; }
    forall t | t in names ensures t in TablesOf(rs) {
      var i :| 0 <= i < |names| && names[i] == t;
      RayReported(n, rs, i);
    }
    DistinctFits(names, TablesOf(rs));
    TablesCount(rs);
    CapHidesTable(Star(n), "", 1, rs, tree);
  }
}
