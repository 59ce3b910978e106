/** What a breadth-first listing of reachable tables must contain, and the invariant that yields it. */
module Reachability {
  import opened Ordering
  import opened Schema
  import opened Walks

  /** A table found by the traversal, with the depth and the path that first reached it. */
  datatype Reached = Reached(table: Name, depth: nat, path: seq<Hop>)

  type Key = (nat, Name)

  predicate KeyLess(a: Key, b: Key) {
    a.0 < b.0 || (a.0 == b.0 && NameLess(a.1, b.1))
  }

  predicate ReachedLess(a: Reached, b: Reached) {
    KeyLess((a.depth, a.table), (b.depth, b.table))
  }

  function Keys(rs: seq<Reached>): seq<Key> {
    seq(|rs|, i requires 0 <= i < |rs| => (rs[i].depth, rs[i].table))
  }

  function TablesOf(rs: seq<Reached>): set<Name> {
    set r | r in rs :: r.table
  }

  /**
   The tables other than `start` whose distance from it is within `maxDepth`, each once with that
   distance and a shortest path, ordered by depth and then by name.
   */
  ghost predicate IsReachableListing(tables: Tables, start: Name, maxDepth: nat, rs: seq<Reached>) {
    && (forall r | r in rs ::
          && r.table != start && 1 <= r.depth <= maxDepth
          && Walk(tables, start, r.path, r.table) && |r.path| == r.depth
          && Distance(tables, start, r.table, r.depth))
    && (forall t, d: nat | t != start && d <= maxDepth && Distance(tables, start, t, d) :: t in TablesOf(rs))
    && (forall i, j | 0 <= i < j < |rs| :: rs[i].table != rs[j].table)
    && Increasing(rs, ReachedLess)
  }

  lemma KeyOrder()
    ensures TotalOrder(KeyLess) && WeakOrder(ReachedLess)
  {
    NameOrder();
  }

  lemma DistanceUnique(tables: Tables, a: Name, b: Name, d: nat, e: nat)
    requires Distance(tables, a, b, d) && Distance(tables, a, b, e)
    ensures d == e
  {
  }

  /** The graph settles the listing: only which of several shortest paths is kept stays open. */
  lemma ListingDetermined(tables: Tables, start: Name, maxDepth: nat, rs: seq<Reached>, qs: seq<Reached>)
    requires IsReachableListing(tables, start, maxDepth, rs) && IsReachableListing(tables, start, maxDepth, qs)
    ensures Keys(rs) == Keys(qs)
  {
    KeyOrder();
    SameKeys(tables, start, maxDepth, rs, qs);
    SameKeys(tables, start, maxDepth, qs, rs);
    ListingUnique(Keys(rs), Keys(qs), KeyLess);
  }

  lemma SameKeys(tables: Tables, start: Name, maxDepth: nat, rs: seq<Reached>, qs: seq<Reached>)
    requires IsReachableListing(tables, start, maxDepth, rs) && IsReachableListing(tables, start, maxDepth, qs)
    ensures Elements(Keys(rs)) <= Elements(Keys(qs))
    ensures Increasing(Keys(rs), KeyLess)
  {
    forall k | k in Keys(rs) ensures k in Keys(qs) {
      var i :| 0 <= i < |rs| && Keys(rs)[i] == k;
      assert rs[i] in rs;
      assert rs[i].table in TablesOf(qs);
      var j :| 0 <= j < |qs| && qs[j].table == rs[i].table;
      assert qs[j] in qs;
      DistanceUnique(tables, start, rs[i].table, rs[i].depth, qs[j].depth);
      assert Keys(qs)[j] == k;
    }
    forall i, j | 0 <= i < j < |rs| ensures KeyLess(Keys(rs)[i], Keys(rs)[j]) {
      assert ReachedLess(rs[i], rs[j]);
    }
  }

  // --- The search invariant ---

  /** Every table a link can name. */
  ghost function Universe(tables: Tables, start: Name): set<Name> {
    {start} + set t, f, l | t in tables && f in tables[t].fields && l in f.recordLinks :: l
  }

  /** `r` records a real walk, of the length on file for its table. */
  ghost predicate Genuine(tables: Tables, start: Name, dist: map<Name, nat>, r: Reached) {
    r.table in dist && dist[r.table] == r.depth == |r.path| && Walk(tables, start, r.path, r.table)
  }

  /**
   What the queue and the results look like while tables of depth `d` are being expanded: the queue
   holds depths `d` and then `d + 1`, and nothing found lies deeper.
   */
  ghost predicate Searching(tables: Tables, start: Name, maxDepth: nat, d: nat, dist: map<Name, nat>,
                            queue: seq<Reached>, results: seq<Reached>) {
    && start in dist && dist[start] == 0
    && dist.Keys <= Universe(tables, start)
    && (forall r | r in queue :: Genuine(tables, start, dist, r) && d <= r.depth <= maxDepth)
    && (forall i, j | 0 <= i < j < |queue| :: queue[i].depth <= queue[j].depth && queue[i].table != queue[j].table)
    && (forall t | t in dist :: dist[t] <= d + 1)
    && (forall r | r in results :: Genuine(tables, start, dist, r) && r.table != start && 1 <= r.depth <= maxDepth)
    && (forall i, j | 0 <= i < j < |results| :: results[i].table != results[j].table)
    && dist.Keys == {start} + TablesOf(results)
  }

  /** Every link out of a table outside `open` leads to a table on file at most one deeper. */
  ghost predicate Closed(tables: Tables, maxDepth: nat, dist: map<Name, nat>, open: set<Name>) {
    forall u, via, v | u in dist && u !in open && dist[u] < maxDepth && Links(tables, u, via, v) ::
      v in dist && dist[v] <= dist[u] + 1
  }

  /** Filing a newly met table keeps the search in order. */
  lemma Discover(tables: Tables, start: Name, maxDepth: nat, dist: map<Name, nat>, queue: seq<Reached>,
                 results: seq<Reached>, cur: Reached, via: Name, link: Name)
    requires Searching(tables, start, maxDepth, cur.depth, dist, queue, results)
    requires Genuine(tables, start, dist, cur) && cur.depth < maxDepth
    requires Links(tables, cur.table, via, link) && link !in dist
    ensures
      var found := Reached(link, cur.depth + 1, cur.path + [Hop(cur.table, via)]);
      Searching(tables, start, maxDepth, cur.depth, dist[link := cur.depth + 1], queue + [found], results + [found])
  {
    hide Walk, Links, Universe, TablesOf;
    var found := Reached(link, cur.depth + 1, cur.path + [Hop(cur.table, via)]);
    var dist' := dist[link := cur.depth + 1];
    WalkOn(tables, start, cur.path, cur.table, via, link);
    assert Genuine(tables, start, dist', found);
    assert forall r | Genuine(tables, start, dist, r) :: Genuine(tables, start, dist', r);
    TablesOfAppend(results, found);
    assert dist'.Keys == dist.Keys + {link};
    LinkInUniverse(tables, start, cur.table, via, link);
  }

  lemma WalkOn(tables: Tables, a: Name, p: seq<Hop>, b: Name, via: Name, c: Name)
    requires Walk(tables, a, p, b) && Links(tables, b, via, c)
    ensures Walk(tables, a, p + [Hop(b, via)], c)
  {
    assert (p + [Hop(b, via)])[..|p|] == p;
  }

  lemma TablesOfAppend(rs: seq<Reached>, r: Reached)
    ensures TablesOf(rs + [r]) == TablesOf(rs) + {r.table}
  {
    assert forall x :: x in rs + [r] <==> x in rs || x == r;
  }

  lemma LinkInUniverse(tables: Tables, start: Name, from: Name, via: Name, to: Name)
    requires Links(tables, from, via, to)
    ensures to in Universe(tables, start)
  {
  }

  /** Once the queue is empty no walk within the depth bound ends at an unfiled table. */
  lemma {:induction false} ClosedCovers(tables: Tables, start: Name, maxDepth: nat, dist: map<Name, nat>, p: seq<Hop>,
                                        t: Name)
    requires start in dist && dist[start] == 0
    requires Closed(tables, maxDepth, dist, {})
    requires Walk(tables, start, p, t) && |p| <= maxDepth
    ensures t in dist && dist[t] <= |p|
    decreases |p|
  {
    if p != [] {
      ClosedCovers(tables, start, maxDepth, dist, p[..|p| - 1], p[|p| - 1].table);
    }
  }

  lemma RecordedIsDistance(tables: Tables, start: Name, maxDepth: nat, dist: map<Name, nat>, r: Reached)
    requires start in dist && dist[start] == 0
    requires Closed(tables, maxDepth, dist, {}) && Genuine(tables, start, dist, r) && r.depth <= maxDepth
    ensures Distance(tables, start, r.table, r.depth)
  {
    forall p | Walk(tables, start, p, r.table) ensures r.depth <= |p| {
      if |p| <= maxDepth { ClosedCovers(tables, start, maxDepth, dist, p, r.table); }
    }
  }

  /** Sorting one-per-table results by depth and name makes them strictly increasing. */
  lemma SortedResults(rs: seq<Reached>)
    requires forall i, j | 0 <= i < j < |rs| :: rs[i].table != rs[j].table
    ensures var sorted := SortBy(rs, ReachedLess);
      && (forall r :: r in sorted <==> r in rs)
      && (forall i, j | 0 <= i < j < |sorted| :: sorted[i].table != sorted[j].table)
      && Increasing(sorted, ReachedLess)
  {
    hide SortBy;
    var sorted := SortBy(rs, ReachedLess);
    KeyOrder();
    SortByCorrect(rs, ReachedLess);
    assert Distinct(rs);
    PermutedDistinct(rs, sorted);
    forall i, j | 0 <= i < j < |sorted|
      ensures sorted[i].table != sorted[j].table && ReachedLess(sorted[i], sorted[j])
    {
      assert sorted[i] in rs && sorted[j] in rs && sorted[i] != sorted[j];
    }
  }

  /** A finished search, once sorted, is the listing. */
  lemma SearchedIsListing(tables: Tables, start: Name, maxDepth: nat, d: nat, dist: map<Name, nat>, rs: seq<Reached>)
    requires Searching(tables, start, maxDepth, d, dist, [], rs)
    requires Closed(tables, maxDepth, dist, {})
    ensures IsReachableListing(tables, start, maxDepth, SortBy(rs, ReachedLess))
  {
    var sorted := SortBy(rs, ReachedLess);
    SortedResults(rs);
    forall r | r in rs ensures Distance(tables, start, r.table, r.depth) {
      RecordedIsDistance(tables, start, maxDepth, dist, r);
    }
    forall t, e: nat | t != start && e <= maxDepth && Distance(tables, start, t, e) ensures t in TablesOf(sorted) {
      var p :| Walk(tables, start, p, t) && |p| == e;
      ClosedCovers(tables, start, maxDepth, dist, p, t);
      assert t in TablesOf(rs);
    }
  }

  /** Nothing leads out of an undefined table. */
  lemma UndefinedStart(tables: Tables, start: Name, maxDepth: nat)
    requires start !in tables
    ensures IsReachableListing(tables, start, maxDepth, [])
  {
    forall t, d: nat | t != start && Distance(tables, start, t, d) ensures false {
      var p :| Walk(tables, start, p, t) && |p| == d;
      var _ := WalkUncons(tables, start, p, t);
    }
  }

  // --- Expanding one table ---

  /** What the search carries along: the tables met, those still to expand, and what it will report. */
  datatype Frontier = Frontier(visited: set<Name>, queue: seq<Reached>, results: seq<Reached>)

  function VisitLink(s: Frontier, cur: Reached, via: Name, link: Name): Frontier {
    if link in s.visited then s
    else
      var found := Reached(link, cur.depth + 1, cur.path + [Hop(cur.table, via)]);
      Frontier(s.visited + {link}, s.queue + [found], s.results + [found])
  }

  function VisitLinks(s: Frontier, cur: Reached, via: Name, links: seq<Name>): Frontier {
    if links == [] then s else VisitLink(VisitLinks(s, cur, via, links[..|links| - 1]), cur, via, links[|links| - 1])
  }

  function VisitFields(s: Frontier, cur: Reached, fields: seq<FieldDef>): Frontier {
    if fields == [] then s
    else
      var last := fields[|fields| - 1];
      VisitLinks(VisitFields(s, cur, fields[..|fields| - 1]), cur, last.name, last.recordLinks)
  }

  /** As many new results as new entries to expand. */
  ghost predicate Grew(s: Frontier, s': Frontier) {
    |s'.results| - |s.results| == |s'.queue| - |s.queue| >= 0
  }

  /** Taking the front of the queue moves the search to its depth. */
  lemma PopFront(tables: Tables, start: Name, maxDepth: nat, d: nat, dist: map<Name, nat>, queue: seq<Reached>,
                 results: seq<Reached>)
    requires queue != []
    requires Searching(tables, start, maxDepth, d, dist, queue, results)
    requires Closed(tables, maxDepth, dist, TablesOf(queue))
    ensures Searching(tables, start, maxDepth, queue[0].depth, dist, queue[1..], results)
    ensures Genuine(tables, start, dist, queue[0])
    ensures Closed(tables, maxDepth, dist, TablesOf(queue[1..]) + {queue[0].table})
    ensures queue[0].depth >= maxDepth || queue[0].table !in tables
      ==> Closed(tables, maxDepth, dist, TablesOf(queue[1..]))
  {
    assert queue[0] in queue;
    TablesOfPop(queue);
  }

  lemma TablesOfPop(queue: seq<Reached>)
    requires queue != []
    ensures TablesOf(queue) == TablesOf(queue[1..]) + {queue[0].table}
  {
    assert forall r :: r in queue <==> r in queue[1..] || r == queue[0];
  }

  /** The search with one table taken off the queue and its links only partly followed. */
  ghost predicate Expanding(tables: Tables, start: Name, maxDepth: nat, cur: Reached,
                            dist: map<Name, nat>, s: Frontier) {
    && s.visited == dist.Keys
    && Searching(tables, start, maxDepth, cur.depth, dist, s.queue, s.results)
    && Genuine(tables, start, dist, cur)
    && Closed(tables, maxDepth, dist, TablesOf(s.queue) + {cur.table})
  }

  lemma FileLink(tables: Tables, start: Name, maxDepth: nat, cur: Reached, dist: map<Name, nat>, s: Frontier, via: Name,
                 link: Name)
    requires Expanding(tables, start, maxDepth, cur, dist, s) && cur.depth < maxDepth
    requires Links(tables, cur.table, via, link) && link !in s.visited
    ensures Expanding(tables, start, maxDepth, cur, dist[link := cur.depth + 1], VisitLink(s, cur, via, link))
  {
    var found := Reached(link, cur.depth + 1, cur.path + [Hop(cur.table, via)]);
    Discover(tables, start, maxDepth, dist, s.queue, s.results, cur, via, link);
    QueuedClosed(tables, maxDepth, dist, cur, s.queue, found);
  }

  /** Filing a link leaves every expanded table's links on file. */
  lemma QueuedClosed(tables: Tables, maxDepth: nat, dist: map<Name, nat>, cur: Reached, queue: seq<Reached>,
                     found: Reached)
    requires Closed(tables, maxDepth, dist, TablesOf(queue) + {cur.table}) && found.table !in dist
    ensures Closed(tables, maxDepth, dist[found.table := found.depth], TablesOf(queue + [found]) + {cur.table})
  {
    TablesOfAppend(queue, found);
  }

  lemma ResultsFit(tables: Tables, start: Name, maxDepth: nat, d: nat, dist: map<Name, nat>, queue: seq<Reached>,
                   results: seq<Reached>)
    requires Searching(tables, start, maxDepth, d, dist, queue, results)
    ensures |results| <= |Universe(tables, start)|
  {
    var names := seq(|results|, i requires 0 <= i < |results| => results[i].table);
    forall n | n in names ensures n in Universe(tables, start) {
      var i :| 0 <= i < |names| && names[i] == n;
      assert results[i] in results;
    }
    DistinctFits(names, Universe(tables, start));
  }

  /** Following links one after another keeps the search in order and files each of them. */
  lemma {:induction false} LinksKeep(tables: Tables, start: Name, maxDepth: nat, cur: Reached, dist: map<Name, nat>,
                                     s: Frontier,
                                     via: Name, links: seq<Name>) returns (dist': map<Name, nat>)
    requires Expanding(tables, start, maxDepth, cur, dist, s) && cur.depth < maxDepth
    requires forall l | l in links :: Links(tables, cur.table, via, l)
    ensures Expanding(tables, start, maxDepth, cur, dist', VisitLinks(s, cur, via, links))
    ensures forall l | l in links || l in s.visited :: l in VisitLinks(s, cur, via, links).visited
    ensures Grew(s, VisitLinks(s, cur, via, links))
  {
    hide Searching, Closed, Genuine, Links;
    if links == [] {
      dist' := dist;
    } else {
      var front, last := links[..|links| - 1], links[|links| - 1];
      assert last in links && forall l | l in front :: l in links;
      dist' := LinksKeep(tables, start, maxDepth, cur, dist, s, via, front);
      var before := VisitLinks(s, cur, via, front);
      if last !in before.visited {
        FileLink(tables, start, maxDepth, cur, dist', before, via, last);
        dist' := dist'[last := cur.depth + 1];
      }
      assert links == front + [last];
    }
  }

  lemma {:induction false} FieldsKeep(tables: Tables, start: Name, maxDepth: nat, cur: Reached, dist: map<Name, nat>,
                                      s: Frontier,
                                      fields: seq<FieldDef>) returns (dist': map<Name, nat>)
    requires Expanding(tables, start, maxDepth, cur, dist, s) && cur.depth < maxDepth
    requires cur.table in tables && forall f | f in fields :: f in tables[cur.table].fields
    ensures Expanding(tables, start, maxDepth, cur, dist', VisitFields(s, cur, fields))
    ensures forall f, l | f in fields && l in f.recordLinks :: l in VisitFields(s, cur, fields).visited
    ensures Grew(s, VisitFields(s, cur, fields))
  {
    hide Expanding;
    if fields == [] {
      dist' := dist;
    } else {
      var front, last := fields[..|fields| - 1], fields[|fields| - 1];
      assert last in fields && forall f | f in front :: f in fields;
      dist' := FieldsKeep(tables, start, maxDepth, cur, dist, s, front);
      dist' := LinksKeep(tables, start, maxDepth, cur, dist', VisitFields(s, cur, front), last.name, last.recordLinks);
      assert fields == front + [last];
    }
  }

  /** Once all its links are on file, a table counts as expanded. */
  lemma ExpandKeeps(tables: Tables, start: Name, maxDepth: nat, cur: Reached, dist: map<Name, nat>, s: Frontier)
    returns (dist': map<Name, nat>)
    requires Expanding(tables, start, maxDepth, cur, dist, s) && cur.depth < maxDepth && cur.table in tables
    ensures
      var s' := VisitFields(s, cur, tables[cur.table].fields);
      && s'.visited == dist'.Keys
      && Searching(tables, start, maxDepth, cur.depth, dist', s'.queue, s'.results)
      && Closed(tables, maxDepth, dist', TablesOf(s'.queue))
      && Grew(s, s')
  {
    dist' := FieldsKeep(tables, start, maxDepth, cur, dist, s, tables[cur.table].fields);
  }
}
