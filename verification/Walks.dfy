/** Walks along record links: what "reachable within d hops" means, independently of any traversal. */
module Walks {
  import opened Ordering
  import opened Schema

  /** One `table.field` segment of a path. */
  datatype Hop = Hop(table: Name, field: Name)

  /** `p` is a chain of link segments that leads from `a` to `b`. */
  ghost predicate Walk(tables: Tables, a: Name, p: seq<Hop>, b: Name) {
    if p == [] then a == b
    else
      var last := p[|p| - 1];
      Walk(tables, a, p[..|p| - 1], last.table) && Links(tables, last.table, last.field, b)
  }

  lemma WalkNowhere(tables: Tables, a: Name)
    ensures Walk(tables, a, [], a)
  {
  }

  lemma WalkNothing(tables: Tables, a: Name, b: Name)
    requires Walk(tables, a, [], b)
    ensures a == b
  {
  }

  /** No walk from `a` to `b` is shorter than `d`, and one has that length. */
  ghost predicate Distance(tables: Tables, a: Name, b: Name, d: nat) {
    && (exists p :: Walk(tables, a, p, b) && |p| == d)
    && (forall p :: Walk(tables, a, p, b) ==> d <= |p|)
  }

  lemma {:induction false} WalkJoin(tables: Tables, a: Name, p: seq<Hop>, b: Name, q: seq<Hop>, c: Name)
    requires Walk(tables, a, p, b) && Walk(tables, b, q, c)
    ensures Walk(tables, a, p + q, c)
    decreases |q|
  {
    if q == [] {
      assert p + q == p;
    } else {
      var front := q[..|q| - 1];
      WalkJoin(tables, a, p, b, front, q[|q| - 1].table);
      assert (p + q)[..|p + q| - 1] == p + front;
    }
  }

  lemma {:induction false} WalkSplit(tables: Tables, a: Name, p: seq<Hop>, b: Name, i: nat)
    requires Walk(tables, a, p, b) && i < |p|
    ensures Walk(tables, a, p[..i], p[i].table)
    ensures Walk(tables, p[i].table, p[i..], b)
    decreases |p|
  {
    var front := p[..|p| - 1];
    if i < |front| {
      WalkSplit(tables, a, front, p[|p| - 1].table, i);
      assert front[..i] == p[..i];
      assert p[i..][..|p[i..]| - 1] == front[i..];
    } else {
      assert p[i..] == [p[i]] && p[i..][..0] == [];
      assert front == p[..i];
    }
  }

  /** A nonempty walk starts with a link out of its own start. */
  lemma WalkUncons(tables: Tables, a: Name, p: seq<Hop>, b: Name) returns (next: Name)
    requires Walk(tables, a, p, b) && p != []
    ensures p[0].table == a && Links(tables, a, p[0].field, next) && Walk(tables, next, p[1..], b)
  {
    WalkSplit(tables, a, p, b, 0);
    assert p[..0] == [];
    if |p| == 1 {
      next := b;
      assert p[..|p| - 1] == [];
    } else {
      WalkSplit(tables, a, p, b, 1);
      next := p[1].table;
      assert p[..1][..0] == [];
    }
  }

  lemma WalkCons(tables: Tables, a: Name, via: Name, next: Name, p: seq<Hop>, b: Name)
    requires Links(tables, a, via, next) && Walk(tables, next, p, b)
    ensures Walk(tables, a, [Hop(a, via)] + p, b)
  {
    var first := [Hop(a, via)];
    assert first[..0] == [];
    assert Walk(tables, a, first[..0], a);
    WalkJoin(tables, a, first, next, p, b);
  }

  /** The tables a walk visits before its last one. */
  function Stops(p: seq<Hop>): seq<Name> {
    seq(|p|, i requires 0 <= i < |p| => p[i].table)
  }

  /** A walk that comes back to a table it left can skip the detour. */
  lemma SkipDetour(tables: Tables, a: Name, p: seq<Hop>, b: Name, i: nat, j: nat) returns (q: seq<Hop>)
    requires Walk(tables, a, p, b) && i < j <= |p|
    requires p[i].table == if j < |p| then p[j].table else b
    ensures Walk(tables, a, q, b) && |q| < |p|
  {
    WalkSplit(tables, a, p, b, i);
    if j < |p| {
      WalkSplit(tables, a, p, b, j);
      WalkJoin(tables, a, p[..i], p[i].table, p[j..], b);
      q := p[..i] + p[j..];
    } else {
      q := p[..i];
    }
  }

  /** A walk no longer than any other visits no table twice. */
  lemma ShortestIsSimple(tables: Tables, a: Name, p: seq<Hop>, b: Name)
    requires Walk(tables, a, p, b) && Distance(tables, a, b, |p|)
    ensures Distinct(Stops(p) + [b])
  {
    var trail := Stops(p) + [b];
    forall i, j | 0 <= i < j < |trail| ensures trail[i] != trail[j] {
      if trail[i] == trail[j] {
        var q := SkipDetour(tables, a, p, b, i, j);
      }
    }
  }

  lemma {:induction false} DistanceExists(tables: Tables, a: Name, p: seq<Hop>, b: Name) returns (d: nat)
    requires Walk(tables, a, p, b)
    ensures d <= |p| && Distance(tables, a, b, d)
    decreases |p|
  {
    if q :| Walk(tables, a, q, b) && |q| < |p| {
      d := DistanceExists(tables, a, q, b);
    } else {
      d := |p|;
    }
  }
}
