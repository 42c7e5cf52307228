/**
 * Which cells must be recalculated after a cell changes, and whether the
 * change closes a circular reference.  The spreadsheet's base class, which
 * computes this in `GetCellsToRecalculate`, is not part of this model; its
 * documented behaviour is specified here: the cells to recalculate are the
 * changed cell and everything reachable from it through direct dependents,
 * and the change is circular exactly when the cell is reachable from
 * itself through at least one dependency.
 *
 * Reachability is computed as the least set that contains the start cells
 * and is closed under direct dependents, and is proved equal to reachability
 * along paths of the graph's pairs.
 */
module Recalculation {
  import opened DependencyGraph

  // ---------------------------------------------------------------------
  // Paths through a set of pairs

  /** The pair from the i-th to the (i+1)-th node of `p` is in `pairs`. */
  ghost predicate EdgeAt(pairs: set<Pair>, p: seq<string>, i: nat)
    requires i + 1 < |p|
  {
    (p[i], p[i + 1]) in pairs
  }

  /** `p` is a non-empty walk along (dependee, dependent) pairs. */
  ghost predicate IsPath(pairs: set<Pair>, p: seq<string>) {
    |p| > 0 && forall i: nat | i + 1 < |p| :: EdgeAt(pairs, p, i)
  }

  /** `p` leads from one of `sources` to `target`. */
  ghost predicate PathFrom(pairs: set<Pair>, sources: set<string>, p: seq<string>, target: string) {
    IsPath(pairs, p) && p[0] in sources && p[|p| - 1] == target
  }

  ghost predicate ReachableFrom(pairs: set<Pair>, sources: set<string>, target: string) {
    exists p :: PathFrom(pairs, sources, p, target)
  }

  /** `b` is `a` or depends on `a`, directly or indirectly. */
  ghost predicate Reaches(pairs: set<Pair>, a: string, b: string) {
    ReachableFrom(pairs, {a}, b)
  }

  /** `a` depends on itself through at least one pair. */
  ghost predicate OnCycle(pairs: set<Pair>, a: string) {
    exists p :: PathFrom(pairs, {a}, p, a) && |p| >= 2
  }

  /** `s` holds every dependent of its members. */
  ghost predicate Closed(pairs: set<Pair>, s: set<string>) {
    forall n, d :: n in s && (n, d) in pairs ==> d in s
  }

  lemma PathSnoc(pairs: set<Pair>, p: seq<string>, d: string)
    requires IsPath(pairs, p) && (p[|p| - 1], d) in pairs
    ensures IsPath(pairs, p + [d])
  {
    var q := p + [d];
    forall i: nat | i + 1 < |q| ensures EdgeAt(pairs, q, i) {
      if i + 1 < |p| {
        assert EdgeAt(pairs, p, i);
      }
    }
  }

  lemma PathCons(pairs: set<Pair>, a: string, p: seq<string>)
    requires IsPath(pairs, p) && (a, p[0]) in pairs
    ensures IsPath(pairs, [a] + p)
  {
    var q := [a] + p;
    forall i: nat | i + 1 < |q| ensures EdgeAt(pairs, q, i) {
      if i > 0 {
        assert EdgeAt(pairs, p, i - 1);
      }
    }
  }

  lemma PathSuffix(pairs: set<Pair>, p: seq<string>, k: nat)
    requires IsPath(pairs, p) && k < |p|
    ensures IsPath(pairs, p[k..])
  {
    var q := p[k..];
    forall i: nat | i + 1 < |q| ensures EdgeAt(pairs, q, i) {
      assert EdgeAt(pairs, p, k + i);
    }
  }

  lemma PathPrefix(pairs: set<Pair>, p: seq<string>, k: nat)
    requires IsPath(pairs, p) && 0 < k <= |p|
    ensures IsPath(pairs, p[..k])
  {
    var q := p[..k];
    forall i: nat | i + 1 < |q| ensures EdgeAt(pairs, q, i) {
      assert EdgeAt(pairs, p, i);
    }
  }

  /** A path that starts in a closed set stays in it. */
  lemma {:induction false} PathStaysIn(pairs: set<Pair>, s: set<string>, p: seq<string>)
    requires IsPath(pairs, p) && p[0] in s && Closed(pairs, s)
    ensures p[|p| - 1] in s
    decreases |p|
  {
    if |p| > 1 {
      var q := p[..|p| - 1];
      PathPrefix(pairs, p, |p| - 1);
      PathStaysIn(pairs, s, q);
      assert EdgeAt(pairs, p, |p| - 2);
    }
  }

  /** The j-th node of `p` is `name`. */
  ghost predicate NodeAt(p: seq<string>, j: nat, name: string) {
    j < |p| && p[j] == name
  }

  lemma PathAppend(pairs: set<Pair>, p: seq<string>, q: seq<string>)
    requires IsPath(pairs, p) && IsPath(pairs, q) && (p[|p| - 1], q[0]) in pairs
    ensures IsPath(pairs, p + q)
  {
    var r := p + q;
    forall i: nat | i + 1 < |r| ensures EdgeAt(pairs, r, i) {
      if i + 1 < |p| {
        assert EdgeAt(pairs, p, i);
      } else if i + 1 > |p| {
        assert EdgeAt(pairs, q, i - |p|);
      }
    }
  }

  /** A node reached from `a` lies in every closed set that holds `a`. */
  lemma ReachesWithin(pairs: set<Pair>, a: string, s: set<string>)
    requires a in s && Closed(pairs, s)
    ensures forall d :: Reaches(pairs, a, d) ==> d in s
  {
    forall d | Reaches(pairs, a, d) ensures d in s {
      var p :| PathFrom(pairs, {a}, p, d);
      PathStaysIn(pairs, s, p);
    }
  }

  /** A node on a cycle has a dependent and a dependee. */
  lemma CycleHasEdges(pairs: set<Pair>, a: string)
    ensures OnCycle(pairs, a) ==> (exists d :: (a, d) in pairs) && (exists d :: (d, a) in pairs)
  {
    if OnCycle(pairs, a) {
      var p :| PathFrom(pairs, {a}, p, a) && |p| >= 2;
      assert EdgeAt(pairs, p, 0);
      assert EdgeAt(pairs, p, |p| - 2);
    }
  }

  /** A node without dependents, or without dependees, is on no cycle. */
  lemma NoEdgeNoCycle(pairs: set<Pair>, a: string)
    requires (forall d :: (a, d) !in pairs) || (forall d :: (d, a) !in pairs)
    ensures !OnCycle(pairs, a)
  {
    CycleHasEdges(pairs, a);
  }

  /**
   * A cycle that passes through `name` can be rotated to start there: from
   * `name` to the end of the cycle, then round from its start to `name`.
   */
  lemma RotateCycle(pairs: set<Pair>, a: string, p: seq<string>, i: nat, name: string)
    requires PathFrom(pairs, {a}, p, a) && |p| >= 2 && i + 1 < |p| && p[i + 1] == name
    ensures OnCycle(pairs, name)
  {
    PathSuffix(pairs, p, i + 1);
    PathSuffix(pairs, p, 1);
    PathPrefix(pairs, p[1..], i + 1);
    assert p[1..][..i + 1] == p[1..i + 2];
    assert EdgeAt(pairs, p, 0);
    PathAppend(pairs, p[i + 1..], p[1..i + 2]);
    var q := p[i + 1..] + p[1..i + 2];
    assert q[0] == name && q[|q| - 1] == name;
    assert PathFrom(pairs, {name}, q, name);
  }

  /**
   * If the only pairs added are pairs into `name`, a new cycle passes
   * through `name`.
   */
  lemma NewCycleThrough(before: set<Pair>, after: set<Pair>, name: string, a: string)
    requires forall pr :: pr in after ==> pr in before || pr.1 == name
    ensures OnCycle(after, a) ==> OnCycle(after, name) || OnCycle(before, a)
  {
    if OnCycle(after, a) {
      var p :| PathFrom(after, {a}, p, a) && |p| >= 2;
      if j: nat :| 0 < j < |p| && NodeAt(p, j, name) {
        RotateCycle(after, a, p, j - 1, name);
      } else {
        forall i: nat | i + 1 < |p| ensures EdgeAt(before, p, i) {
          assert EdgeAt(after, p, i);
          assert !NodeAt(p, i + 1, name);
        }
        assert PathFrom(before, {a}, p, a);
      }
    }
  }

  // ---------------------------------------------------------------------
  // Computing the reachable set

  /** Every node that depends on some node. */
  ghost function Targets(g: Graph): set<string> {
    set p | p in Pairs(g) :: p.1
  }

  /** The direct dependents of the members of `s`. */
  function Successors(g: Graph, s: set<string>): (r: set<string>)
    requires Valid(g)
    ensures forall n, d :: n in s && (n, d) in Pairs(g) ==> d in r
    ensures forall d :: d in r ==> exists n :: n in s && (n, d) in Pairs(g)
    ensures r <= Targets(g)
  {
    var r := set n, d | n in s && d in GetDependents(g, n) :: d;
    forall n, d | n in s && (n, d) in Pairs(g) ensures d in r {
      assert d in GetDependents(g, n);
    }
    assert forall d :: d in r ==> exists n :: n in s && (n, d) in Pairs(g);
    forall d | d in r ensures d in Targets(g) {
      var n :| n in s && (n, d) in Pairs(g);
      assert (n, d).1 == d;
    }
    r
  }

  lemma ProperSubsetSmaller(a: set<string>, b: set<string>)
    requires a < b
    ensures |a| < |b|
  {
    var c := b - a;
    assert b == a + c;
    assert a + {} == a;
    assert a * c == {};
  }

  /** The least set containing `s` and closed under direct dependents. */
  function Reach(g: Graph, s: set<string>): (r: set<string>)
    requires Valid(g)
    ensures s <= r && Closed(Pairs(g), r)
    decreases |Targets(g) - s|
  {
    var next := s + Successors(g, s);
    if next == s then s
    else
      assert |Targets(g) - next| < |Targets(g) - s| by {
        var d :| d in next && d !in s;
        assert d in Targets(g) - s;
        ProperSubsetSmaller(Targets(g) - next, Targets(g) - s);
      }
      Reach(g, next)
  }

  /** Reach is contained in every closed superset of the start set. */
  lemma {:induction false} ReachLeast(g: Graph, s: set<string>, t: set<string>)
    requires Valid(g) && s <= t && Closed(Pairs(g), t)
    ensures Reach(g, s) <= t
    decreases |Targets(g) - s|
  {
    var next := s + Successors(g, s);
    if next != s {
      var d :| d in next && d !in s;
      assert d in Targets(g) - s;
      ProperSubsetSmaller(Targets(g) - next, Targets(g) - s);
      ReachLeast(g, next, t);
    }
  }

  /** A node is in Reach exactly when a path leads to it from the start set. */
  lemma ReachByPaths(g: Graph, s: set<string>)
    requires Valid(g)
    ensures forall d :: d in Reach(g, s) <==> ReachableFrom(Pairs(g), s, d)
  {
    var r := Reach(g, s);
    forall d | ReachableFrom(Pairs(g), s, d) ensures d in r {
      var p :| PathFrom(Pairs(g), s, p, d);
      PathStaysIn(Pairs(g), r, p);
    }
    var t := set x | x in r && ReachableFrom(Pairs(g), s, x);
    forall x | x in s ensures x in t {
      assert PathFrom(Pairs(g), s, [x], x);
    }
    forall n, d | n in t && (n, d) in Pairs(g) ensures d in t {
      var p :| PathFrom(Pairs(g), s, p, n);
      PathSnoc(Pairs(g), p, d);
      assert PathFrom(Pairs(g), s, p + [d], d);
    }
    ReachLeast(g, s, t);
  }

  /**
   * GetCellsToRecalculate, as a set: the changed cell and every cell that
   * depends on it, directly or indirectly.
   */
  function CellsToRecalculate(g: Graph, name: string): (r: set<string>)
    requires Valid(g)
    ensures name in r
    ensures forall d :: d in r <==> Reaches(Pairs(g), name, d)
  {
    ReachByPaths(g, {name});
    Reach(g, {name})
  }

  /**
   * The circular-reference check of GetCellsToRecalculate: the cell is met
   * again while visiting its dependents.
   */
  function IsCircular(g: Graph, name: string): (b: bool)
    requires Valid(g)
    ensures b <==> OnCycle(Pairs(g), name)
  {
    CircularByPaths(g, name);
    name in Reach(g, GetDependents(g, name))
  }

  lemma CircularByPaths(g: Graph, name: string)
    requires Valid(g)
    ensures name in Reach(g, GetDependents(g, name)) <==> OnCycle(Pairs(g), name)
  {
    ReachByPaths(g, GetDependents(g, name));
    if name in Reach(g, GetDependents(g, name)) {
      CycleFromDependent(g, name);
    }
    if OnCycle(Pairs(g), name) {
      DependentFromCycle(g, name);
    }
  }

  lemma CycleFromDependent(g: Graph, name: string)
    requires Valid(g) && ReachableFrom(Pairs(g), GetDependents(g, name), name)
    ensures OnCycle(Pairs(g), name)
  {
    var p :| PathFrom(Pairs(g), GetDependents(g, name), p, name);
    PathCons(Pairs(g), name, p);
    assert PathFrom(Pairs(g), {name}, [name] + p, name);
  }

  lemma DependentFromCycle(g: Graph, name: string)
    requires Valid(g) && OnCycle(Pairs(g), name)
    ensures ReachableFrom(Pairs(g), GetDependents(g, name), name)
  {
    var p :| PathFrom(Pairs(g), {name}, p, name) && |p| >= 2;
    assert EdgeAt(Pairs(g), p, 0);
    PathSuffix(Pairs(g), p, 1);
    assert PathFrom(Pairs(g), GetDependents(g, name), p[1..], name);
  }
}
