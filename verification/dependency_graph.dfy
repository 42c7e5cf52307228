/**
 * The dependency graph (PS2/SpreadsheetUtilities/DependencyGraph.cs): a set
 * of ordered pairs (s, t) meaning "t depends on s", so s must be evaluated
 * before t.  dependents(s) is every t with (s, t) in the graph and
 * dependees(t) every s with (s, t) in the graph.  All of it is delegated to
 * the mirrored container.
 */
module DependencyGraph {
  import DependencyContainer

  type Pair = DependencyContainer.Pair

  datatype Graph = Graph(dependencies: DependencyContainer.Container)

  ghost predicate Valid(g: Graph) {
    DependencyContainer.Valid(g.dependencies)
  }

  /** The abstract value of the graph: its set of (dependee, dependent) pairs. */
  ghost function Pairs(g: Graph): set<Pair> {
    DependencyContainer.Pairs(g.dependencies)
  }

  /** dependents(s) of the abstract pair set. */
  ghost function Dependents(g: Graph, s: string): set<string> {
    DependencyContainer.DependentsIn(Pairs(g), s)
  }

  /** dependees(s) of the abstract pair set. */
  ghost function Dependees(g: Graph, s: string): set<string> {
    DependencyContainer.DependeesIn(Pairs(g), s)
  }

  /** Creates an empty graph. */
  function New(): (g: Graph)
    ensures Valid(g) && Pairs(g) == {}
  {
    Graph(DependencyContainer.Empty())
  }

  /** The number of ordered pairs in the graph. */
  function Size(g: Graph): (n: nat)
    requires Valid(g)
    ensures n == |Pairs(g)|
  {
    g.dependencies.count
  }

  /** The indexer `g[s]`: the size of dependees(s). */
  function Indexer(g: Graph, s: string): (n: nat)
    requires Valid(g)
    ensures n == |Dependees(g, s)|
  {
    DependencyContainer.GetDependeesCount(g.dependencies, s)
  }

  /** Whether dependents(s) is non-empty. */
  function HasDependents(g: Graph, s: string): (b: bool)
    requires Valid(g)
    ensures b <==> Dependents(g, s) != {}
  {
    DependencyContainer.GetDependentsCount(g.dependencies, s) > 0
  }

  /** Whether dependees(s) is non-empty. */
  function HasDependees(g: Graph, s: string): (b: bool)
    requires Valid(g)
    ensures b <==> Dependees(g, s) != {}
  {
    DependencyContainer.GetDependeesCount(g.dependencies, s) > 0
  }

  /** dependents(s), as a copy the caller may keep. */
  function GetDependents(g: Graph, s: string): (r: set<string>)
    requires Valid(g)
    ensures r == Dependents(g, s)
    ensures forall t :: t in r <==> (s, t) in Pairs(g)
  {
    DependencyContainer.GetDependents(g.dependencies, s)
  }

  /** dependees(s), as a copy the caller may keep. */
  function GetDependees(g: Graph, s: string): (r: set<string>)
    requires Valid(g)
    ensures r == Dependees(g, s)
    ensures forall t :: t in r <==> (t, s) in Pairs(g)
  {
    DependencyContainer.GetDependees(g.dependencies, s)
  }

  /** Adds (dependee, dependent) unless it is already present. */
  function AddDependency(g: Graph, dependee: string, dependent: string): (g': Graph)
    requires Valid(g)
    ensures Valid(g')
    ensures Pairs(g') == Pairs(g) + {(dependee, dependent)}
  {
    Graph(DependencyContainer.AddPair(g.dependencies, dependent, dependee))
  }

  /** Removes (dependee, dependent) if it is present. */
  function RemoveDependency(g: Graph, dependee: string, dependent: string): (g': Graph)
    requires Valid(g)
    ensures Valid(g')
    ensures Pairs(g') == Pairs(g) - {(dependee, dependent)}
    ensures (dependee, dependent) !in Pairs(g) ==> g' == g
  {
    Graph(DependencyContainer.RemovePair(g.dependencies, dependent, dependee))
  }

  /** The pairs (node, d) for every d listed. */
  ghost function From(node: string, ds: seq<string>): set<Pair> {
    set d | d in ds :: (node, d)
  }

  /** The pairs (d, node) for every d listed. */
  ghost function To(node: string, ds: seq<string>): set<Pair> {
    set d | d in ds :: (d, node)
  }

  /** Adding one pair and then the rest adds them all. */
  lemma UnionStep(before: set<Pair>, middle: set<Pair>, after: set<Pair>, first: Pair, all: set<Pair>, rest: set<Pair>)
    requires middle == before + {first} && after == middle + rest && all == {first} + rest
    ensures after == before + all
  {
  }

  lemma FromCons(node: string, ds: seq<string>)
    requires |ds| > 0
    ensures From(node, ds) == {(node, ds[0])} + From(node, ds[1..])
  {
    assert forall d :: d in ds <==> d == ds[0] || d in ds[1..];
  }

  lemma ToCons(node: string, ds: seq<string>)
    requires |ds| > 0
    ensures To(node, ds) == {(ds[0], node)} + To(node, ds[1..])
  {
    assert forall d :: d in ds <==> d == ds[0] || d in ds[1..];
  }

  lemma SetOfCons(ps: seq<Pair>)
    requires |ps| > 0
    ensures (set p | p in ps) == {ps[0]} + set p | p in ps[1..]
  {
    assert forall p :: p in ps <==> p == ps[0] || p in ps[1..];
  }

  /** The foreach of ReplaceDependents: adds (node, d) for each listed d. */
  function AddDependents(c: DependencyContainer.Container, node: string, ds: seq<string>): (c': DependencyContainer.Container)
    requires DependencyContainer.Valid(c)
    ensures DependencyContainer.Valid(c')
    ensures DependencyContainer.Pairs(c') == DependencyContainer.Pairs(c) + From(node, ds)
    decreases |ds|
  {
    if |ds| == 0 then c
    else
      var added := DependencyContainer.AddPair(c, ds[0], node);
      var c' := AddDependents(added, node, ds[1..]);
      FromCons(node, ds);
      UnionStep(DependencyContainer.Pairs(c), DependencyContainer.Pairs(added), DependencyContainer.Pairs(c'),
                (node, ds[0]), From(node, ds), From(node, ds[1..]));
      c'
  }

  /** The foreach of ReplaceDependees: adds (d, node) for each listed d. */
  function AddDependees(c: DependencyContainer.Container, node: string, ds: seq<string>): (c': DependencyContainer.Container)
    requires DependencyContainer.Valid(c)
    ensures DependencyContainer.Valid(c')
    ensures DependencyContainer.Pairs(c') == DependencyContainer.Pairs(c) + To(node, ds)
    decreases |ds|
  {
    if |ds| == 0 then c
    else
      var added := DependencyContainer.AddPair(c, node, ds[0]);
      var c' := AddDependees(added, node, ds[1..]);
      ToCons(node, ds);
      UnionStep(DependencyContainer.Pairs(c), DependencyContainer.Pairs(added), DependencyContainer.Pairs(c'),
                (ds[0], node), To(node, ds), To(node, ds[1..]));
      c'
  }

  /** Replaces dependents(node) by the listed nodes; every other pair is kept. */
  function ReplaceDependents(g: Graph, node: string, newDependents: seq<string>): (g': Graph)
    requires Valid(g)
    ensures Valid(g')
    ensures Pairs(g') == (set p | p in Pairs(g) && p.0 != node) + From(node, newDependents)
  {
    Graph(AddDependents(DependencyContainer.RemoveDependents(g.dependencies, node), node, newDependents))
  }

  /** Replaces dependees(node) by the listed nodes; every other pair is kept. */
  function ReplaceDependees(g: Graph, node: string, newDependees: seq<string>): (g': Graph)
    requires Valid(g)
    ensures Valid(g')
    ensures Pairs(g') == (set p | p in Pairs(g) && p.1 != node) + To(node, newDependees)
  {
    Graph(AddDependees(DependencyContainer.RemoveDependees(g.dependencies, node), node, newDependees))
  }

  /** A new graph has no pairs, and no node has dependents or dependees. */
  lemma NewGraphIsEmpty(s: string)
    ensures Size(New()) == 0 && Indexer(New(), s) == 0
    ensures !HasDependents(New(), s) && !HasDependees(New(), s)
    ensures GetDependents(New(), s) == {} && GetDependees(New(), s) == {}
  {
  }

  /** Adding the same pair twice leaves one pair. */
  lemma AddDuplicateDependency(a: string, b: string)
    ensures Size(AddDependency(AddDependency(New(), a, b), a, b)) == 1
  {
    var g := AddDependency(AddDependency(New(), a, b), a, b);
    assert Pairs(g) == {(a, b)};
  }

  /** After ReplaceDependents(s, N), dependents(s) is exactly the listed nodes. */
  lemma ReplacedDependents(g: Graph, s: string, newDependents: seq<string>)
    requires Valid(g)
    ensures GetDependents(ReplaceDependents(g, s, newDependents), s) == set d | d in newDependents
    ensures forall t :: t != s ==> GetDependents(ReplaceDependents(g, s, newDependents), t) == GetDependents(g, t)
  {
    var g' := ReplaceDependents(g, s, newDependents);
    forall t ensures t in GetDependents(g', s) <==> t in newDependents {
      assert t in newDependents ==> (s, t) in From(s, newDependents);
    }
    forall t, u | t != s ensures u in GetDependents(g', t) <==> u in GetDependents(g, t) {
      assert (t, u) !in From(s, newDependents);
    }
  }

  /** After ReplaceDependees(s, N), dependees(s) is exactly the listed nodes. */
  lemma ReplacedDependees(g: Graph, s: string, newDependees: seq<string>)
    requires Valid(g)
    ensures GetDependees(ReplaceDependees(g, s, newDependees), s) == set d | d in newDependees
    ensures forall t :: t != s ==> GetDependees(ReplaceDependees(g, s, newDependees), t) == GetDependees(g, t)
  {
    var g' := ReplaceDependees(g, s, newDependees);
    forall t ensures t in GetDependees(g', s) <==> t in newDependees {
      assert t in newDependees ==> (t, s) in To(s, newDependees);
    }
    forall t, u | t != s ensures u in GetDependees(g', t) <==> u in GetDependees(g, t) {
      assert (u, t) !in To(s, newDependees);
    }
  }

  /** Replacing the dependees of a node the graph has never seen. */
  lemma ReplaceDependeesOfUnseenNode(a: string, b: string)
    ensures Size(ReplaceDependees(New(), b, [a])) == 1
    ensures GetDependents(ReplaceDependees(New(), b, [a]), a) == {b}
  {
    var g := ReplaceDependees(New(), b, [a]);
    assert To(b, [a]) == {(a, b)};
    assert Pairs(g) == {(a, b)};
    forall t ensures t in GetDependents(g, a) <==> t == b {
      assert (a, t) in Pairs(g) <==> t == b;
    }
  }

  /** Adds every listed pair in turn, as a client building a graph does. */
  function AddEach(g: Graph, ps: seq<Pair>): (g': Graph)
    requires Valid(g)
    ensures Valid(g')
    ensures Pairs(g') == Pairs(g) + set p | p in ps
    decreases |ps|
  {
    if ps == [] then g
    else
      var added := AddDependency(g, ps[0].0, ps[0].1);
      var g' := AddEach(added, ps[1..]);
      SetOfCons(ps);
      UnionStep(Pairs(g), Pairs(added), Pairs(g'), ps[0], set p | p in ps, set p | p in ps[1..]);
      g'
  }

  /** The example graph of the class comment, over any four names. */
  function ExampleGraph(a: string, b: string, c: string, d: string): (g: Graph)
    ensures Valid(g) && Pairs(g) == {(a, b), (a, c), (b, d), (d, d)}
  {
    var ps := [(a, b), (a, c), (b, d), (d, d)];
    assert (set p | p in ps) == {(a, b), (a, c), (b, d), (d, d)};
    AddEach(New(), ps)
  }

  /**
   * The queries of the class comment, on any graph whose pairs are
   * {(a,b), (a,c), (b,d), (d,d)} for distinct a, b, c, d: a self-pair is
   * stored like any other.
   */
  lemma ClassCommentDependents(g: Graph, a: string, b: string, c: string, d: string)
    requires a != b && a != c && a != d && b != c && b != d && c != d
    requires Valid(g) && Pairs(g) == {(a, b), (a, c), (b, d), (d, d)}
    ensures GetDependents(g, a) == {b, c}
    ensures GetDependents(g, b) == {d}
    ensures GetDependents(g, c) == {}
    ensures GetDependents(g, d) == {d}
  {
    forall t ensures t in GetDependents(g, a) <==> t in {b, c} {
      assert (a, t) in Pairs(g) <==> t in {b, c};
    }
    forall t ensures t in GetDependents(g, b) <==> t == d {
      assert (b, t) in Pairs(g) <==> t == d;
    }
    forall t ensures t !in GetDependents(g, c) {
      assert (c, t) !in Pairs(g);
    }
    forall t ensures t in GetDependents(g, d) <==> t == d {
      assert (d, t) in Pairs(g) <==> t == d;
    }
  }

  lemma ClassCommentDependees(g: Graph, a: string, b: string, c: string, d: string)
    requires a != b && a != c && a != d && b != c && b != d && c != d
    requires Valid(g) && Pairs(g) == {(a, b), (a, c), (b, d), (d, d)}
    ensures GetDependees(g, a) == {}
    ensures GetDependees(g, b) == {a}
    ensures GetDependees(g, c) == {a}
    ensures GetDependees(g, d) == {b, d}
  {
    forall t ensures t !in GetDependees(g, a) {
      assert (t, a) !in Pairs(g);
    }
    forall t ensures t in GetDependees(g, b) <==> t == a {
      assert (t, b) in Pairs(g) <==> t == a;
    }
    forall t ensures t in GetDependees(g, c) <==> t == a {
      assert (t, c) in Pairs(g) <==> t == a;
    }
    forall t ensures t in GetDependees(g, d) <==> t in {b, d} {
      assert (t, d) in Pairs(g) <==> t in {b, d};
    }
  }

  /** The class comment's example, built by adding its four pairs. */
  lemma ClassCommentExample(a: string, b: string, c: string, d: string)
    requires a != b && a != c && a != d && b != c && b != d && c != d
    ensures GetDependents(ExampleGraph(a, b, c, d), a) == {b, c}
    ensures GetDependees(ExampleGraph(a, b, c, d), d) == {b, d}
  {
    var g := ExampleGraph(a, b, c, d);
    ClassCommentDependents(g, a, b, c, d);
    ClassCommentDependees(g, a, b, c, d);
  }

  /** One mutating call on a graph. */
  datatype Edit =
    | Add(dependee: string, dependent: string)
    | Remove(dependee: string, dependent: string)
    | SetDependents(node: string, nodes: seq<string>)
    | SetDependees(node: string, nodes: seq<string>)

  function Apply(g: Graph, e: Edit): (g': Graph)
    requires Valid(g)
    ensures Valid(g')
  {
    match e
    case Add(s, t) => AddDependency(g, s, t)
    case Remove(s, t) => RemoveDependency(g, s, t)
    case SetDependents(s, ts) => ReplaceDependents(g, s, ts)
    case SetDependees(s, ts) => ReplaceDependees(g, s, ts)
  }

  /** A sequence of edits applied in order, starting from a new graph. */
  function ApplyAll(edits: seq<Edit>): (g: Graph)
    ensures Valid(g)
  {
    if |edits| == 0 then New() else Apply(ApplyAll(edits[..|edits| - 1]), edits[|edits| - 1])
  }
}
