/**
 * The mirrored storage behind a dependency graph
 * (PS2/SpreadsheetUtilities/DependencyContainer.cs).
 *
 * A dependency is an ordered pair (dependee, dependent): the dependent's
 * value depends on the dependee's.  The container stores every pair twice,
 * once in each of two maps of sets, and keeps a running count of the
 * distinct pairs.  Its abstract value is the set `Pairs(c)`.
 */
module DependencyContainer {

  /** An ordered pair (dependee, dependent). */
  type Pair = (string, string)

  /**
   * The two maps keep the source's field names, whose meaning is the reverse
   * of what the names suggest:
   *   `dependents` maps a dependent to the set of its dependees;
   *   `dependees`  maps a dependee to the set of its dependents.
   * A key may stay in a map with an empty set after its pairs are removed.
   */
  datatype Container = Container(
    dependents: map<string, set<string>>,
    dependees: map<string, set<string>>,
    count: nat)

  /** The pairs stored in the container, read from the `dependents` map. */
  ghost function Pairs(c: Container): (pairs: set<Pair>)
    ensures forall dependee, dependent {:trigger (dependee, dependent) in pairs} ::
      (dependee, dependent) in pairs <==> dependent in c.dependents && dependee in c.dependents[dependent]
  {
    var pairs := set dependent, dependee | dependent in c.dependents && dependee in c.dependents[dependent] :: (dependee, dependent);
    assert forall dependee, dependent {:trigger (dependee, dependent) in pairs} ::
      dependent in c.dependents && dependee in c.dependents[dependent] ==> (dependee, dependent) in pairs;
    pairs
  }

  /** Every pair is stored in both maps. */
  ghost predicate Mirrored(c: Container) {
    && (forall dependent, dependee {:trigger dependee in c.dependents[dependent]} ::
          dependent in c.dependents && dependee in c.dependents[dependent] ==>
            dependee in c.dependees && dependent in c.dependees[dependee])
    && (forall dependent, dependee {:trigger dependent in c.dependees[dependee]} ::
          dependee in c.dependees && dependent in c.dependees[dependee] ==>
            dependent in c.dependents && dependee in c.dependents[dependent])
  }

  /** The representation invariant: mirrored maps and an exact pair count. */
  ghost predicate Valid(c: Container) {
    Mirrored(c) && c.count == |Pairs(c)|
  }

  /** The dependents of `s` in a set of pairs. */
  ghost function DependentsIn(pairs: set<Pair>, s: string): set<string> {
    set p | p in pairs && p.0 == s :: p.1
  }

  /** The dependees of `s` in a set of pairs. */
  ghost function DependeesIn(pairs: set<Pair>, s: string): set<string> {
    set p | p in pairs && p.1 == s :: p.0
  }

  lemma PairsMembership(c: Container, dependee: string, dependent: string)
    requires Mirrored(c)
    ensures (dependee, dependent) in Pairs(c) <==> dependent in c.dependents && dependee in c.dependents[dependent]
    ensures (dependee, dependent) in Pairs(c) <==> dependee in c.dependees && dependent in c.dependees[dependee]
  {
  }

  /** The container a new graph starts with. */
  function Empty(): (c: Container)
    ensures Valid(c) && Pairs(c) == {}
  {
    Container(map[], map[], 0)
  }

  /** Maps `key` to an empty set unless it is already present. */
  function InitializeKey(key: string, dict: map<string, set<string>>): (d: map<string, set<string>>)
    ensures key in d && d.Keys == dict.Keys + {key}
    ensures forall k :: k in dict ==> d[k] == dict[k]
    ensures key !in dict ==> d[key] == {}
  {
    if key in dict then dict else dict[key := {}]
  }

  /** `InitializeKey(key, dict)` followed by `HashSet.Add(value)` on the key's set. */
  function Insert(dict: map<string, set<string>>, key: string, value: string): (d: map<string, set<string>>)
    ensures d.Keys == dict.Keys + {key}
    ensures forall k, v {:trigger v in d[k]} :: k in d && v in d[k] <==> (k in dict && v in dict[k]) || (k == key && v == value)
  {
    var initialized := InitializeKey(key, dict);
    initialized[key := initialized[key] + {value}]
  }

  /**
   * Adds the pair (dependee, dependent), skipping duplicates.  Note the
   * parameter order: the dependent comes first.
   */
  function AddPair(c: Container, dependent: string, dependee: string): (c': Container)
    requires Valid(c)
    ensures Valid(c')
    ensures Pairs(c') == Pairs(c) + {(dependee, dependent)}
    ensures (dependee, dependent) in Pairs(c) ==> c'.count == c.count
    ensures (dependee, dependent) !in Pairs(c) ==> c'.count == c.count + 1
  {
    var forward := InitializeKey(dependent, c.dependents);
    var reverse := InitializeKey(dependee, c.dependees);
    // HashSet.Add reports whether the element was new; `&=` evaluates both adds
    var added := dependee !in forward[dependent];
    var added' := added && dependent !in reverse[dependee];
    var c' := Container(
      Insert(c.dependents, dependent, dependee),
      Insert(c.dependees, dependee, dependent),
      if added' then c.count + 1 else c.count);
    InsertMirrored(c, c', dependent, dependee);
    InsertPairs(c, c', dependent, dependee);
    assert added' <==> (dependee, dependent) !in Pairs(c);
    assert added' ==> |Pairs(c')| == |Pairs(c)| + 1;
    assert !added' ==> Pairs(c') == Pairs(c);
    c'
  }

  lemma InsertMirrored(c: Container, c': Container, dependent: string, dependee: string)
    requires Mirrored(c)
    requires c'.dependents == Insert(c.dependents, dependent, dependee)
    requires c'.dependees == Insert(c.dependees, dependee, dependent)
    ensures Mirrored(c')
  {
    forall d, e | d in c'.dependents && e in c'.dependents[d]
      ensures e in c'.dependees && d in c'.dependees[e]
    {
      if d != dependent || e != dependee {
        assert d in c.dependents && e in c.dependents[d];
      }
    }
    forall d, e | e in c'.dependees && d in c'.dependees[e]
      ensures d in c'.dependents && e in c'.dependents[d]
    {
      if d != dependent || e != dependee {
        assert e in c.dependees && d in c.dependees[e];
      }
    }
  }

  lemma InsertPairs(c: Container, c': Container, dependent: string, dependee: string)
    requires c'.dependents == Insert(c.dependents, dependent, dependee)
    ensures Pairs(c') == Pairs(c) + {(dependee, dependent)}
  {
    forall p | p in Pairs(c') ensures p in Pairs(c) + {(dependee, dependent)} {
      assert (p.0, p.1) in Pairs(c');
    }
    forall p | p in Pairs(c) + {(dependee, dependent)} ensures p in Pairs(c') {
      assert (p.0, p.1) in Pairs(c) + {(dependee, dependent)};
    }
  }

  /** Removes `value` from the set at `key`, when the key is present. */
  function Erase(dict: map<string, set<string>>, key: string, value: string): (d: map<string, set<string>>)
    ensures d.Keys == dict.Keys
    ensures forall k, v {:trigger v in d[k]} :: k in d && v in d[k] <==> k in dict && v in dict[k] && (k != key || v != value)
    ensures key !in dict || value !in dict[key] ==> d == dict
  {
    assert key in dict && value !in dict[key] ==> dict[key] - {value} == dict[key];
    if key in dict then dict[key := dict[key] - {value}] else dict
  }

  /** Removes the pair (dependee, dependent) if it is stored. */
  function RemovePair(c: Container, dependent: string, dependee: string): (c': Container)
    requires Valid(c)
    ensures Valid(c')
    ensures Pairs(c') == Pairs(c) - {(dependee, dependent)}
    ensures (dependee, dependent) in Pairs(c) ==> c'.count == c.count - 1
    ensures (dependee, dependent) !in Pairs(c) ==> c' == c
  {
    // `removed` follows the source: false unless the forward set held the
    // pair, then `&=` with the reverse removal
    var removedForward := dependent in c.dependents && dependee in c.dependents[dependent];
    var removed := if dependee in c.dependees then removedForward && dependent in c.dependees[dependee] else removedForward;
    var erased := Container(Erase(c.dependents, dependent, dependee), Erase(c.dependees, dependee, dependent), 0);
    EraseMirrored(c, erased, dependent, dependee);
    ErasePairs(c, erased, dependent, dependee);
    assert removed <==> (dependee, dependent) in Pairs(c);
    assert removed ==> |Pairs(erased)| == |Pairs(c)| - 1;
    assert !removed ==> Pairs(erased) == Pairs(c);
    erased.(count := if removed then c.count - 1 else c.count)
  }

  lemma EraseMirrored(c: Container, c': Container, dependent: string, dependee: string)
    requires Mirrored(c)
    requires c'.dependents == Erase(c.dependents, dependent, dependee)
    requires c'.dependees == Erase(c.dependees, dependee, dependent)
    ensures Mirrored(c')
  {
    forall d, e | d in c'.dependents && e in c'.dependents[d]
      ensures e in c'.dependees && d in c'.dependees[e]
    {
      assert d in c.dependents && e in c.dependents[d];
    }
    forall d, e | e in c'.dependees && d in c'.dependees[e]
      ensures d in c'.dependents && e in c'.dependents[d]
    {
      assert e in c.dependees && d in c.dependees[e];
    }
  }

  lemma ErasePairs(c: Container, c': Container, dependent: string, dependee: string)
    requires c'.dependents == Erase(c.dependents, dependent, dependee)
    ensures Pairs(c') == Pairs(c) - {(dependee, dependent)}
  {
    forall p | p in Pairs(c') ensures p in Pairs(c) - {(dependee, dependent)} {
      assert (p.0, p.1) in Pairs(c');
    }
    forall p | p in Pairs(c) - {(dependee, dependent)} ensures p in Pairs(c') {
      assert (p.0, p.1) in Pairs(c) - {(dependee, dependent)};
    }
  }

  /** The pairs whose dependee is `dependee`, built from its dependents. */
  ghost function PairsFrom(dependee: string, dependents: set<string>): (pairs: set<Pair>)
    ensures |pairs| == |dependents|
    ensures forall p :: p in pairs <==> p.0 == dependee && p.1 in dependents
  {
    CardinalityFrom(dependee, dependents);
    set d | d in dependents :: (dependee, d)
  }

  lemma {:induction false} CardinalityFrom(dependee: string, dependents: set<string>)
    ensures |set d | d in dependents :: (dependee, d)| == |dependents|
    decreases dependents
  {
    if dependents != {} {
      var d :| d in dependents;
      CardinalityFrom(dependee, dependents - {d});
      assert (set x | x in dependents :: (dependee, x)) == (set x | x in dependents - {d} :: (dependee, x)) + {(dependee, d)};
    }
  }

  /** The pairs whose dependent is `dependent`, built from its dependees. */
  ghost function PairsTo(dependent: string, dependees: set<string>): (pairs: set<Pair>)
    ensures |pairs| == |dependees|
    ensures forall p :: p in pairs <==> p.1 == dependent && p.0 in dependees
  {
    CardinalityTo(dependent, dependees);
    set d | d in dependees :: (d, dependent)
  }

  lemma {:induction false} CardinalityTo(dependent: string, dependees: set<string>)
    ensures |set d | d in dependees :: (d, dependent)| == |dependees|
    decreases dependees
  {
    if dependees != {} {
      var d :| d in dependees;
      CardinalityTo(dependent, dependees - {d});
      assert (set x | x in dependees :: (x, dependent)) == (set x | x in dependees - {d} :: (x, dependent)) + {(d, dependent)};
    }
  }

  /**
   * Removes every pair whose dependee is `dependee` and lowers the count by
   * the number removed.  The key stays mapped to an (emptied) set.
   */
  function RemoveDependents(c: Container, dependee: string): (c': Container)
    requires Valid(c)
    ensures Valid(c')
    ensures Pairs(c') == set p | p in Pairs(c) && p.0 != dependee
    ensures c'.count == c.count - |DependentsIn(Pairs(c), dependee)|
  {
    if dependee !in c.dependees then
      NoDependents(c, dependee);
      c
    else
      var removed := c.dependees[dependee];
      // the foreach: drop `dependee` from the forward set of each dependent
      var forward := map d | d in c.dependents :: if d in removed then c.dependents[d] - {dependee} else c.dependents[d];
      var reverse := c.dependees[dependee := {}];
      var c' := Container(forward, reverse, 0);
      RemoveDependentsMirrored(c, c', dependee);
      RemoveDependentsPairs(c, c', dependee);
      RemoveDependentsCount(c, dependee);
      Container(forward, reverse, c.count - |removed|)
  }

  lemma NoDependents(c: Container, dependee: string)
    requires Mirrored(c) && dependee !in c.dependees
    ensures DependentsIn(Pairs(c), dependee) == {}
  {
    forall p | p in Pairs(c) ensures p.0 != dependee {
      assert (p.0, p.1) in Pairs(c);
    }
  }

  lemma RemoveDependentsMirrored(c: Container, c': Container, dependee: string)
    requires Mirrored(c) && dependee in c.dependees
    requires c'.dependents == map d | d in c.dependents :: if d in c.dependees[dependee] then c.dependents[d] - {dependee} else c.dependents[d]
    requires c'.dependees == c.dependees[dependee := {}]
    ensures Mirrored(c')
    ensures c'.dependents.Keys == c.dependents.Keys
    ensures forall d | d in c.dependents :: c'.dependents[d] == c.dependents[d] - {dependee}
  {
    forall d | d in c.dependents ensures c'.dependents[d] == c.dependents[d] - {dependee} {
      if d !in c.dependees[dependee] {
        assert dependee !in c.dependents[d];
      }
    }
    forall d, e | e in c'.dependees && d in c'.dependees[e]
      ensures d in c'.dependents && e in c'.dependents[d]
    {
      assert e in c.dependees && d in c.dependees[e];
    }
  }

  lemma RemoveDependentsPairs(c: Container, c': Container, dependee: string)
    requires c'.dependents.Keys == c.dependents.Keys
    requires forall d | d in c.dependents :: c'.dependents[d] == c.dependents[d] - {dependee}
    ensures Pairs(c') == set p | p in Pairs(c) && p.0 != dependee
  {
    var kept := set p | p in Pairs(c) && p.0 != dependee;
    forall p | p in Pairs(c') ensures p in kept {
      assert (p.0, p.1) in Pairs(c');
    }
    forall p | p in kept ensures p in Pairs(c') {
      assert (p.0, p.1) in Pairs(c);
    }
  }

  lemma RemoveDependentsCount(c: Container, dependee: string)
    requires Mirrored(c) && dependee in c.dependees
    ensures DependentsIn(Pairs(c), dependee) == c.dependees[dependee]
    ensures |set p | p in Pairs(c) && p.0 != dependee| == |Pairs(c)| - |c.dependees[dependee]|
  {
    var removed := c.dependees[dependee];
    var kept := set p | p in Pairs(c) && p.0 != dependee;
    var gone := PairsFrom(dependee, removed);
    forall p | p in Pairs(c) ensures p in kept + gone {
      assert (p.0, p.1) in Pairs(c);
    }
    forall p | p in gone ensures p in Pairs(c) {
      assert (p.0, p.1) in Pairs(c);
    }
    assert Pairs(c) == kept + gone;
    assert kept !! gone;
    forall d | d in removed ensures d in DependentsIn(Pairs(c), dependee) {
      assert (dependee, d) in Pairs(c);
    }
  }

  /**
   * Removes every pair whose dependent is `dependent` and lowers the count by
   * the number removed.  The key stays mapped to an (emptied) set.
   */
  function RemoveDependees(c: Container, dependent: string): (c': Container)
    requires Valid(c)
    ensures Valid(c')
    ensures Pairs(c') == set p | p in Pairs(c) && p.1 != dependent
    ensures c'.count == c.count - |DependeesIn(Pairs(c), dependent)|
  {
    if dependent !in c.dependents then
      NoDependees(c, dependent);
      c
    else
      var removed := c.dependents[dependent];
      // the foreach: drop `dependent` from the reverse set of each dependee
      var reverse := map e | e in c.dependees :: if e in removed then c.dependees[e] - {dependent} else c.dependees[e];
      var forward := c.dependents[dependent := {}];
      var c' := Container(forward, reverse, 0);
      RemoveDependeesMirrored(c, c', dependent);
      RemoveDependeesPairs(c, c', dependent);
      RemoveDependeesCount(c, dependent);
      Container(forward, reverse, c.count - |removed|)
  }

  lemma NoDependees(c: Container, dependent: string)
    requires dependent !in c.dependents
    ensures DependeesIn(Pairs(c), dependent) == {}
  {
    forall p | p in Pairs(c) ensures p.1 != dependent {
      assert (p.0, p.1) in Pairs(c);
    }
  }

  lemma RemoveDependeesMirrored(c: Container, c': Container, dependent: string)
    requires Mirrored(c) && dependent in c.dependents
    requires c'.dependees == map e | e in c.dependees :: if e in c.dependents[dependent] then c.dependees[e] - {dependent} else c.dependees[e]
    requires c'.dependents == c.dependents[dependent := {}]
    ensures Mirrored(c')
  {
    forall d, e | e in c'.dependees && d in c'.dependees[e]
      ensures e in c.dependees && d in c.dependees[e] && d != dependent
    {
      if e !in c.dependents[dependent] {
        assert d in c.dependees[e];
      }
    }
  }

  lemma RemoveDependeesPairs(c: Container, c': Container, dependent: string)
    requires dependent in c.dependents
    requires c'.dependents == c.dependents[dependent := {}]
    ensures Pairs(c') == set p | p in Pairs(c) && p.1 != dependent
  {
    var kept := set p | p in Pairs(c) && p.1 != dependent;
    forall p | p in Pairs(c') ensures p in kept {
      assert (p.0, p.1) in Pairs(c');
    }
    forall p | p in kept ensures p in Pairs(c') {
      assert (p.0, p.1) in Pairs(c);
    }
  }

  lemma RemoveDependeesCount(c: Container, dependent: string)
    requires dependent in c.dependents
    ensures DependeesIn(Pairs(c), dependent) == c.dependents[dependent]
    ensures |set p | p in Pairs(c) && p.1 != dependent| == |Pairs(c)| - |c.dependents[dependent]|
  {
    var removed := c.dependents[dependent];
    var kept := set p | p in Pairs(c) && p.1 != dependent;
    var gone := PairsTo(dependent, removed);
    forall p | p in Pairs(c) ensures p in kept + gone {
      assert (p.0, p.1) in Pairs(c);
    }
    forall p | p in gone ensures p in Pairs(c) {
      assert (p.0, p.1) in Pairs(c);
    }
    assert Pairs(c) == kept + gone;
    assert kept !! gone;
    forall e | e in removed ensures e in DependeesIn(Pairs(c), dependent) {
      assert (e, dependent) in Pairs(c);
    }
  }

  /** The dependents of `dependee`, as a fresh collection; empty for an unknown key. */
  function GetDependents(c: Container, dependee: string): (dependents: set<string>)
    requires Valid(c)
    ensures dependents == DependentsIn(Pairs(c), dependee)
  {
    if dependee in c.dependees then
      RemoveDependentsCount(c, dependee);
      c.dependees[dependee]
    else
      NoDependents(c, dependee);
      {}
  }

  /** The number of dependents of `dependee`; 0 for an unknown key. */
  function GetDependentsCount(c: Container, dependee: string): (n: nat)
    requires Valid(c)
    ensures n == |GetDependents(c, dependee)|
    ensures dependee !in c.dependees ==> n == 0
  {
    if dependee in c.dependees then |c.dependees[dependee]| else 0
  }

  /** The dependees of `dependent`, as a fresh collection; empty for an unknown key. */
  function GetDependees(c: Container, dependent: string): (dependees: set<string>)
    requires Valid(c)
    ensures dependees == DependeesIn(Pairs(c), dependent)
  {
    if dependent in c.dependents then
      RemoveDependeesCount(c, dependent);
      c.dependents[dependent]
    else
      NoDependees(c, dependent);
      {}
  }

  /** The number of dependees of `dependent`; 0 for an unknown key. */
  function GetDependeesCount(c: Container, dependent: string): (n: nat)
    requires Valid(c)
    ensures n == |GetDependees(c, dependent)|
    ensures dependent !in c.dependents ==> n == 0
  {
    if dependent in c.dependents then |c.dependents[dependent]| else 0
  }
}
