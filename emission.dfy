/**
 * Turning the registry into joins. The nodes are emitted level by level (the
 * root, then every node one hop away, then every node two hops away, ...),
 * keeping registration order within a level. Each non-root node gets an alias
 * not yet used in the query and adds one join clause to the query.
 */
module Emission {
  import opened Schema
  import opened Paths
  import opened Registry

  // ---------------------------------------------------------------------------
  // Emission order
  // ---------------------------------------------------------------------------

  /** The nodes of `es` at depth `d`, in their order in `es`. */
  function AtDepth(es: seq<Position>, d: nat): seq<Position>
    decreases |es|
  {
    if es == [] then []
    else
      var last := es[|es| - 1];
      var init := AtDepth(es[..|es| - 1], d);
      if |last| == d then init + [last] else init
  }

  lemma {:induction false} AtDepthMembers(es: seq<Position>, d: nat)
    ensures forall p :: p in AtDepth(es, d) <==> p in es && |p| == d
    ensures (forall p :: p in es ==> |p| != d) ==> AtDepth(es, d) == []
    decreases |es|
  {
    if es != [] {
      var last := es[|es| - 1];
      assert es == es[..|es| - 1] + [last];
      AtDepthMembers(es[..|es| - 1], d);
    }
  }

  /** The nodes of `es` at depths `d` to `d + count - 1`, level after level. */
  function Layers(es: seq<Position>, d: nat, count: nat): seq<Position>
    decreases count
  {
    if count == 0 then [] else AtDepth(es, d) + Layers(es, d + 1, count - 1)
  }

  lemma {:induction false} LayersMembers(es: seq<Position>, d: nat, count: nat)
    ensures forall p :: p in Layers(es, d, count) <==> p in es && d <= |p| < d + count
    decreases count
  {
    if count > 0 {
      AtDepthMembers(es, d);
      LayersMembers(es, d + 1, count - 1);
    }
  }

  function MaxDepth(es: seq<Position>): (m: nat)
    ensures forall p :: p in es ==> |p| <= m
    ensures m == 0 || exists p :: p in es && |p| == m
    decreases |es|
  {
    if es == [] then 0
    else
      var m := MaxDepth(es[1..]);
      assert forall p :: p in es ==> p == es[0] || p in es[1..];
      if |es[0]| > m then |es[0]| else m
  }

  /** The order in which the registered nodes are joined. */
  function EmissionOrder(es: seq<Position>): seq<Position>
  {
    Layers(es, 0, MaxDepth(es) + 1)
  }

  /** Shallower nodes come first. */
  predicate DepthSorted(s: seq<Position>)
  {
    forall i, j :: 0 <= i < j < |s| ==> |s[i]| <= |s[j]|
  }

  /** Every non-root node comes after its parent. */
  predicate ParentsFirst(s: seq<Position>)
  {
    forall i :: 0 <= i < |s| && |s[i]| > 0 ==> Parent(s[i]) in s[..i]
  }

  lemma DistinctAppend(a: seq<Position>, b: seq<Position>)
    requires Distinct(a) && Distinct(b)
    requires forall p :: p in a ==> p !in b
    ensures Distinct(a + b)
  {
    var s := a + b;
    forall i, j | 0 <= i < j < |s| ensures s[i] != s[j] {
      if i < |a| && j >= |a| {
        assert s[i] == a[i] && s[j] == b[j - |a|];
        assert a[i] in a;
      } else if i >= |a| {
        assert s[i] == b[i - |a|] && s[j] == b[j - |a|];
      } else {
        assert s[i] == a[i] && s[j] == a[j];
      }
    }
  }

  lemma {:induction false} AtDepthDistinct(es: seq<Position>, d: nat)
    requires Distinct(es)
    ensures Distinct(AtDepth(es, d))
    decreases |es|
  {
    if es != [] {
      var init := es[..|es| - 1];
      var last := es[|es| - 1];
      assert Distinct(init) by {
        forall i, j | 0 <= i < j < |init| ensures init[i] != init[j] {
          assert init[i] == es[i] && init[j] == es[j];
        }
      }
      AtDepthDistinct(init, d);
      AtDepthMembers(init, d);
      assert last !in init by {
        forall i | 0 <= i < |init| ensures init[i] != last {
          assert init[i] == es[i];
        }
      }
      if |last| == d {
        DistinctAppend(AtDepth(init, d), [last]);
      }
    }
  }

  lemma {:induction false} LayersSorted(es: seq<Position>, d: nat, count: nat)
    ensures DepthSorted(Layers(es, d, count))
    decreases count
  {
    if count > 0 {
      var a := AtDepth(es, d);
      var b := Layers(es, d + 1, count - 1);
      LayersSorted(es, d + 1, count - 1);
      AtDepthMembers(es, d);
      LayersMembers(es, d + 1, count - 1);
      var s := a + b;
      forall i, j | 0 <= i < j < |s| ensures |s[i]| <= |s[j]| {
        if j < |a| {
          assert s[i] == a[i] && s[j] == a[j];
          assert a[i] in a && a[j] in a;
        } else if i < |a| {
          assert s[i] == a[i] && s[j] == b[j - |a|];
          assert a[i] in a && b[j - |a|] in b;
        } else {
          assert s[i] == b[i - |a|] && s[j] == b[j - |a|];
        }
      }
    }
  }

  lemma {:induction false} LayersDistinct(es: seq<Position>, d: nat, count: nat)
    requires Distinct(es)
    ensures Distinct(Layers(es, d, count))
    decreases count
  {
    if count > 0 {
      LayersDistinct(es, d + 1, count - 1);
      AtDepthMembers(es, d);
      LayersMembers(es, d + 1, count - 1);
      AtDepthDistinct(es, d);
      DistinctAppend(AtDepth(es, d), Layers(es, d + 1, count - 1));
    }
  }

  /** The emission order lists every registered node once, shallower nodes first. */
  lemma EmissionFacts(es: seq<Position>)
    ensures forall p :: p in EmissionOrder(es) <==> p in es
    ensures DepthSorted(EmissionOrder(es))
    ensures Distinct(es) ==> Distinct(EmissionOrder(es))
  {
    LayersMembers(es, 0, MaxDepth(es) + 1);
    LayersSorted(es, 0, MaxDepth(es) + 1);
    if Distinct(es) {
      LayersDistinct(es, 0, MaxDepth(es) + 1);
    }
  }

  lemma {:induction false} AtDepthAppend(a: seq<Position>, b: seq<Position>, d: nat)
    ensures AtDepth(a + b, d) == AtDepth(a, d) + AtDepth(b, d)
    decreases |b|
  {
    if b == [] {
      assert a + b == a;
    } else {
      var b' := b[..|b| - 1];
      AtDepthAppend(a, b', d);
      assert (a + b)[..|a + b| - 1] == a + b';
      assert (a + b)[|a + b| - 1] == b[|b| - 1];
    }
  }

  lemma {:induction false} AtDepthOfLevel(s: seq<Position>, d: nat)
    requires forall p :: p in s ==> |p| == d
    ensures AtDepth(s, d) == s
    decreases |s|
  {
    if s != [] {
      assert s[..|s| - 1] + [s[|s| - 1]] == s;
      assert forall p :: p in s[..|s| - 1] ==> p in s;
      AtDepthOfLevel(s[..|s| - 1], d);
    }
  }

  lemma {:induction false} AtDepthOfLayers(es: seq<Position>, d0: nat, count: nat, d: nat)
    ensures AtDepth(Layers(es, d0, count), d) == if d0 <= d < d0 + count then AtDepth(es, d) else []
    decreases count
  {
    if count == 0 {
      assert Layers(es, d0, count) == [];
    } else {
      AtDepthOfLayers(es, d0 + 1, count - 1, d);
      AtDepthOfLayersStep(es, d0, count, d);
    }
  }

  /** The layers from `d0` have the first layer's nodes at depth `d` followed by those of the deeper layers. */
  lemma AtDepthOfLayersStep(es: seq<Position>, d0: nat, count: nat, d: nat)
    requires count > 0
    requires AtDepth(Layers(es, d0 + 1, count - 1), d) == if d0 + 1 <= d < d0 + count then AtDepth(es, d) else []
    ensures AtDepth(Layers(es, d0, count), d) == if d0 <= d < d0 + count then AtDepth(es, d) else []
  {
    AtDepthAppend(AtDepth(es, d0), Layers(es, d0 + 1, count - 1), d);
    AtDepthMembers(es, d0);
    if d == d0 {
      AtDepthOfLevel(AtDepth(es, d0), d);
    } else {
      AtDepthMembers(AtDepth(es, d0), d);
    }
  }

  /** Within one level, nodes are emitted in registration order. */
  lemma EmissionStable(es: seq<Position>, d: nat)
    ensures AtDepth(EmissionOrder(es), d) == AtDepth(es, d)
  {
    AtDepthOfLayers(es, 0, MaxDepth(es) + 1, d);
    if d > MaxDepth(es) {
      AtDepthMembers(es, d);
    }
  }

  /** When the registered nodes form a tree, every node is emitted after its parent. */
  lemma EmissionParentsFirst(es: seq<Position>)
    requires PrefixClosed(es)
    ensures ParentsFirst(EmissionOrder(es))
  {
    var s := EmissionOrder(es);
    EmissionFacts(es);
    forall i | 0 <= i < |s| && |s[i]| > 0 ensures Parent(s[i]) in s[..i] {
      assert s[i] in es;
      var k :| 0 <= k < |es| && es[k] == s[i];
      ParentBefore(s, i);
    }
  }

  lemma ParentBefore(s: seq<Position>, i: nat)
    requires DepthSorted(s)
    requires i < |s| && |s[i]| > 0 && Parent(s[i]) in s
    ensures Parent(s[i]) in s[..i]
  {
    var j :| 0 <= j < |s| && s[j] == Parent(s[i]);
    assert s[..i][j] == s[j];
  }

  lemma NoMembers(s: seq<Position>)
    ensures (forall p :: p !in s) ==> s == []
  {
    if s != [] {
      assert s[0] in s;
    }
  }

  lemma {:induction false} LayersSnoc(s: seq<Position>, x: Position, d: nat, count: nat)
    requires d <= |x| < d + count
    requires forall p :: p in s ==> |p| <= |x|
    ensures Layers(s + [x], d, count) == Layers(s, d, count) + [x]
    decreases count
  {
    if |x| == d {
      LayersSnocHere(s, x, d, count);
    } else {
      assert (s + [x])[..|s|] == s;
      LayersSnoc(s, x, d + 1, count - 1);
    }
  }

  /** The node appended at the first layer's depth joins that layer, and the deeper layers stay empty. */
  lemma LayersSnocHere(s: seq<Position>, x: Position, d: nat, count: nat)
    requires |x| == d && count > 0
    requires forall p :: p in s ==> |p| <= |x|
    ensures Layers(s + [x], d, count) == Layers(s, d, count) + [x]
  {
    assert (s + [x])[..|s|] == s;
    LayersMembers(s + [x], d + 1, count - 1);
    LayersMembers(s, d + 1, count - 1);
    NoMembers(Layers(s + [x], d + 1, count - 1));
    NoMembers(Layers(s, d + 1, count - 1));
  }

  lemma {:induction false} SortedLayers(s: seq<Position>, n: nat)
    requires DepthSorted(s)
    requires forall p :: p in s ==> |p| < n
    ensures Layers(s, 0, n) == s
    decreases |s|
  {
    if s == [] {
      LayersMembers(s, 0, n);
      NoMembers(Layers(s, 0, n));
    } else {
      SortedInit(s, n);
      SortedLayers(s[..|s| - 1], n);
      SortedLayersSnoc(s, n);
    }
  }

  /** Appending the deepest node of a sorted list keeps the layers equal to the list. */
  lemma SortedLayersSnoc(s: seq<Position>, n: nat)
    requires s != [] && |s[|s| - 1]| < n
    requires forall p :: p in s[..|s| - 1] ==> |p| <= |s[|s| - 1]|
    requires Layers(s[..|s| - 1], 0, n) == s[..|s| - 1]
    ensures Layers(s, 0, n) == s
  {
    var init, x := s[..|s| - 1], s[|s| - 1];
    LayersSnoc(init, x, 0, n);
    assert init + [x] == s;
  }

  lemma SortedInit(s: seq<Position>, n: nat)
    requires s != [] && DepthSorted(s)
    requires forall p :: p in s ==> |p| < n
    ensures DepthSorted(s[..|s| - 1])
    ensures forall p :: p in s[..|s| - 1] ==> |p| <= |s[|s| - 1]|
    ensures forall p :: p in s[..|s| - 1] ==> |p| < n
    ensures |s[|s| - 1]| < n
  {
    var init := s[..|s| - 1];
    assert s[|s| - 1] in s;
    forall p | p in init ensures |p| <= |s[|s| - 1]| && p in s {
      var k :| 0 <= k < |init| && init[k] == p;
      assert s[k] == p;
    }
    forall i, j | 0 <= i < j < |init| ensures |init[i]| <= |init[j]| {
      assert init[i] == s[i] && init[j] == s[j];
    }
  }

  /** A registration order that is already shallow-first is emitted as it is. */
  lemma EmissionOfSorted(s: seq<Position>)
    requires DepthSorted(s)
    ensures EmissionOrder(s) == s
  {
    SortedLayers(s, MaxDepth(s) + 1);
  }

  lemma {:induction false} LayersSame(a: seq<Position>, b: seq<Position>, d: nat, count: nat)
    requires forall e :: AtDepth(a, e) == AtDepth(b, e)
    ensures Layers(a, d, count) == Layers(b, d, count)
    decreases count
  {
    if count > 0 {
      assert AtDepth(a, d) == AtDepth(b, d);
      LayersSame(a, b, d + 1, count - 1);
    }
  }

  /** Emission depends only on the registration order within each level. */
  lemma EmissionSameLevels(a: seq<Position>, b: seq<Position>)
    requires forall d :: AtDepth(a, d) == AtDepth(b, d)
    ensures EmissionOrder(a) == EmissionOrder(b)
  {
    forall p ensures p in a <==> p in b {
      AtDepthMembers(a, |p|);
      AtDepthMembers(b, |p|);
      assert AtDepth(a, |p|) == AtDepth(b, |p|);
    }
    assert MaxDepth(a) == MaxDepth(b);
    LayersSame(a, b, 0, MaxDepth(a) + 1);
  }

  /** Swapping two runs of registered nodes that share no level does not change the emission order. */
  lemma EmissionSwap(pre: seq<Position>, x: seq<Position>, y: seq<Position>, post: seq<Position>)
    requires forall i, j :: 0 <= i < |x| && 0 <= j < |y| ==> |x[i]| != |y[j]|
    ensures EmissionOrder(pre + x + y + post) == EmissionOrder(pre + y + x + post)
  {
    forall d ensures AtDepth(pre + x + y + post, d) == AtDepth(pre + y + x + post, d) {
      SwapLevel(pre, x, y, post, d);
    }
    EmissionSameLevels(pre + x + y + post, pre + y + x + post);
  }

  lemma SwapLevel(pre: seq<Position>, x: seq<Position>, y: seq<Position>, post: seq<Position>, d: nat)
    requires forall i, j :: 0 <= i < |x| && 0 <= j < |y| ==> |x[i]| != |y[j]|
    ensures AtDepth(pre + x + y + post, d) == AtDepth(pre + y + x + post, d)
  {
    AtDepthAppend(pre + x + y, post, d);
    AtDepthAppend(pre + x, y, d);
    AtDepthAppend(pre, x, d);
    AtDepthAppend(pre + y + x, post, d);
    AtDepthAppend(pre + y, x, d);
    AtDepthAppend(pre, y, d);
    OneLevelEmpty(x, y, d);
  }

  lemma OneLevelEmpty(x: seq<Position>, y: seq<Position>, d: nat)
    requires forall i, j :: 0 <= i < |x| && 0 <= j < |y| ==> |x[i]| != |y[j]|
    ensures AtDepth(x, d) == [] || AtDepth(y, d) == []
  {
    AtDepthMembers(x, d);
    AtDepthMembers(y, d);
    if exists i :: 0 <= i < |x| && |x[i]| == d {
      var i :| 0 <= i < |x| && |x[i]| == d;
      forall q | q in y ensures |q| != d {
        var j :| 0 <= j < |y| && y[j] == q;
      }
    } else {
      forall q | q in x ensures |q| != d {
        var j :| 0 <= j < |x| && x[j] == q;
      }
    }
  }

  // ---------------------------------------------------------------------------
  // Aliases
  // ---------------------------------------------------------------------------

  function Longer(taken: set<string>, n: nat): set<string>
  {
    set s | s in taken && |s| >= n
  }

  lemma SubsetCard<T>(a: set<T>, b: set<T>)
    requires a <= b
    ensures |a| <= |b|
  {
    if a != {} {
      var x :| x in a;
      SubsetCard(a - {x}, b - {x});
    }
  }

  /** `c`, or `c` followed by as many underscores as it takes to be unused. */
  function FreshName(taken: set<string>, c: string): (n: string)
    ensures n !in taken
    ensures c !in taken ==> n == c
    ensures c <= n
    decreases |Longer(taken, |c|)|
  {
    if c !in taken then c
    else
      var next := c + "_";
      assert |Longer(taken, |next|)| < |Longer(taken, |c|)| by {
        assert c in Longer(taken, |c|);
        SubsetCard(Longer(taken, |next|), Longer(taken, |c|) - {c});
      }
      var n := FreshName(taken, next);
      assert c <= next;
      n
  }

  /** The alias tried when the target table is already used: the plural relationship name and the owner's table. */
  function Candidate(catalog: Catalog, s: Segment): string
  {
    s.relationship.pluralName + "_" + TableOf(catalog, s.relationship.owner)
  }

  /** The alias for the join along `s`: the target table if it is unused, otherwise a fresh name built from `Candidate`. */
  function AliasFor(catalog: Catalog, taken: set<string>, s: Segment): (a: string)
    ensures a !in taken
    ensures TableOf(catalog, s.target) !in taken ==> a == TableOf(catalog, s.target)
    ensures TableOf(catalog, s.target) in taken && Candidate(catalog, s) !in taken ==> a == Candidate(catalog, s)
    ensures TableOf(catalog, s.target) in taken ==> Candidate(catalog, s) <= a
  {
    var table := TableOf(catalog, s.target);
    if table !in taken then table else FreshName(taken, Candidate(catalog, s))
  }

  // ---------------------------------------------------------------------------
  // Join details and clauses
  // ---------------------------------------------------------------------------

  /** The relationship a join entry was made for; the root entry has none. */
  datatype RelationshipRef = RootRelationship | Related(relationship: Relationship)

  datatype RelationshipDetails = RelationshipDetails(joinType: JoinType)

  /** The options handed to downstream consumers: the relationship, its details and the related resource type. */
  datatype JoinOptions = JoinOptions(relationship: RelationshipRef, relationshipDetails: RelationshipDetails, relatedResourceType: ResourceType)

  /** What a lookup returns for one node. */
  datatype JoinDetails = JoinDetails(alias: string, joinType: JoinType, joinOptions: JoinOptions)

  /** One join added to the query: the joined table under its alias, along a relationship from the parent's alias. */
  datatype JoinClause = JoinClause(joinType: JoinType, table: string, alias: string, relationship: Relationship, parentAlias: string)

  /** A query on a base table with its joins; conditions and selection are not modelled. */
  datatype Query = Query(table: string, joins: seq<JoinClause>)

  /** The state of emission: aliases in use, details per node and the joins added so far. */
  datatype Performed = Performed(taken: set<string>, details: map<Position, JoinDetails>, joins: seq<JoinClause>)

  function RootTable(catalog: Catalog, root: ResourceType): string
  {
    TableOf(catalog, root)
  }

  /** Emits one node: the root is recorded under the root table's name; any other node gets an alias and a join. */
  function Step(catalog: Catalog, root: ResourceType, types: map<Position, JoinType>, acc: Performed, p: Position): Performed
    requires p in types
  {
    var jt := types[p];
    if p == [] then
      var t := RootTable(catalog, root);
      Performed(acc.taken, acc.details[p := JoinDetails(t, jt, JoinOptions(RootRelationship, RelationshipDetails(jt), root))], acc.joins)
    else
      var s := p[|p| - 1];
      var a := AliasFor(catalog, acc.taken, s);
      var parentAlias := if Parent(p) in acc.details then acc.details[Parent(p)].alias else RootTable(catalog, root);
      Performed(acc.taken + {a},
                acc.details[p := JoinDetails(a, jt, JoinOptions(Related(s.relationship), RelationshipDetails(jt), s.target))],
                acc.joins + [JoinClause(jt, TableOf(catalog, s.target), a, s.relationship, parentAlias)])
  }

  /** Emits the nodes `es` in order, starting with only the root table's name in use. */
  function Perform(catalog: Catalog, root: ResourceType, types: map<Position, JoinType>, es: seq<Position>): Performed
    requires forall i :: 0 <= i < |es| ==> es[i] in types
    decreases |es|
  {
    if es == [] then Performed({RootTable(catalog, root)}, map[], [])
    else
      Step(catalog, root, types, Perform(catalog, root, types, es[..|es| - 1]), es[|es| - 1])
  }

  /** The non-root nodes of `es`, in order: the nodes that become joins. */
  function NonRoot(es: seq<Position>): seq<Position>
    decreases |es|
  {
    if es == [] then []
    else
      var last := es[|es| - 1];
      var init := NonRoot(es[..|es| - 1]);
      if |last| > 0 then init + [last] else init
  }

  lemma {:induction false} NonRootMembers(es: seq<Position>)
    ensures forall p :: p in NonRoot(es) <==> p in es && |p| > 0
    decreases |es|
  {
    if es != [] {
      assert es == es[..|es| - 1] + [es[|es| - 1]];
      NonRootMembers(es[..|es| - 1]);
    }
  }

  /** The details emission records for node `p`. */
  predicate DetailsOf(catalog: Catalog, root: ResourceType, types: map<Position, JoinType>, p: Position, d: JoinDetails)
    requires p in types
  {
    if p == [] then d == JoinDetails(RootTable(catalog, root), types[p], JoinOptions(RootRelationship, RelationshipDetails(types[p]), root))
    else
      && d.joinType == types[p]
      && d.joinOptions == JoinOptions(Related(p[|p| - 1].relationship), RelationshipDetails(types[p]), p[|p| - 1].target)
  }

  /**
   * Emission records details for exactly the emitted nodes: the root under the
   * root table's name, every node with its registered join type and, for a
   * non-root node, the relationship and the concrete type it reaches.
   */
  lemma {:induction false} PerformDetails(catalog: Catalog, root: ResourceType, types: map<Position, JoinType>, es: seq<Position>)
    requires forall i :: 0 <= i < |es| ==> es[i] in types
    ensures forall p :: p in Perform(catalog, root, types, es).details <==> p in es
    ensures forall p :: p in Perform(catalog, root, types, es).details ==>
              DetailsOf(catalog, root, types, p, Perform(catalog, root, types, es).details[p])
    decreases |es|
  {
    if es != [] {
      var init := es[..|es| - 1];
      assert es == init + [es[|es| - 1]];
      PerformLast(catalog, root, types, es);
      PerformDetails(catalog, root, types, init);
      StepFacts(catalog, root, types, Perform(catalog, root, types, init), es[|es| - 1]);
    }
  }

  /**
   * The alias bookkeeping emission keeps: every recorded alias is in use, the
   * root table's name is in use and belongs to the root alone, and no two
   * nodes share an alias.
   */
  predicate AliasesOk(catalog: Catalog, root: ResourceType, acc: Performed)
  {
    && RootTable(catalog, root) in acc.taken
    && (forall p :: p in acc.details ==> acc.details[p].alias in acc.taken)
    && (forall p :: p in acc.details ==> (acc.details[p].alias == RootTable(catalog, root) <==> p == []))
    && (forall p, q :: p in acc.details && q in acc.details && p != q ==> acc.details[p].alias != acc.details[q].alias)
  }

  lemma StepAliases(catalog: Catalog, root: ResourceType, types: map<Position, JoinType>, acc: Performed, p: Position)
    requires p in types && p !in acc.details
    requires AliasesOk(catalog, root, acc)
    ensures AliasesOk(catalog, root, Step(catalog, root, types, acc, p))
  {
    StepFacts(catalog, root, types, acc, p);
  }

  lemma DistinctInit(es: seq<Position>)
    requires es != [] && Distinct(es)
    ensures Distinct(es[..|es| - 1]) && es[|es| - 1] !in es[..|es| - 1]
  {
    var init := es[..|es| - 1];
    forall i, j | 0 <= i < j < |init| ensures init[i] != init[j] {
      assert init[i] == es[i] && init[j] == es[j];
    }
    forall i | 0 <= i < |init| ensures init[i] != es[|es| - 1] {
      assert init[i] == es[i];
    }
  }

  /**
   * Aliases never clash: each emitted node has an alias of its own, and only
   * the root is aliased by the root table's name.
   */
  lemma {:induction false} PerformAliases(catalog: Catalog, root: ResourceType, types: map<Position, JoinType>, es: seq<Position>)
    requires forall i :: 0 <= i < |es| ==> es[i] in types
    requires Distinct(es)
    ensures AliasesOk(catalog, root, Perform(catalog, root, types, es))
    decreases |es|
  {
    if es != [] {
      var init := es[..|es| - 1];
      DistinctInit(es);
      PerformLast(catalog, root, types, es);
      PerformAliases(catalog, root, types, init);
      PerformDetails(catalog, root, types, init);
      StepAliases(catalog, root, types, Perform(catalog, root, types, init), es[|es| - 1]);
    }
  }

  /** With the emitted order `es`, the clause emission adds for the non-root node `p`. */
  function ClauseFor(catalog: Catalog, types: map<Position, JoinType>, details: map<Position, JoinDetails>, p: Position): JoinClause
    requires |p| > 0 && p in types && p in details && Parent(p) in details
  {
    JoinClause(types[p], TableOf(catalog, p[|p| - 1].target), details[p].alias, p[|p| - 1].relationship, details[Parent(p)].alias)
  }

  lemma PerformLast(catalog: Catalog, root: ResourceType, types: map<Position, JoinType>, es: seq<Position>)
    requires es != [] && forall i :: 0 <= i < |es| ==> es[i] in types
    ensures Perform(catalog, root, types, es) ==
            Step(catalog, root, types, Perform(catalog, root, types, es[..|es| - 1]), es[|es| - 1])
  {
  }

  /** One step keeps the details recorded so far, except at the emitted node, and adds its join if it is not the root. */
  lemma StepFacts(catalog: Catalog, root: ResourceType, types: map<Position, JoinType>, acc: Performed, p: Position)
    requires p in types
    ensures var r := Step(catalog, root, types, acc, p);
            && p in r.details
            && (forall q :: q in acc.details && q != p ==> q in r.details && r.details[q] == acc.details[q])
            && (forall q :: q in r.details ==> q in acc.details || q == p)
            && (p == [] ==> r.joins == acc.joins && r.taken == acc.taken && r.details[p].alias == RootTable(catalog, root))
            && (p != [] ==> r.details[p].alias !in acc.taken && r.taken == acc.taken + {r.details[p].alias})
            && DetailsOf(catalog, root, types, p, r.details[p])
            && (p != [] && Parent(p) in acc.details ==>
                  r.joins == acc.joins + [JoinClause(types[p], TableOf(catalog, p[|p| - 1].target),
                                                     r.details[p].alias, p[|p| - 1].relationship, acc.details[Parent(p)].alias)])
  {
  }

  /** `joins` is one clause per node of `ns`, in order, as `ClauseFor` describes. */
  predicate ClausesMatch(catalog: Catalog, types: map<Position, JoinType>, details: map<Position, JoinDetails>, joins: seq<JoinClause>, ns: seq<Position>)
  {
    && |joins| == |ns|
    && forall i :: 0 <= i < |ns| ==>
         && |ns[i]| > 0 && ns[i] in types && ns[i] in details && Parent(ns[i]) in details
         && joins[i] == ClauseFor(catalog, types, details, ns[i])
  }

  lemma ClausesMatchGrow(catalog: Catalog, types: map<Position, JoinType>, details: map<Position, JoinDetails>,
                         details': map<Position, JoinDetails>, joins: seq<JoinClause>, ns: seq<Position>)
    requires ClausesMatch(catalog, types, details, joins, ns)
    requires forall q :: q in details ==> q in details' && details'[q] == details[q]
    ensures ClausesMatch(catalog, types, details', joins, ns)
  {
  }

  lemma ClausesMatchAppend(catalog: Catalog, types: map<Position, JoinType>, details: map<Position, JoinDetails>,
                           joins: seq<JoinClause>, ns: seq<Position>, p: Position)
    requires ClausesMatch(catalog, types, details, joins, ns)
    requires |p| > 0 && p in types && p in details && Parent(p) in details
    ensures ClausesMatch(catalog, types, details, joins + [ClauseFor(catalog, types, details, p)], ns + [p])
  {
    var js := joins + [ClauseFor(catalog, types, details, p)];
    var ms := ns + [p];
    forall i | 0 <= i < |ms| ensures js[i] == ClauseFor(catalog, types, details, ms[i]) {
      if i < |ns| {
        assert js[i] == joins[i] && ms[i] == ns[i];
      }
    }
  }

  lemma ParentsFirstInit(es: seq<Position>)
    requires es != [] && ParentsFirst(es)
    ensures ParentsFirst(es[..|es| - 1])
    ensures |es[|es| - 1]| > 0 ==> Parent(es[|es| - 1]) in es[..|es| - 1]
  {
    var init := es[..|es| - 1];
    forall i | 0 <= i < |init| && |init[i]| > 0 ensures Parent(init[i]) in init[..i] {
      assert init[i] == es[i] && init[..i] == es[..i];
    }
  }

  /** Emitting one more node whose parent is already emitted adds its clause, if it is not the root. */
  lemma JoinsStep(catalog: Catalog, root: ResourceType, types: map<Position, JoinType>, acc: Performed, ns: seq<Position>, p: Position)
    requires p in types && p !in acc.details
    requires p != [] ==> Parent(p) in acc.details
    requires ClausesMatch(catalog, types, acc.details, acc.joins, ns)
    ensures var r := Step(catalog, root, types, acc, p);
            ClausesMatch(catalog, types, r.details, r.joins, if |p| > 0 then ns + [p] else ns)
  {
    var r := Step(catalog, root, types, acc, p);
    StepFacts(catalog, root, types, acc, p);
    ClausesMatchGrow(catalog, types, acc.details, r.details, acc.joins, ns);
    if p != [] {
      ClausesMatchAppend(catalog, types, r.details, acc.joins, ns, p);
    }
  }

  /**
   * When every node is emitted after its parent, emission adds one join per
   * non-root node, in emission order: to the node's table under the node's
   * alias, along its relationship from the parent's alias.
   */
  lemma {:induction false} PerformJoins(catalog: Catalog, root: ResourceType, types: map<Position, JoinType>, es: seq<Position>)
    requires forall i :: 0 <= i < |es| ==> es[i] in types
    requires Distinct(es)
    requires ParentsFirst(es)
    ensures var r := Perform(catalog, root, types, es);
            ClausesMatch(catalog, types, r.details, r.joins, NonRoot(es))
    decreases |es|
  {
    if es != [] {
      var init := es[..|es| - 1];
      var p := es[|es| - 1];
      PerformLast(catalog, root, types, es);
      DistinctInit(es);
      ParentsFirstInit(es);
      PerformJoins(catalog, root, types, init);
      PerformDetails(catalog, root, types, init);
      JoinsStep(catalog, root, types, Perform(catalog, root, types, init), NonRoot(init), p);
    }
  }
}
