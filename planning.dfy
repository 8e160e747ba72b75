/**
 * What the join manager registers for a request: the root node, the source
 * relationship's nodes, and the nodes of every filter, sort and include path
 * (resolved relative to the source relationship when there is one). The
 * registry that results is characterised here without reference to the order
 * of registration.
 */
module Planning {
  import opened Wrappers
  import opened Schema
  import opened Paths
  import opened Registry

  datatype Direction = Ascending | Descending

  /** One sort criterion; only its field path matters to the planner. */
  datatype SortCriterion = SortCriterion(field: string, direction: Direction)

  function SortFields(criteria: seq<SortCriterion>): (fields: seq<string>)
    ensures |fields| == |criteria|
    ensures forall i :: 0 <= i < |criteria| ==> fields[i] == criteria[i].field
  {
    seq(|criteria|, i requires 0 <= i < |criteria| => criteria[i].field)
  }

  /** The paths the planner joins for, in the order it adds them: filter keys, sort fields, include paths. */
  function PathKeys(filters: seq<string>, sortCriteria: seq<SortCriterion>, relationships: seq<string>): seq<string>
  {
    filters + SortFields(sortCriteria) + relationships
  }

  /**
   * A path as resolved from the root resource type. With a source relationship
   * the path is relative to it, so its name is put in front: with a dot for a
   * plain relationship, directly for a polymorphic one (whose paths start with
   * their own `#type`).
   */
  function SourcedPath(source: Option<Relationship>, path: string): string
  {
    match source
    case None => path
    case Some(rel) => if rel.polymorphic then rel.name + path else rel.name + [PathSeparator] + path
  }

  function ResolveKey(catalog: Catalog, root: ResourceType, source: Option<Relationship>, key: string): Result<ResolvedPath, PathError>
  {
    Resolve(catalog, root, SourcedPath(source, key))
  }

  /** The values of `rs` when all are successes; otherwise the first failure. */
  function Collect<T(==), E(==)>(rs: seq<Result<T, E>>): (r: Result<seq<T>, E>)
    ensures r.Success? <==> forall i :: 0 <= i < |rs| ==> rs[i].Success?
    ensures r.Success? ==> |r.value| == |rs| && forall i :: 0 <= i < |rs| ==> r.value[i] == rs[i].value
    ensures r.Failure? ==>
              exists i :: 0 <= i < |rs| && rs[i] == Failure(r.error) && forall j :: 0 <= j < i ==> rs[j].Success?
    decreases |rs|
  {
    if rs == [] then Success([])
    else
      match rs[0]
      case Failure(e) => Failure(e)
      case Success(first) =>
        var rest := Collect(rs[1..]);
        assert forall i :: 1 <= i < |rs| ==> rs[1..][i - 1] == rs[i];
        if rest.Failure? then
          var i :| 0 <= i < |rs| - 1 && rs[1..][i] == Failure(rest.error) && forall j :: 0 <= j < i ==> rs[1..][j].Success?;
          assert rs[i + 1] == Failure(rest.error);
          Failure(rest.error)
        else
          Success([first] + rest.value)
  }

  /** The resolution of each key, in order. */
  function KeyResults(catalog: Catalog, root: ResourceType, source: Option<Relationship>, keys: seq<string>): (rs: seq<Result<ResolvedPath, PathError>>)
    ensures |rs| == |keys|
    ensures forall i :: 0 <= i < |keys| ==> rs[i] == ResolveKey(catalog, root, source, keys[i])
  {
    seq(|keys|, i requires 0 <= i < |keys| => ResolveKey(catalog, root, source, keys[i]))
  }

  /** Resolves every key; the first key that fails to resolve fails the whole plan. */
  function ResolveAll(catalog: Catalog, root: ResourceType, source: Option<Relationship>, keys: seq<string>): (r: Result<seq<ResolvedPath>, PathError>)
    ensures r.Success? <==> forall i :: 0 <= i < |keys| ==> ResolveKey(catalog, root, source, keys[i]).Success?
    ensures r.Success? ==>
              && |r.value| == |keys|
              && forall i :: 0 <= i < |keys| ==> r.value[i] == ResolveKey(catalog, root, source, keys[i]).value
    ensures r.Failure? ==>
              exists i :: && 0 <= i < |keys|
                          && ResolveKey(catalog, root, source, keys[i]) == Failure(r.error)
                          && forall j :: 0 <= j < i ==> ResolveKey(catalog, root, source, keys[j]).Success?
  {
    Collect(KeyResults(catalog, root, source, keys))
  }

  // ---------------------------------------------------------------------------
  // Registrations
  // ---------------------------------------------------------------------------

  /** Registration requests for `ps`, all with join type `t`. */
  function WithType(ps: seq<Position>, t: JoinType): (cs: seq<Registration>)
    ensures |cs| == |ps|
    ensures forall i :: 0 <= i < |ps| ==> cs[i] == Registration(ps[i], t)
  {
    seq(|ps|, i requires 0 <= i < |ps| => Registration(ps[i], t))
  }

  /** The nodes of the source relationship: one per target it can reach. */
  function SourcePositions(source: Option<Relationship>): (ps: seq<Position>)
  {
    match source
    case None => []
    case Some(rel) => seq(|rel.targets|, i requires 0 <= i < |rel.targets| => [Segment(rel, rel.targets[i])])
  }

  /** The source relationship is joined `inner`, unless it is polymorphic. */
  function SourceJoinType(rel: Relationship): JoinType
  {
    if rel.polymorphic then Left else Inner
  }

  function SourceRegistrations(source: Option<Relationship>): seq<Registration>
  {
    match source
    case None => []
    case Some(rel) => WithType(SourcePositions(source), SourceJoinType(rel))
  }

  /** Every node of every path, registered as a `left` join, path after path. */
  function PathRegistrations(paths: seq<ResolvedPath>): seq<Registration>
    decreases |paths|
  {
    if paths == [] then []
    else PathRegistrations(paths[..|paths| - 1]) + WithType(Expand(paths[|paths| - 1].hops), Left)
  }

  /** Everything registered for a request, in order: the root, the source, the paths. */
  function Contributions(source: Option<Relationship>, paths: seq<ResolvedPath>): seq<Registration>
  {
    [Registration([], Root)] + SourceRegistrations(source) + PathRegistrations(paths)
  }

  /** The registry of a request whose keys all resolve. */
  function Plan(catalog: Catalog, root: ResourceType, source: Option<Relationship>, keys: seq<string>): Registry
    requires ResolveAll(catalog, root, source, keys).Success?
  {
    RegisterAll(Contributions(source, ResolveAll(catalog, root, source, keys).value))
  }

  // ---------------------------------------------------------------------------
  // The registry, characterised
  // ---------------------------------------------------------------------------

  /** Node `p` is one of the source relationship's nodes. */
  predicate IsSourcePosition(source: Option<Relationship>, p: Position)
  {
    source.Some? && |p| == 1 && p[0].relationship == source.value && p[0].target in source.value.targets
  }

  /**
   * The join type the planner gives a node: `root` for the root, `inner` for
   * the nodes of a plain source relationship, `left` for everything else.
   */
  function PlannedType(source: Option<Relationship>, p: Position): JoinType
  {
    if p == [] then Root
    else if IsSourcePosition(source, p) && !source.value.polymorphic then Inner
    else Left
  }

  /** The nodes the planner registers: the root, the source's nodes and every node some path reaches. */
  predicate Planned(source: Option<Relationship>, paths: seq<ResolvedPath>, p: Position)
  {
    p == [] || IsSourcePosition(source, p) || exists i :: 0 <= i < |paths| && Instantiates(p, paths[i].hops)
  }

  /** The registrations of two runs of paths are those of the first run, then those of the second. */
  lemma {:induction false} PathRegistrationsAppend(a: seq<ResolvedPath>, b: seq<ResolvedPath>)
    ensures PathRegistrations(a + b) == PathRegistrations(a) + PathRegistrations(b)
    decreases |b|
  {
    if b == [] {
      assert a + b == a;
    } else {
      PathRegistrationsAppend(a, b[..|b| - 1]);
      PathRegistrationsAppendStep(a, b);
    }
  }

  lemma PathRegistrationsAppendStep(a: seq<ResolvedPath>, b: seq<ResolvedPath>)
    requires b != []
    requires PathRegistrations(a + b[..|b| - 1]) == PathRegistrations(a) + PathRegistrations(b[..|b| - 1])
    ensures PathRegistrations(a + b) == PathRegistrations(a) + PathRegistrations(b)
  {
    SnocOfConcat(a, b);
    ConcatAssoc(PathRegistrations(a), PathRegistrations(b[..|b| - 1]), WithType(Expand(b[|b| - 1].hops), Left));
  }

  /** The last element of `a + b` is that of `b`, and what precedes it is `a` and the rest of `b`. */
  lemma SnocOfConcat<T>(a: seq<T>, b: seq<T>)
    requires b != []
    ensures (a + b)[..|a + b| - 1] == a + b[..|b| - 1] && (a + b)[|a + b| - 1] == b[|b| - 1]
  {
  }

  lemma ConcatAssoc<T>(x: seq<T>, y: seq<T>, z: seq<T>)
    ensures x + y + z == x + (y + z)
  {
  }

  lemma MentionsAppend(a: seq<Registration>, b: seq<Registration>, p: Position)
    ensures Mentions(a + b, p) <==> Mentions(a, p) || Mentions(b, p)
  {
    if Mentions(a + b, p) {
      var i :| 0 <= i < |a + b| && (a + b)[i].position == p;
      if i >= |a| { assert b[i - |a|].position == p; }
    }
    if Mentions(b, p) {
      var i :| 0 <= i < |b| && b[i].position == p;
      assert (a + b)[|a| + i].position == p;
    }
    if Mentions(a, p) {
      var i :| 0 <= i < |a| && a[i].position == p;
      assert (a + b)[i].position == p;
    }
  }

  lemma MentionsWithType(ps: seq<Position>, t: JoinType, p: Position)
    ensures Mentions(WithType(ps, t), p) <==> p in ps
  {
    if p in ps {
      var i :| 0 <= i < |ps| && ps[i] == p;
      assert WithType(ps, t)[i].position == p;
    }
  }

  lemma {:induction false} TypesAtUniform(cs: seq<Registration>, t: JoinType, p: Position)
    requires forall i :: 0 <= i < |cs| ==> cs[i].joinType == t
    ensures AllAre(TypesAt(cs, p), t)
    decreases |cs|
  {
    if cs != [] {
      TypesAtUniform(cs[..|cs| - 1], t, p);
    }
  }

  lemma {:induction false} PathRegistrationsFacts(paths: seq<ResolvedPath>, p: Position)
    ensures forall i :: 0 <= i < |PathRegistrations(paths)| ==> PathRegistrations(paths)[i].joinType == Left
    ensures Mentions(PathRegistrations(paths), p) <==> exists i :: 0 <= i < |paths| && Instantiates(p, paths[i].hops)
    decreases |paths|
  {
    if paths != [] {
      var init := paths[..|paths| - 1];
      var last := paths[|paths| - 1];
      PathRegistrationsFacts(init, p);
      MentionsAppend(PathRegistrations(init), WithType(Expand(last.hops), Left), p);
      MentionsWithType(Expand(last.hops), Left, p);
      ExpandMembers(last.hops, p);
      assert forall i :: 0 <= i < |init| ==> init[i] == paths[i];
      if exists i :: 0 <= i < |paths| && Instantiates(p, paths[i].hops) {
        var i :| 0 <= i < |paths| && Instantiates(p, paths[i].hops);
        if i < |init| { assert Instantiates(p, init[i].hops); }
      }
      var a: seq<Registration> := PathRegistrations(init);
      var b: seq<Registration> := WithType(Expand(last.hops), Left);
      forall i | 0 <= i < |a + b| ensures (a + b)[i].joinType == Left {
        if i >= |a| { assert (a + b)[i] == b[i - |a|]; }
      }
    }
  }

  lemma SourceRegistrationsFacts(source: Option<Relationship>, p: Position)
    ensures Mentions(SourceRegistrations(source), p) <==> IsSourcePosition(source, p)
    ensures source.Some? ==> AllAre(TypesAt(SourceRegistrations(source), p), SourceJoinType(source.value))
  {
    if source.Some? {
      var rel := source.value;
      var ps := SourcePositions(source);
      MentionsWithType(ps, SourceJoinType(rel), p);
      TypesAtUniform(SourceRegistrations(source), SourceJoinType(rel), p);
      if IsSourcePosition(source, p) {
        var i :| 0 <= i < |rel.targets| && rel.targets[i] == p[0].target;
        assert ps[i] == p;
      }
    }
  }

  /** The registered nodes are exactly the planned ones. */
  lemma PlanPositions(source: Option<Relationship>, paths: seq<ResolvedPath>)
    ensures forall p :: p in RegisterAll(Contributions(source, paths)).types <==> Planned(source, paths, p)
  {
    var cs := Contributions(source, paths);
    RegisterAllFacts(cs);
    forall p ensures Mentions(cs, p) <==> Planned(source, paths, p) {
      MentionsAppend([Registration([], Root)] + SourceRegistrations(source), PathRegistrations(paths), p);
      MentionsAppend([Registration([], Root)], SourceRegistrations(source), p);
      SourceRegistrationsFacts(source, p);
      PathRegistrationsFacts(paths, p);
      assert Mentions([Registration([], Root)], p) <==> p == [] by {
        assert [Registration([], Root)][0].position == [];
      }
    }
  }

  /** The registered nodes form a tree: the parent of every registered node is registered. */
  lemma PlanPrefixClosed(source: Option<Relationship>, paths: seq<ResolvedPath>)
    ensures PrefixClosed(RegisterAll(Contributions(source, paths)).order)
  {
    var r := RegisterAll(Contributions(source, paths));
    RegisterAllFacts(Contributions(source, paths));
    PlanPositions(source, paths);
    forall i | 0 <= i < |r.order| && |r.order[i]| > 0 ensures Parent(r.order[i]) in r.order {
      var p := r.order[i];
      assert Planned(source, paths, p);
      if |p| == 1 {
        assert Planned(source, paths, Parent(p));
      } else {
        var k :| 0 <= k < |paths| && Instantiates(p, paths[k].hops);
        assert Instantiates(Parent(p), paths[k].hops);
        assert Planned(source, paths, Parent(p));
      }
    }
  }

  lemma AllAreAppend(a: seq<JoinType>, b: seq<JoinType>, t: JoinType)
    requires AllAre(a, t) && AllAre(b, t)
    ensures AllAre(a + b, t)
  {
    forall i | 0 <= i < |a + b| ensures (a + b)[i] == t {
      if i >= |a| { assert (a + b)[i] == b[i - |a|]; }
    }
  }

  /**
   * Every registered node has its planned join type: the root `root`, a plain
   * source relationship `inner` (even when paths go through it as `left`), all
   * other nodes `left`.
   */
  lemma PlanTypes(source: Option<Relationship>, paths: seq<ResolvedPath>)
    ensures forall p :: p in RegisterAll(Contributions(source, paths)).types ==>
              RegisterAll(Contributions(source, paths)).types[p] == PlannedType(source, p)
  {
    var cs := Contributions(source, paths);
    RegisterAllFacts(cs);
    forall p | p in RegisterAll(cs).types ensures Agreed(TypesAt(cs, p)) == PlannedType(source, p) {
      PlanTypeAt(source, paths, p);
    }
  }

  lemma PlanTypeAt(source: Option<Relationship>, paths: seq<ResolvedPath>, p: Position)
    requires |TypesAt(Contributions(source, paths), p)| > 0
    ensures Agreed(TypesAt(Contributions(source, paths), p)) == PlannedType(source, p)
  {
    var r := TypesAt([Registration([], Root)], p);
    var s := TypesAt(SourceRegistrations(source), p);
    var l := TypesAt(PathRegistrations(paths), p);
    TypesAtParts(source, paths, p);
    RootTypesAt(p);
    SourceTypesAt(source, p);
    PathTypesAt(paths, p);
    AgreedOfParts(source, p, r, s, l);
  }

  /** The merged join type of a node from the types the root, the source and the paths register it with. */
  lemma AgreedOfParts(source: Option<Relationship>, p: Position, r: seq<JoinType>, s: seq<JoinType>, l: seq<JoinType>)
    requires r == if p == [] then [Root] else []
    requires |s| > 0 <==> IsSourcePosition(source, p)
    requires source.Some? ==> AllAre(s, SourceJoinType(source.value))
    requires AllAre(l, Left) && (p == [] ==> l == [])
    requires |r + s + l| > 0
    ensures Agreed(r + s + l) == PlannedType(source, p)
  {
    if p == [] {
      assert s == [];
      assert r + s + l == [Root];
    } else {
      assert r + s + l == s + l;
      if IsSourcePosition(source, p) && !source.value.polymorphic {
        AgreedInnerFirst(s, l);
      } else {
        if s != [] {
          assert source.value.polymorphic;
        }
        AllAreAppend(s, l, Left);
        AgreedAllLeft(s + l);
      }
    }
  }

  lemma AgreedInnerFirst(s: seq<JoinType>, l: seq<JoinType>)
    requires |s| > 0 && AllAre(s, Inner)
    ensures Agreed(s + l) == Inner
  {
    assert (s + l)[0] == Inner;
  }

  lemma AgreedAllLeft(ts: seq<JoinType>)
    requires |ts| > 0 && AllAre(ts, Left)
    ensures Agreed(ts) == Left
  {
  }

  lemma TypesAtParts(source: Option<Relationship>, paths: seq<ResolvedPath>, p: Position)
    ensures TypesAt(Contributions(source, paths), p) ==
            TypesAt([Registration([], Root)], p) + TypesAt(SourceRegistrations(source), p) + TypesAt(PathRegistrations(paths), p)
  {
    var rootRegs := [Registration([], Root)];
    TypesAtAppend(rootRegs + SourceRegistrations(source), PathRegistrations(paths), p);
    TypesAtAppend(rootRegs, SourceRegistrations(source), p);
  }

  lemma RootTypesAt(p: Position)
    ensures TypesAt([Registration([], Root)], p) == if p == [] then [Root] else []
  {
    assert [Registration([], Root)][..0] == [];
  }

  lemma SourceTypesAt(source: Option<Relationship>, p: Position)
    ensures |TypesAt(SourceRegistrations(source), p)| > 0 <==> IsSourcePosition(source, p)
    ensures source.Some? ==> AllAre(TypesAt(SourceRegistrations(source), p), SourceJoinType(source.value))
  {
    SourceRegistrationsFacts(source, p);
  }

  lemma PathTypesAt(paths: seq<ResolvedPath>, p: Position)
    ensures AllAre(TypesAt(PathRegistrations(paths), p), Left)
    ensures p == [] ==> TypesAt(PathRegistrations(paths), p) == []
  {
    PathRegistrationsFacts(paths, p);
    TypesAtUniform(PathRegistrations(paths), Left, p);
  }

  /** Two lists of resolved paths with the same members give registries with the same nodes and join types. */
  lemma SamePathsSameTypes(source: Option<Relationship>, paths1: seq<ResolvedPath>, paths2: seq<ResolvedPath>)
    requires forall q :: q in paths1 <==> q in paths2
    ensures RegisterAll(Contributions(source, paths1)).types == RegisterAll(Contributions(source, paths2)).types
  {
    PlanPositions(source, paths1);
    PlanPositions(source, paths2);
    PlanTypes(source, paths1);
    PlanTypes(source, paths2);
    forall p ensures Planned(source, paths1, p) <==> Planned(source, paths2, p) {
      if i :| 0 <= i < |paths1| && Instantiates(p, paths1[i].hops) {
        assert paths1[i] in paths2;
      }
      if i :| 0 <= i < |paths2| && Instantiates(p, paths2[i].hops) {
        assert paths2[i] in paths1;
      }
    }
    var t1 := RegisterAll(Contributions(source, paths1)).types;
    var t2 := RegisterAll(Contributions(source, paths2)).types;
    assert t1.Keys == t2.Keys;
  }

  /**
   * The registry does not depend on the order of the keys, nor on how often a
   * key is repeated: two requests with the same set of keys register the same
   * nodes with the same join types.
   */
  lemma OrderIndependent(catalog: Catalog, root: ResourceType, source: Option<Relationship>, keys1: seq<string>, keys2: seq<string>)
    requires forall k :: k in keys1 <==> k in keys2
    requires ResolveAll(catalog, root, source, keys1).Success?
    ensures ResolveAll(catalog, root, source, keys2).Success?
    ensures Plan(catalog, root, source, keys1).types == Plan(catalog, root, source, keys2).types
  {
    var rs1 := KeyResults(catalog, root, source, keys1);
    var rs2 := KeyResults(catalog, root, source, keys2);
    KeyResultsSameMembers(catalog, root, source, keys1, keys2);
    CollectSameMembers(rs1, rs2);
    SamePathsSameTypes(source, Collect(rs1).value, Collect(rs2).value);
  }

  lemma KeyResultsSameMembers(catalog: Catalog, root: ResourceType, source: Option<Relationship>, keys1: seq<string>, keys2: seq<string>)
    requires forall k :: k in keys1 <==> k in keys2
    ensures forall r :: r in KeyResults(catalog, root, source, keys1) <==> r in KeyResults(catalog, root, source, keys2)
  {
    var rs1 := KeyResults(catalog, root, source, keys1);
    var rs2 := KeyResults(catalog, root, source, keys2);
    forall i | 0 <= i < |rs1| ensures rs1[i] in rs2 {
      assert keys1[i] in keys2;
      var j :| 0 <= j < |keys2| && keys2[j] == keys1[i];
      assert rs2[j] == rs1[i];
    }
    forall i | 0 <= i < |rs2| ensures rs2[i] in rs1 {
      assert keys2[i] in keys1;
      var j :| 0 <= j < |keys1| && keys1[j] == keys2[i];
      assert rs1[j] == rs2[i];
    }
  }

  /** Collecting two lists of results with the same members succeeds for both or neither, with the same members. */
  lemma CollectSameMembers<T, E>(rs1: seq<Result<T, E>>, rs2: seq<Result<T, E>>)
    requires forall r :: r in rs1 <==> r in rs2
    requires Collect(rs1).Success?
    ensures Collect(rs2).Success?
    ensures forall q :: q in Collect(rs1).value <==> q in Collect(rs2).value
  {
    forall i | 0 <= i < |rs2| ensures rs2[i].Success? {
      assert rs2[i] in rs1;
    }
    var v1 := Collect(rs1).value;
    var v2 := Collect(rs2).value;
    forall q ensures q in v1 <==> q in v2 {
      if q in v1 {
        var i :| 0 <= i < |v1| && v1[i] == q;
        assert rs1[i] in rs2;
        var j :| 0 <= j < |rs2| && rs2[j] == rs1[i];
        assert v2[j] == q;
      }
      if q in v2 {
        var i :| 0 <= i < |v2| && v2[i] == q;
        assert rs2[i] in rs1;
        var j :| 0 <= j < |rs1| && rs1[j] == rs2[i];
        assert v1[j] == q;
      }
    }
  }
}
