/**
 * The join manager: built once from a resource type, its filters, sort
 * criteria, include paths and an optional source relationship; it registers
 * the relationship tree those need, adds the joins to a query once, and then
 * answers lookups of the join details by relationship.
 */
module JoinManagers {
  import opened Wrappers
  import opened Schema
  import opened Paths
  import opened Registry
  import opened Planning
  import opened Emission

  datatype JoinError = AlreadyJoined

  /** Node `p` is reached last along segment `s`. */
  predicate EndsIn(p: Position, s: Segment)
  {
    |p| > 0 && p[|p| - 1] == s
  }

  /** The index of the first node of `es` reached along `s`, if any. */
  function FirstEnding(es: seq<Position>, s: Segment): (r: Option<nat>)
    ensures r.Some? ==> r.value < |es| && EndsIn(es[r.value], s) && forall j :: 0 <= j < r.value ==> !EndsIn(es[j], s)
    ensures r.None? ==> forall j :: 0 <= j < |es| ==> !EndsIn(es[j], s)
    decreases |es|
  {
    if es == [] then None
    else if EndsIn(es[0], s) then Some(0)
    else
      var rest := FirstEnding(es[1..], s);
      assert forall j :: 1 <= j < |es| ==> es[1..][j - 1] == es[j];
      match rest
      case None => None
      case Some(i) => Some(i + 1)
  }

  class JoinManager {
    const catalog: Catalog
    const resourceType: ResourceType
    const sourceRelationship: Option<Relationship>
    const filters: seq<string>
    const sortCriteria: seq<SortCriterion>
    const relationships: seq<string>
    /** The resolved filter, sort and include paths, in that order. */
    const paths: seq<ResolvedPath>

    /** The registered tree nodes in registration order, and their join types. */
    var order: seq<Position>
    var joinTypes: map<Position, JoinType>

    /** Whether the joins were added to a query; then the emission order and the details per node. */
    var joined: bool
    var emitted: seq<Position>
    var details: map<Position, JoinDetails>

    function Keys(): seq<string>
    {
      PathKeys(filters, sortCriteria, relationships)
    }

    /** The paths are the resolution of the filter, sort and include keys. */
    ghost predicate Resolved()
    {
      ResolveAll(catalog, resourceType, sourceRelationship, Keys()) == Success(paths)
    }

    /** The registry holds the plan of the paths. */
    ghost predicate Registered()
      reads this`order, this`joinTypes
    {
      Registry(order, joinTypes) == RegisterAll(Contributions(sourceRelationship, paths))
    }

    ghost predicate Valid()
      reads this
    {
      && Registered()
      && JoinedAs(catalog, resourceType, order, joinTypes, joined, emitted, details)
    }

    /** Builds the registry: the root, the source relationship's nodes, then every node of every path. */
    constructor (catalog: Catalog, resourceType: ResourceType, sourceRelationship: Option<Relationship>,
                 filters: seq<string>, sortCriteria: seq<SortCriterion>, relationships: seq<string>)
      requires ResolveAll(catalog, resourceType, sourceRelationship, PathKeys(filters, sortCriteria, relationships)).Success?
      ensures Resolved() && Valid() && !joined
      ensures this.catalog == catalog && this.resourceType == resourceType && this.sourceRelationship == sourceRelationship
      ensures this.filters == filters && this.sortCriteria == sortCriteria && this.relationships == relationships
    {
      this.catalog := catalog;
      this.resourceType := resourceType;
      this.sourceRelationship := sourceRelationship;
      this.filters := filters;
      this.sortCriteria := sortCriteria;
      this.relationships := relationships;
      var paths := ResolveAll(catalog, resourceType, sourceRelationship, PathKeys(filters, sortCriteria, relationships)).value;
      this.paths := paths;
      order := [];
      joinTypes := map[];
      joined := false;
      emitted := [];
      details := map[];
      new;
      ghost var joined0, emitted0, details0 := joined, emitted, details;
      RegisterContributions();
      assert joined == joined0 && emitted == emitted0 && details == details0;
    }

    /** Registers the root, the source relationship's nodes and then the nodes of every path. */
    method RegisterContributions()
      requires order == [] && joinTypes == map[]
      modifies this`order, this`joinTypes
      ensures Registry(order, joinTypes) == RegisterAll(Contributions(sourceRelationship, paths))
    {
      var rootRegs := [Registration([], Root)];
      RegisterAllAppend([], rootRegs[0]);
      RegisterHop(rootRegs[0]);
      RegisterEach(rootRegs, SourceRegistrations(sourceRelationship));
      RegisterPaths(rootRegs + SourceRegistrations(sourceRelationship), paths);
      assert Contributions(sourceRelationship, paths) == rootRegs + SourceRegistrations(sourceRelationship) + PathRegistrations(paths);
    }

    /** Registers the nodes of every path, path by path. */
    method RegisterPaths(ghost base: seq<Registration>, paths: seq<ResolvedPath>)
      requires Registry(order, joinTypes) == RegisterAll(base)
      modifies this`order, this`joinTypes
      ensures Registry(order, joinTypes) == RegisterAll(base + PathRegistrations(paths))
    {
      assert paths[..0] == [] && base + [] == base;
      for k := 0 to |paths|
        invariant Registry(order, joinTypes) == RegisterAll(base + PathRegistrations(paths[..k]))
      {
        var cs := WithType(Expand(paths[k].hops), Left);
        RegisterEach(base + PathRegistrations(paths[..k]), cs);
        PathRegistrationsSnoc(paths, k);
        ConcatAssoc(base, PathRegistrations(paths[..k]), cs);
      }
      assert paths[..|paths|] == paths;
    }

    /** Registers the nodes of `cs` in order, one at a time. */
    method RegisterEach(ghost before: seq<Registration>, cs: seq<Registration>)
      requires Registry(order, joinTypes) == RegisterAll(before)
      modifies this`order, this`joinTypes
      ensures Registry(order, joinTypes) == RegisterAll(before + cs)
    {
      assert before + cs[..0] == before;
      for i := 0 to |cs|
        invariant Registry(order, joinTypes) == RegisterAll(before + cs[..i])
      {
        RegisterAllAppend(before + cs[..i], cs[i]);
        assert before + cs[..i + 1] == before + cs[..i] + [cs[i]];
        RegisterHop(cs[i]);
      }
      assert cs[..|cs|] == cs;
    }

    /** Registers one node: a new node is appended to the order, a known one has its join type merged. */
    method RegisterHop(c: Registration)
      modifies this`order, this`joinTypes
      ensures Registry(order, joinTypes) == Register(old(Registry(order, joinTypes)), c)
    {
      if c.position in joinTypes {
        joinTypes := joinTypes[c.position := Merge(joinTypes[c.position], c.joinType)];
      } else {
        order := order + [c.position];
        joinTypes := joinTypes[c.position := c.joinType];
      }
    }

    /**
     * Adds the joins to `records`, once: every registered node except the root
     * becomes one join clause, in emission order, after the joins the query
     * already had. A second call fails and changes nothing.
     */
    method Join(records: Query) returns (r: Result<Query, JoinError>)
      requires Valid()
      modifies this`joined, this`emitted, this`details
      ensures Valid()
      ensures old(joined) ==> r == Failure(AlreadyJoined) && joined && emitted == old(emitted) && details == old(details)
      ensures !old(joined) ==>
                && joined
                && r == Success(Query(records.table, records.joins + Perform(catalog, resourceType, joinTypes, emitted).joins))
    {
      if joined {
        return Failure(AlreadyJoined);
      }
      var es, ds, q := EmitPlanned(catalog, resourceType, sourceRelationship, paths, order, joinTypes, records);
      emitted := es;
      details := ds;
      joined := true;
      r := Success(q);
    }

    /** The details recorded for node `p`, if any. */
    function Lookup(p: Position): (r: Option<JoinDetails>)
      reads this
      ensures r.Some? <==> p in details
      ensures r.Some? ==> r.value == details[p]
    {
      if p in details then Some(details[p]) else None
    }

    /**
     * The details of the source relationship's join (for a polymorphic source,
     * the one reaching `t`); without a source relationship, the root's details.
     */
    function SourceJoinDetails(t: Option<ResourceType>): (r: Option<JoinDetails>)
      reads this
      ensures sourceRelationship.None? ==> r == Lookup([])
      ensures sourceRelationship.Some? && sourceRelationship.value.polymorphic ==>
                r == if t.Some? then Lookup([Segment(sourceRelationship.value, t.value)]) else None
    {
      match sourceRelationship
      case None => Lookup([])
      case Some(src) =>
        var target := if src.polymorphic then t else DefaultTarget(src);
        match target
        case None => None
        case Some(tt) => Lookup([Segment(src, tt)])
    }

    /** The details of the first emitted join along `rel` reaching `t`. */
    function JoinDetailsByPolymorphicRelationship(rel: Relationship, t: ResourceType): (r: Option<JoinDetails>)
      reads this
      ensures r.Some? ==> exists i :: 0 <= i < |emitted| && EndsIn(emitted[i], Segment(rel, t)) && r == Lookup(emitted[i])
    {
      match FirstEnding(emitted, Segment(rel, t))
      case None => None
      case Some(i) => Lookup(emitted[i])
    }

    /** The details of the first emitted join along the non-polymorphic relationship `rel`. */
    function JoinDetailsByRelationship(rel: Relationship): (r: Option<JoinDetails>)
      reads this
      ensures r.Some? ==> exists t :: DefaultTarget(rel) == Some(t) && r == JoinDetailsByPolymorphicRelationship(rel, t)
    {
      match DefaultTarget(rel)
      case None => None
      case Some(t) => JoinDetailsByPolymorphicRelationship(rel, t)
    }
  }

  /** Emits the nodes `es` in order, one step at a time. */
  method EmitAll(catalog: Catalog, root: ResourceType, types: map<Position, JoinType>, es: seq<Position>)
    returns (acc: Performed)
    requires forall i :: 0 <= i < |es| ==> es[i] in types
    ensures acc == Perform(catalog, root, types, es)
  {
    acc := Performed({RootTable(catalog, root)}, map[], []);
    for i := 0 to |es|
      invariant acc == Perform(catalog, root, types, es[..i])
    {
      assert es[..i + 1][..i] == es[..i];
      PerformLast(catalog, root, types, es[..i + 1]);
      acc := Step(catalog, root, types, acc, es[i]);
    }
    assert es[..|es|] == es;
  }

  /**
   * The emission state of a join manager: once joined, the nodes in emission
   * order and the details emitting them records; before, nothing.
   */
  ghost predicate JoinedAs(catalog: Catalog, root: ResourceType, order: seq<Position>, types: map<Position, JoinType>,
                           joined: bool, emitted: seq<Position>, details: map<Position, JoinDetails>)
  {
    && (joined ==>
          && emitted == EmissionOrder(order)
          && (forall i :: 0 <= i < |emitted| ==> emitted[i] in types)
          && details == Perform(catalog, root, types, emitted).details)
    && (!joined ==> emitted == [] && details == map[])
  }

  /**
   * Emits a registry's nodes in emission order and appends their join clauses
   * to the joins `records` already has.
   */
  method EmitPlanned(catalog: Catalog, root: ResourceType, source: Option<Relationship>, paths: seq<ResolvedPath>,
                     order: seq<Position>, types: map<Position, JoinType>, records: Query)
    returns (es: seq<Position>, details: map<Position, JoinDetails>, q: Query)
    requires Registry(order, types) == RegisterAll(Contributions(source, paths))
    ensures JoinedAs(catalog, root, order, types, true, es, details)
    ensures q == Query(records.table, records.joins + Perform(catalog, root, types, es).joins)
  {
    es := EmissionOrder(order);
    EmittedFacts(catalog, root, source, paths, order, types);
    var acc := EmitAll(catalog, root, types, es);
    details := acc.details;
    q := Query(records.table, records.joins + acc.joins);
  }

  lemma PathRegistrationsSnoc(paths: seq<ResolvedPath>, k: nat)
    requires k < |paths|
    ensures PathRegistrations(paths[..k + 1]) == PathRegistrations(paths[..k]) + WithType(Expand(paths[k].hops), Left)
  {
    assert paths[..k + 1][..k] == paths[..k];
  }

  /**
   * The emission order of a plan covers only registered nodes, lists each once
   * and puts parents first, so emitting it adds exactly the clauses `ClausesMatch`
   * describes.
   */
  lemma EmittedFacts(catalog: Catalog, root: ResourceType, source: Option<Relationship>, paths: seq<ResolvedPath>,
                     order: seq<Position>, types: map<Position, JoinType>)
    requires Registry(order, types) == RegisterAll(Contributions(source, paths))
    ensures forall i :: 0 <= i < |EmissionOrder(order)| ==> EmissionOrder(order)[i] in types
    ensures var r := Perform(catalog, root, types, EmissionOrder(order));
            ClausesMatch(catalog, types, r.details, r.joins, NonRoot(EmissionOrder(order)))
  {
    var reg := RegisterAll(Contributions(source, paths));
    RegisterAllFacts(Contributions(source, paths));
    EmissionFacts(reg.order);
    var es := EmissionOrder(reg.order);
    assert forall i :: 0 <= i < |es| ==> es[i] in es;
    PlanPrefixClosed(source, paths);
    EmissionParentsFirst(reg.order);
    PerformJoins(catalog, root, reg.types, es);
  }

  /**
   * The joins a joined manager emitted are one clause per non-root node in
   * emission order, each matching the details recorded for that node.
   */
  lemma JoinedClauses(jm: JoinManager)
    requires jm.Valid() && jm.joined
    ensures var r := Perform(jm.catalog, jm.resourceType, jm.joinTypes, jm.emitted);
            && r.details == jm.details
            && ClausesMatch(jm.catalog, jm.joinTypes, jm.details, r.joins, NonRoot(jm.emitted))
  {
    EmittedFacts(jm.catalog, jm.resourceType, jm.sourceRelationship, jm.paths, jm.order, jm.joinTypes);
  }

  /**
   * The manager registers exactly the planned nodes, each once, each with its
   * planned join type.
   */
  lemma RegisteredNodes(jm: JoinManager)
    requires jm.Resolved() && jm.Valid()
    ensures Distinct(jm.order)
    ensures forall p :: p in jm.order <==> p in jm.joinTypes
    ensures forall p :: p in jm.joinTypes <==> Planned(jm.sourceRelationship, jm.paths, p)
    ensures forall p :: p in jm.joinTypes ==> jm.joinTypes[p] == PlannedType(jm.sourceRelationship, p)
  {
    RegisterAllFacts(Contributions(jm.sourceRelationship, jm.paths));
    PlanPositions(jm.sourceRelationship, jm.paths);
    PlanTypes(jm.sourceRelationship, jm.paths);
  }

  /**
   * After the join, every registered node has details: its planned join type,
   * its relationship and the type it reaches, and an alias no other node has;
   * only the root is aliased by the root table's name.
   */
  lemma JoinedDetails(jm: JoinManager)
    requires jm.Resolved() && jm.Valid() && jm.joined
    ensures forall p :: p in jm.details <==> p in jm.joinTypes
    ensures forall p :: p in jm.emitted <==> p in jm.joinTypes
    ensures forall p :: p in jm.details ==> DetailsOf(jm.catalog, jm.resourceType, jm.joinTypes, p, jm.details[p])
    ensures forall p :: p in jm.details ==> jm.details[p].joinType == PlannedType(jm.sourceRelationship, p)
    ensures forall p :: p in jm.details ==> (jm.details[p].alias == RootTable(jm.catalog, jm.resourceType) <==> p == [])
    ensures forall p, q :: p in jm.details && q in jm.details && p != q ==> jm.details[p].alias != jm.details[q].alias
  {
    RegisteredNodes(jm);
    EmissionFacts(jm.order);
    PerformDetails(jm.catalog, jm.resourceType, jm.joinTypes, jm.emitted);
    PerformAliases(jm.catalog, jm.resourceType, jm.joinTypes, jm.emitted);
  }

  /** After the join, the root's details: the root table's name, the `root` join type, the resource type itself. */
  lemma RootDetails(jm: JoinManager)
    requires jm.Resolved() && jm.Valid() && jm.joined
    ensures jm.Lookup([]) == Some(JoinDetails(RootTable(jm.catalog, jm.resourceType), Root,
                                              JoinOptions(RootRelationship, RelationshipDetails(Root), jm.resourceType)))
  {
    JoinedDetails(jm);
    RegisteredNodes(jm);
    assert Planned(jm.sourceRelationship, jm.paths, []);
  }

  /**
   * A lookup by relationship and type finds details exactly when some
   * registered node is reached along that relationship to that type, and
   * then those of the shallowest such node.
   */
  lemma LookupByRelationship(jm: JoinManager, rel: Relationship, t: ResourceType)
    requires jm.Resolved() && jm.Valid() && jm.joined
    ensures jm.JoinDetailsByPolymorphicRelationship(rel, t).Some? <==>
              exists p :: p in jm.details && EndsIn(p, Segment(rel, t))
    ensures var r := jm.JoinDetailsByPolymorphicRelationship(rel, t);
            r.Some? ==> exists p :: && p in jm.details && EndsIn(p, Segment(rel, t)) && r.value == jm.details[p]
                                  && forall q :: q in jm.details && EndsIn(q, Segment(rel, t)) ==> |p| <= |q|
    ensures var r := jm.JoinDetailsByPolymorphicRelationship(rel, t);
            r.Some? ==> r.value.joinOptions == JoinOptions(Related(rel), RelationshipDetails(r.value.joinType), t)
  {
    JoinedDetails(jm);
    EmissionFacts(jm.order);
    var s := Segment(rel, t);
    FirstEndingShallowest(jm.emitted, s);
    var r := jm.JoinDetailsByPolymorphicRelationship(rel, t);
    if r.Some? {
      var p := jm.emitted[FirstEnding(jm.emitted, s).value];
      assert p in jm.emitted;
      assert DetailsOf(jm.catalog, jm.resourceType, jm.joinTypes, p, jm.details[p]);
    }
  }

  /** In a depth-sorted order the first node reached along `s` is a shallowest one. */
  lemma FirstEndingShallowest(es: seq<Position>, s: Segment)
    requires DepthSorted(es)
    ensures FirstEnding(es, s).Some? <==> exists p :: p in es && EndsIn(p, s)
    ensures FirstEnding(es, s).Some? ==> forall q :: q in es && EndsIn(q, s) ==> |es[FirstEnding(es, s).value]| <= |q|
  {
    match FirstEnding(es, s)
    case None =>
      forall p | p in es ensures !EndsIn(p, s) {
        var j :| 0 <= j < |es| && es[j] == p;
      }
    case Some(i) =>
      assert es[i] in es;
      forall q | q in es && EndsIn(q, s) ensures |es[i]| <= |q| {
        var j :| 0 <= j < |es| && es[j] == q;
        assert i <= j;
      }
  }

  /** The details of the node a plain source relationship reaches: an `inner` join, found by relationship too. */
  lemma PlainSourceDetails(jm: JoinManager, t: ResourceType)
    requires jm.Resolved() && jm.Valid() && jm.joined
    requires jm.sourceRelationship.Some? && DefaultTarget(jm.sourceRelationship.value) == Some(t)
    ensures var src := jm.sourceRelationship.value;
            var r := jm.SourceJoinDetails(None);
            && r.Some? && r.value.joinType == Inner
            && r.value.joinOptions == JoinOptions(Related(src), RelationshipDetails(Inner), t)
            && r == jm.JoinDetailsByRelationship(src)
  {
    var src := jm.sourceRelationship.value;
    var p := [Segment(src, t)];
    assert IsSourcePosition(jm.sourceRelationship, p);
    RegisteredNodes(jm);
    JoinedDetails(jm);
    assert p in jm.details;
    ShallowestSource(jm, src, t);
  }

  /** The details of the node a polymorphic source relationship reaches at `t`: a `left` join, found by relationship too. */
  lemma PolymorphicSourceDetails(jm: JoinManager, t: ResourceType)
    requires jm.Resolved() && jm.Valid() && jm.joined
    requires jm.sourceRelationship.Some? && jm.sourceRelationship.value.polymorphic
    requires t in jm.sourceRelationship.value.targets
    ensures var src := jm.sourceRelationship.value;
            var r := jm.SourceJoinDetails(Some(t));
            && r.Some? && r.value.joinType == Left
            && r.value.joinOptions == JoinOptions(Related(src), RelationshipDetails(Left), t)
            && r == jm.JoinDetailsByPolymorphicRelationship(src, t)
  {
    var src := jm.sourceRelationship.value;
    var p := [Segment(src, t)];
    assert IsSourcePosition(jm.sourceRelationship, p);
    RegisteredNodes(jm);
    JoinedDetails(jm);
    assert p in jm.details;
    ShallowestSource(jm, src, t);
  }

  /** A registered node one hop from the root is the first found along its relationship and type. */
  lemma ShallowestSource(jm: JoinManager, rel: Relationship, t: ResourceType)
    requires jm.Resolved() && jm.Valid() && jm.joined
    requires [Segment(rel, t)] in jm.details
    ensures jm.JoinDetailsByPolymorphicRelationship(rel, t) == Some(jm.details[[Segment(rel, t)]])
  {
    var s := Segment(rel, t);
    assert EndsIn([s], s);
    LookupByRelationship(jm, rel, t);
    var q :| && q in jm.details && EndsIn(q, s)
             && jm.JoinDetailsByPolymorphicRelationship(rel, t).value == jm.details[q]
             && forall q' :: q' in jm.details && EndsIn(q', s) ==> |q| <= |q'|;
    ShallowestIsOneHop(jm.details, s, q);
  }

  /** A shallowest node reached along `s`, when the one-hop node `[s]` is present, is that node. */
  lemma ShallowestIsOneHop(details: map<Position, JoinDetails>, s: Segment, q: Position)
    requires [s] in details && EndsIn(q, s)
    requires forall q' :: q' in details && EndsIn(q', s) ==> |q| <= |q'|
    ensures q == [s]
  {
    assert EndsIn([s], s);
    assert |q| <= 1;
  }

  /** Before the join, no lookup finds anything. */
  lemma NothingBeforeJoin(jm: JoinManager, p: Position, rel: Relationship, t: ResourceType)
    requires jm.Resolved() && jm.Valid() && !jm.joined
    ensures jm.Lookup(p).None? && jm.JoinDetailsByPolymorphicRelationship(rel, t).None?
    ensures jm.JoinDetailsByRelationship(rel).None? && jm.SourceJoinDetails(Some(t)).None?
  {
  }

  /**
   * Two managers built for the same resource type and source relationship from
   * the same set of filter, sort and include keys register the same nodes with
   * the same join types, whatever the keys' order.
   */
  lemma SameKeysSameJoinTypes(jm1: JoinManager, jm2: JoinManager)
    requires jm1.Resolved() && jm1.Valid() && jm2.Resolved() && jm2.Valid()
    requires jm1.catalog == jm2.catalog && jm1.resourceType == jm2.resourceType
    requires jm1.sourceRelationship == jm2.sourceRelationship
    requires forall k :: k in jm1.Keys() <==> k in jm2.Keys()
    ensures jm1.joinTypes == jm2.joinTypes
  {
    OrderIndependent(jm1.catalog, jm1.resourceType, jm1.sourceRelationship, jm1.Keys(), jm2.Keys());
  }

  /** Builds a join manager, or reports the first filter, sort or include path that does not resolve. */
  method NewJoinManager(catalog: Catalog, resourceType: ResourceType, sourceRelationship: Option<Relationship>,
                        filters: seq<string>, sortCriteria: seq<SortCriterion>, relationships: seq<string>)
    returns (r: Result<JoinManager, PathError>)
    ensures var resolved := ResolveAll(catalog, resourceType, sourceRelationship, PathKeys(filters, sortCriteria, relationships));
            && (r.Failure? <==> resolved.Failure?)
            && (r.Failure? ==> r.error == resolved.error)
    ensures r.Success? ==>
              && fresh(r.value) && r.value.Resolved() && r.value.Valid() && !r.value.joined
              && r.value.catalog == catalog && r.value.resourceType == resourceType
              && r.value.sourceRelationship == sourceRelationship
              && r.value.filters == filters && r.value.sortCriteria == sortCriteria && r.value.relationships == relationships
  {
    var resolved := ResolveAll(catalog, resourceType, sourceRelationship, PathKeys(filters, sortCriteria, relationships));
    if resolved.Failure? {
      return Failure(resolved.error);
    }
    var jm := new JoinManager(catalog, resourceType, sourceRelationship, filters, sortCriteria, relationships);
    return Success(jm);
  }
}
