/**
 * The join manager on a small blog-and-pictures schema: posts with an author,
 * comments and tags; comments with an author and tags; people with comments;
 * pictures with a polymorphic `imageable` (products or documents) and file
 * properties. Each lemma fixes a request and states the details lookups
 * return after the join.
 */
module Scenarios {
  import opened Wrappers
  import opened Schema
  import opened Paths
  import opened Registry
  import opened Planning
  import opened Emission
  import opened JoinManagers

  const PostAuthor := Relationship("posts", "author", ["people"], false, "authors")
  const PostComments := Relationship("posts", "comments", ["comments"], false, "comments")
  const PostTags := Relationship("posts", "tags", ["tags"], false, "tags")
  const CommentAuthor := Relationship("comments", "author", ["people"], false, "authors")
  const CommentTags := Relationship("comments", "tags", ["tags"], false, "tags")
  const PersonComments := Relationship("people", "comments", ["comments"], false, "comments")
  const PictureImageable := Relationship("pictures", "imageable", ["products", "documents"], true, "imageables")
  const PictureFileProperties := Relationship("pictures", "file_properties", ["file_properties"], false, "file_properties")

  const Fixture: Catalog := map[
    "posts" := Resource("posts", map["author" := PostAuthor, "comments" := PostComments, "tags" := PostTags]),
    "comments" := Resource("comments", map["author" := CommentAuthor, "tags" := CommentTags]),
    "people" := Resource("people", map["comments" := PersonComments]),
    "tags" := Resource("tags", map[]),
    "pictures" := Resource("pictures", map["imageable" := PictureImageable, "file_properties" := PictureFileProperties]),
    "products" := Resource("products", map[]),
    "documents" := Resource("documents", map[]),
    "file_properties" := Resource("file_properties", map[])]

  /** The dotted path `a.b`. */
  function Dot(a: string, b: string): string
  {
    a + [PathSeparator] + b
  }

  /** The details of a one-hop join along `rel` to `t`. */
  function Hop1(alias: string, jt: JoinType, rel: Relationship, t: ResourceType): Option<JoinDetails>
  {
    Some(JoinDetails(alias, jt, JoinOptions(Related(rel), RelationshipDetails(jt), t)))
  }

  function RootOf(alias: string, t: ResourceType): Option<JoinDetails>
  {
    Some(JoinDetails(alias, Root, JoinOptions(RootRelationship, RelationshipDetails(Root), t)))
  }

  /** A one-segment key naming a plain relationship of `from` resolves to one hop. */
  lemma ResolveRelationship(from: ResourceType, key: string, rel: Relationship)
    requires PathSeparator !in key && TypeSeparator !in key && key != ""
    requires FindRelationship(Fixture, Some(from), key) == Some(rel)
    ensures Resolve(Fixture, from, key) == Success(ResolvedPath([Hop(rel, None)], None))
  {
    SplitNoSeparator(key, PathSeparator);
    assert Segments(key) == [key];
    ResolveStep(Fixture, Some(from), key, [], rel);
    assert [key] + [] == [key];
    assert [Hop(rel, None)] + [] == [Hop(rel, None)];
  }

  /** A one-segment key naming no relationship of `from` is a field: no hop. */
  lemma ResolveField(from: ResourceType, name: string)
    requires PathSeparator !in name && TypeSeparator !in name && name != ""
    requires FindRelationship(Fixture, Some(from), name).None?
    ensures ResolveSegments(Fixture, Some(from), [name]) == Success(ResolvedPath([], Some(name)))
  {
  }

  /** A key `a.field` through a plain relationship `a` resolves to one hop and the field. */
  lemma ResolveRelationshipField(from: ResourceType, a: string, rel: Relationship, t: ResourceType, field: string)
    requires PathSeparator !in a && TypeSeparator !in a && a != ""
    requires PathSeparator !in field && TypeSeparator !in field && field != ""
    requires FindRelationship(Fixture, Some(from), a) == Some(rel) && DefaultTarget(rel) == Some(t)
    requires FindRelationship(Fixture, Some(t), field).None?
    ensures Resolve(Fixture, from, Dot(a, field)) == Success(ResolvedPath([Hop(rel, None)], Some(field)))
  {
    SplitCons(a, field, PathSeparator);
    SplitNoSeparator(field, PathSeparator);
    assert Segments(Dot(a, field)) == [a] + [field];
    ResolveField(t, field);
    ResolveStep(Fixture, Some(from), a, [field], rel);
    assert [Hop(rel, None)] + [] == [Hop(rel, None)];
  }

  /** A key `a.rest` through a plain relationship `a` resolves to that hop followed by `rest` resolved from its target. */
  lemma ResolveDotted(from: ResourceType, a: string, rel: Relationship, t: ResourceType, rest: string)
    requires PathSeparator !in a && TypeSeparator !in a && a != ""
    requires FindRelationship(Fixture, Some(from), a) == Some(rel) && DefaultTarget(rel) == Some(t)
    requires Resolve(Fixture, t, rest).Success?
    ensures Resolve(Fixture, from, Dot(a, rest)) ==
            Success(ResolvedPath([Hop(rel, None)] + Resolve(Fixture, t, rest).value.hops, Resolve(Fixture, t, rest).value.field))
  {
    SplitCons(a, rest, PathSeparator);
    DropTrailingEmptyCons(a, Split(rest, PathSeparator));
    ResolveStep(Fixture, Some(from), a, Segments(rest), rel);
  }

  /** The segment `a` of `from` is a plain relationship `rel` reaching `t`. */
  predicate PlainStep(from: ResourceType, a: string, rel: Relationship, t: ResourceType)
  {
    && PathSeparator !in a && TypeSeparator !in a && a != ""
    && FindRelationship(Fixture, Some(from), a) == Some(rel) && DefaultTarget(rel) == Some(t)
  }

  /** `ResolveDotted` with the result of `rest` named. */
  lemma ResolveDottedTo(from: ResourceType, a: string, rel: Relationship, t: ResourceType, rest: string,
                        hops: seq<Hop>, field: Option<string>, full: seq<Hop>)
    requires PlainStep(from, a, rel, t)
    requires Resolve(Fixture, t, rest) == Success(ResolvedPath(hops, field)) && full == [Hop(rel, None)] + hops
    ensures Resolve(Fixture, from, Dot(a, rest)) == Success(ResolvedPath(full, field))
  {
    ResolveDotted(from, a, rel, t, rest);
  }

  /**
   * A manager on posts with no filters, sort criteria, include paths or source
   * relationship: the join emits only the root, so it adds no join clause, and
   * the source details are the root's, aliased `posts`.
   */
  lemma NoAddedJoins(jm: JoinManager)
    requires jm.Resolved() && jm.Valid() && jm.joined
    requires jm.catalog == Fixture && jm.resourceType == "posts" && jm.sourceRelationship == None && jm.Keys() == []
    ensures jm.emitted == [[]] && NonRoot(jm.emitted) == []
    ensures jm.SourceJoinDetails(None) == RootOf("posts", "posts")
  {
    NoJoinsState(jm);
    NonRootOfRoot();
    RootOnlyLookup(jm);
  }

  lemma NoJoinsState(jm: JoinManager)
    requires jm.Resolved() && jm.Valid() && jm.joined && jm.sourceRelationship == None && jm.Keys() == []
    ensures jm.emitted == [[]]
  {
    assert jm.paths == [];
    TagsRoot();
    EmissionOfSorted([[]]);
  }

  lemma NonRootOfRoot()
    ensures NonRoot([[]]) == []
  {
    var es: seq<Position> := [[]];
    assert es[..0] == [];
  }

  /** Without a source relationship the source details of a joined manager on posts are the root's. */
  lemma RootOnlyLookup(jm: JoinManager)
    requires jm.Resolved() && jm.Valid() && jm.joined
    requires jm.catalog == Fixture && jm.resourceType == "posts" && jm.sourceRelationship == None
    ensures jm.SourceJoinDetails(None) == RootOf("posts", "posts")
  {
    RootDetails(jm);
    FixtureTables();
  }

  /** Every key `tags` or `tags.name` on posts resolves to the single hop along posts' tags. */
  lemma TagsKeys(keys: seq<string>)
    requires forall i :: 0 <= i < |keys| ==> keys[i] == "tags" || keys[i] == Dot("tags", "name")
    ensures ResolveAll(Fixture, "posts", None, keys).Success?
    ensures forall i :: 0 <= i < |keys| ==> ResolveAll(Fixture, "posts", None, keys).value[i].hops == [Hop(PostTags, None)]
  {
    assert FindRelationship(Fixture, Some("posts"), "tags") == Some(PostTags);
    assert FindRelationship(Fixture, Some("tags"), "name").None?;
    forall i | 0 <= i < |keys|
      ensures ResolveKey(Fixture, "posts", None, keys[i]).Success?
      ensures ResolveKey(Fixture, "posts", None, keys[i]).value.hops == [Hop(PostTags, None)]
    {
      if keys[i] == "tags" {
        ResolveRelationship("posts", "tags", PostTags);
      } else {
        ResolveRelationshipField("posts", "tags", PostTags, "tags", "name");
      }
    }
  }

  // ---------------------------------------------------------------------------
  // Nested joins: posts' comments with their author and tags, and posts' author
  // ---------------------------------------------------------------------------

  const CommentAuthorHops := [Hop(PostComments, None), Hop(CommentAuthor, None)]
  const CommentTagsHops := [Hop(PostComments, None), Hop(CommentTags, None)]
  const AuthorHops := [Hop(PostAuthor, None)]

  /** The hops the nested keys name, with or without a trailing field. */
  function NestedHops(k: string): seq<Hop>
  {
    if k == "author" || k == Dot("author", "foo") then AuthorHops
    else if k == Dot("comments", "author") || k == Dot("comments", Dot("author", "name")) then CommentAuthorHops
    else CommentTagsHops
  }

  predicate NestedKey(k: string)
  {
    || k == Dot("comments", "author") || k == Dot("comments", "tags") || k == "author"
    || k == Dot("comments", Dot("author", "name")) || k == Dot("comments", Dot("tags", "id")) || k == Dot("author", "foo")
  }

  /** The relationships the nested keys follow, and the fields that name none. */
  lemma NestedRelationships()
    ensures FindRelationship(Fixture, Some("posts"), "comments") == Some(PostComments)
    ensures FindRelationship(Fixture, Some("posts"), "author") == Some(PostAuthor)
    ensures FindRelationship(Fixture, Some("comments"), "author") == Some(CommentAuthor)
    ensures FindRelationship(Fixture, Some("comments"), "tags") == Some(CommentTags)
    ensures FindRelationship(Fixture, Some("people"), "name").None?
    ensures FindRelationship(Fixture, Some("people"), "foo").None?
    ensures FindRelationship(Fixture, Some("tags"), "id").None?
  {
  }

  /** A key below posts' comments resolves to the comments hop, then the key's own hops from comments. */
  lemma ResolveCommentsKey(rest: string, hops: seq<Hop>, field: Option<string>)
    requires Resolve(Fixture, "comments", rest) == Success(ResolvedPath(hops, field))
    ensures Resolve(Fixture, "posts", Dot("comments", rest)) == Success(ResolvedPath([Hop(PostComments, None)] + hops, field))
  {
    PostLookups();
    assert DefaultTarget(PostComments) == Some("comments");
    ResolveDotted("posts", "comments", PostComments, "comments", rest);
  }

  /** Each nested key resolves from posts, hop by hop, to the hops `NestedHops` names. */
  lemma ResolveNestedKey(k: string)
    requires NestedKey(k)
    ensures Resolve(Fixture, "posts", k).Success? && Resolve(Fixture, "posts", k).value.hops == NestedHops(k)
  {
    if k == "author" || k == Dot("author", "foo") {
      ResolveAuthorKey(k);
    } else if k == Dot("comments", "author") || k == Dot("comments", Dot("author", "name")) {
      ResolveCommentAuthorKey(k);
    } else {
      ResolveCommentTagsKey(k);
    }
  }

  lemma ResolveAuthorKey(k: string)
    requires k == "author" || k == Dot("author", "foo")
    ensures Resolve(Fixture, "posts", k).Success? && Resolve(Fixture, "posts", k).value.hops == AuthorHops
  {
    NestedRelationships();
    if k == "author" {
      ResolveRelationship("posts", "author", PostAuthor);
    } else {
      ResolveRelationshipField("posts", "author", PostAuthor, "people", "foo");
    }
  }

  lemma ResolveCommentAuthorKey(k: string)
    requires k == Dot("comments", "author") || k == Dot("comments", Dot("author", "name"))
    ensures Resolve(Fixture, "posts", k).Success? && Resolve(Fixture, "posts", k).value.hops == CommentAuthorHops
  {
    NestedRelationships();
    if k == Dot("comments", "author") {
      ResolveRelationship("comments", "author", CommentAuthor);
      ResolveCommentsKey("author", [Hop(CommentAuthor, None)], None);
    } else {
      ResolveRelationshipField("comments", "author", CommentAuthor, "people", "name");
      ResolveCommentsKey(Dot("author", "name"), [Hop(CommentAuthor, None)], Some("name"));
    }
  }

  lemma ResolveCommentTagsKey(k: string)
    requires k == Dot("comments", "tags") || k == Dot("comments", Dot("tags", "id"))
    ensures Resolve(Fixture, "posts", k).Success? && Resolve(Fixture, "posts", k).value.hops == CommentTagsHops
  {
    NestedRelationships();
    if k == Dot("comments", "tags") {
      ResolveRelationship("comments", "tags", CommentTags);
      ResolveCommentsKey("tags", [Hop(CommentTags, None)], None);
    } else {
      ResolveRelationshipField("comments", "tags", CommentTags, "tags", "id");
      ResolveCommentsKey(Dot("tags", "id"), [Hop(CommentTags, None)], Some("id"));
    }
  }

  lemma PostLookups()
    ensures FindRelationship(Fixture, Some("posts"), "comments") == Some(PostComments)
  {
  }

  /** A plain hop creates the one node of its single target. */
  lemma ExpandPlainHop(rel: Relationship, t: ResourceType)
    requires rel.targets == [t]
    ensures Expand([Hop(rel, None)]) == [[Segment(rel, t)]]
  {
    ExpandPlainCons(rel, t, []);
    assert [Hop(rel, None)] + [] == [Hop(rel, None)];
    assert Expand([]) == [];
  }

  const TagsNode: Position := [Segment(PostTags, "tags")]

  const TagsRegistry := Registry([[], TagsNode], map[[] := Root, TagsNode := Left])

  /** Registering the root then the tags node, and registering the tags node again. */
  lemma TagsRegistrations()
    ensures Register(Register(Registry([], map[]), Registration([], Root)), Registration(TagsNode, Left)) == TagsRegistry
    ensures Register(TagsRegistry, Registration(TagsNode, Left)) == TagsRegistry
  {
    assert TagsRegistry.types[TagsNode := Merge(Left, Left)] == TagsRegistry.types;
  }

  /**
   * However many paths along posts' tags are requested, the registry holds the
   * root and the tags node once, joined `left`.
   */
  lemma {:induction false} SingleJoinPlan(paths: seq<ResolvedPath>)
    requires |paths| > 0
    requires forall i :: 0 <= i < |paths| ==> paths[i].hops == [Hop(PostTags, None)]
    ensures RegisterAll(Contributions(None, paths)) == TagsRegistry
    decreases |paths|
  {
    TagsRegistrations();
    var n := |paths|;
    var init := paths[..n - 1];
    var c1 := Registration(TagsNode, Left);
    assert paths == init + [paths[n - 1]];
    TagsSnoc(init, paths[n - 1]);
    RegisterAllAppend(Contributions(None, init), c1);
    if n == 1 {
      assert init == [];
      TagsRoot();
    } else {
      assert forall i :: 0 <= i < |init| ==> init[i] == paths[i];
      SingleJoinPlan(init);
    }
  }

  /** One more path along posts' tags contributes the tags node once more. */
  lemma TagsSnoc(init: seq<ResolvedPath>, last: ResolvedPath)
    requires last.hops == [Hop(PostTags, None)]
    ensures Contributions(None, init + [last]) == Contributions(None, init) + [Registration(TagsNode, Left)]
  {
    ExpandPlainHop(PostTags, "tags");
    var paths := init + [last];
    assert paths[..|paths| - 1] == init;
    assert PathRegistrations(paths) == PathRegistrations(init) + [Registration(TagsNode, Left)];
  }

  lemma TagsRoot()
    ensures RegisterAll(Contributions(None, [])) == Register(Registry([], map[]), Registration([], Root))
  {
    assert Contributions(None, []) == [] + [Registration([], Root)];
    RegisterAllAppend([], Registration([], Root));
  }

  /** The tags node is joined after the root. */
  lemma SingleJoinOrder()
    ensures EmissionOrder(TagsRegistry.order) == [[], TagsNode]
  {
    EmissionOfSorted([[], TagsNode]);
  }

  /** The root keeps table `posts`; the tags node is aliased by its free table name `tags`. */
  lemma SingleJoinDetails()
    ensures var d := Perform(Fixture, "posts", TagsRegistry.types, [[], TagsNode]).details;
            && [] in d && Some(d[[]]) == RootOf("posts", "posts")
            && TagsNode in d && Some(d[TagsNode]) == Hop1("tags", Left, PostTags, "tags")
  {
    var types := TagsRegistry.types;
    var order: seq<Position> := [[], TagsNode];
    PerformLast(Fixture, "posts", types, order[..1]);
    PerformLast(Fixture, "posts", types, order);
    assert order[..1][..0] == [] && order[..1] == [[]];
    assert Perform(Fixture, "posts", types, order[..1]) == Performed({"posts"}, map[[] := RootOf("posts", "posts").value], []);
    assert AliasFor(Fixture, {"posts"}, Segment(PostTags, "tags")) == "tags";
  }

  /** The joined state of a manager on posts whose keys are all `tags` or `tags.name`. */
  lemma SingleJoinState(jm: JoinManager)
    requires jm.Resolved() && jm.Valid() && jm.joined
    requires jm.catalog == Fixture && jm.resourceType == "posts" && jm.sourceRelationship == None
    requires |jm.Keys()| > 0
    requires forall i :: 0 <= i < |jm.Keys()| ==> jm.Keys()[i] == "tags" || jm.Keys()[i] == Dot("tags", "name")
    ensures jm.emitted == [[], TagsNode]
    ensures [] in jm.details && Some(jm.details[[]]) == RootOf("posts", "posts")
    ensures TagsNode in jm.details && Some(jm.details[TagsNode]) == Hop1("tags", Left, PostTags, "tags")
  {
    TagsKeys(jm.Keys());
    SingleJoinPlan(jm.paths);
    SingleJoinOrder();
    SingleJoinDetails();
  }

  /**
   * A manager on posts whose filter, sort and include keys are all `tags` or
   * `tags.name` (at least one): after the join, the source details are the
   * root's, aliased `posts`, and the details found by posts' tags relationship
   * are a `left` join aliased `tags`, with that relationship and type.
   */
  lemma SingleJoin(jm: JoinManager)
    requires jm.Resolved() && jm.Valid() && jm.joined
    requires jm.catalog == Fixture && jm.resourceType == "posts" && jm.sourceRelationship == None
    requires |jm.Keys()| > 0
    requires forall i :: 0 <= i < |jm.Keys()| ==> jm.Keys()[i] == "tags" || jm.Keys()[i] == Dot("tags", "name")
    ensures jm.SourceJoinDetails(None) == RootOf("posts", "posts")
    ensures jm.JoinDetailsByRelationship(PostTags) == Hop1("tags", Left, PostTags, "tags")
  {
    SingleJoinState(jm);
    SingleJoinLookups(jm);
  }

  lemma SingleJoinLookups(jm: JoinManager)
    requires jm.emitted == [[], TagsNode]
    requires [] in jm.details && Some(jm.details[[]]) == RootOf("posts", "posts")
    requires TagsNode in jm.details && Some(jm.details[TagsNode]) == Hop1("tags", Left, PostTags, "tags")
    requires jm.sourceRelationship == None
    ensures jm.SourceJoinDetails(None) == RootOf("posts", "posts")
    ensures jm.JoinDetailsByRelationship(PostTags) == Hop1("tags", Left, PostTags, "tags")
  {
    assert FirstEnding(jm.emitted, Segment(PostTags, "tags")) == Some(1) by {
      assert !EndsIn(jm.emitted[0], Segment(PostTags, "tags"));
      assert EndsIn(jm.emitted[1], Segment(PostTags, "tags"));
    }
  }

  /** A plain first hop creates its node, then the nodes of the rest below it. */
  lemma ExpandPlainCons(rel: Relationship, t: ResourceType, rest: seq<Hop>)
    requires rel.targets == [t]
    ensures Expand([Hop(rel, None)] + rest) == [[Segment(rel, t)]] + Prefixed(Segment(rel, t), Expand(rest))
  {
    var hops := [Hop(rel, None)] + rest;
    assert hops[0] == Hop(rel, None) && hops[1..] == rest;
    assert Targets(hops[0]) == [t];
    assert [t][1..] == [];
    assert ExpandTargets(rel, [], rest) == [];
    assert Expand(hops) == ExpandTargets(rel, [t], rest);
  }

  /** Two plain hops create the node of the first and, below it, the node of the second. */
  lemma ExpandTwoPlain(r1: Relationship, t1: ResourceType, r2: Relationship, t2: ResourceType)
    requires r1.targets == [t1] && r2.targets == [t2]
    ensures Expand([Hop(r1, None), Hop(r2, None)]) == [[Segment(r1, t1)], [Segment(r1, t1), Segment(r2, t2)]]
  {
    ExpandPlainCons(r1, t1, [Hop(r2, None)]);
    assert [Hop(r1, None), Hop(r2, None)] == [Hop(r1, None)] + [Hop(r2, None)];
    ExpandPlainHop(r2, t2);
    var s1 := Segment(r1, t1);
    assert Prefixed(s1, [[Segment(r2, t2)]]) == [[s1] + [Segment(r2, t2)]];
    assert [s1] + [Segment(r2, t2)] == [s1, Segment(r2, t2)];
  }

  const CommentsNode: Position := [Segment(PostComments, "comments")]
  const AuthorNode: Position := [Segment(PostAuthor, "people")]
  const CommentAuthorNode: Position := [Segment(PostComments, "comments"), Segment(CommentAuthor, "people")]
  const CommentTagsNode: Position := [Segment(PostComments, "comments"), Segment(CommentTags, "tags")]

  const NestedTypes := map[[] := Root, CommentsNode := Left, CommentAuthorNode := Left, CommentTagsNode := Left, AuthorNode := Left]

  /** The registrations of the paths along `comments.author`, `comments.tags` and `author`, in that order. */
  lemma NestedRegistrations(paths: seq<ResolvedPath>)
    requires |paths| == 3
    requires paths[0].hops == CommentAuthorHops && paths[1].hops == CommentTagsHops && paths[2].hops == AuthorHops
    ensures Contributions(None, paths) ==
            [Registration([], Root), Registration(CommentsNode, Left), Registration(CommentAuthorNode, Left),
             Registration(CommentsNode, Left), Registration(CommentTagsNode, Left), Registration(AuthorNode, Left)]
  {
    ExpandTwoPlain(PostComments, "comments", CommentAuthor, "people");
    ExpandTwoPlain(PostComments, "comments", CommentTags, "tags");
    ExpandPlainHop(PostAuthor, "people");
    var rc, rca, rct, ra := Registration(CommentsNode, Left), Registration(CommentAuthorNode, Left),
                            Registration(CommentTagsNode, Left), Registration(AuthorNode, Left);
    assert WithType([CommentsNode, CommentAuthorNode], Left) == [rc, rca];
    assert WithType([CommentsNode, CommentTagsNode], Left) == [rc, rct];
    assert WithType([AuthorNode], Left) == [ra];
    PathRegistrationsThree(paths, [rc, rca], [rc, rct], [ra]);
  }

  /** One more request for a node not yet registered appends it with the request's join type. */
  lemma RegisterAllNew(cs: seq<Registration>, c: Registration, order: seq<Position>, types: map<Position, JoinType>)
    requires RegisterAll(cs) == Registry(order, types) && c.position !in types
    ensures RegisterAll(cs + [c]) == Registry(order + [c.position], types[c.position := c.joinType])
  {
    RegisterAllAppend(cs, c);
  }

  /** One more request for a registered node whose join type it does not change changes nothing. */
  lemma RegisterAllAgain(cs: seq<Registration>, c: Registration, order: seq<Position>, types: map<Position, JoinType>)
    requires RegisterAll(cs) == Registry(order, types) && c.position in types && Merge(types[c.position], c.joinType) == types[c.position]
    ensures RegisterAll(cs + [c]) == Registry(order, types)
  {
    RegisterAllAppend(cs, c);
    assert types[c.position := Merge(types[c.position], c.joinType)] == types;
  }

  /** Registering the nested nodes one request at a time. */
  lemma NestedRegisterSteps()
    ensures RegisterAll([Registration([], Root), Registration(CommentsNode, Left), Registration(CommentAuthorNode, Left),
                         Registration(CommentsNode, Left), Registration(CommentTagsNode, Left), Registration(AuthorNode, Left)]) ==
            Registry([[], CommentsNode, CommentAuthorNode, CommentTagsNode, AuthorNode], NestedTypes)
  {
    var r0, rc, rca, rct, ra := Registration([], Root), Registration(CommentsNode, Left), Registration(CommentAuthorNode, Left),
                                Registration(CommentTagsNode, Left), Registration(AuthorNode, Left);
    var m1 := map[[] := Root];
    var m2 := m1[CommentsNode := Left];
    var m3 := m2[CommentAuthorNode := Left];
    var m5 := m3[CommentTagsNode := Left];
    var o1: seq<Position> := [[]];
    var o2 := o1 + [CommentsNode];
    var o3 := o2 + [CommentAuthorNode];
    var o5 := o3 + [CommentTagsNode];
    var cs1 := [r0];
    var cs2 := cs1 + [rc];
    var cs3 := cs2 + [rca];
    var cs4 := cs3 + [rc];
    var cs5 := cs4 + [rct];
    assert [] + [r0] == cs1 && [] + [[]] == o1;
    RegisterAllNew([], r0, [], map[]);
    RegisterAllNew(cs1, rc, o1, m1);
    RegisterAllNew(cs2, rca, o2, m2);
    RegisterAllAgain(cs3, rc, o3, m3);
    assert CommentTagsNode[1] != CommentAuthorNode[1];
    RegisterAllNew(cs4, rct, o3, m3);
    assert AuthorNode[0] != CommentsNode[0];
    RegisterAllNew(cs5, ra, o5, m5);
    assert cs5 + [ra] == [r0, rc, rca, rc, rct, ra];
    assert o5 + [AuthorNode] == [[], CommentsNode, CommentAuthorNode, CommentTagsNode, AuthorNode];
  }

  /**
   * Registering `comments.author`, `comments.tags` and `author` lists the
   * comments node once, before the nodes below it, and the author node last.
   */
  lemma NestedPlan(paths: seq<ResolvedPath>)
    requires |paths| == 3
    requires paths[0].hops == CommentAuthorHops && paths[1].hops == CommentTagsHops && paths[2].hops == AuthorHops
    ensures RegisterAll(Contributions(None, paths)) ==
            Registry([[], CommentsNode, CommentAuthorNode, CommentTagsNode, AuthorNode], NestedTypes)
  {
    NestedRegistrations(paths);
    NestedRegisterSteps();
  }

  /** An order whose neighbours never get shallower is depth-sorted. */
  lemma SortedByNeighbours(s: seq<Position>)
    requires forall i :: 0 < i < |s| ==> |s[i - 1]| <= |s[i]|
    ensures DepthSorted(s)
  {
    forall i, j | 0 <= i < j < |s| ensures |s[i]| <= |s[j]| {
      NeighboursReach(s, i, j);
    }
  }

  lemma {:induction false} NeighboursReach(s: seq<Position>, i: nat, j: nat)
    requires forall k :: 0 < k < |s| ==> |s[k - 1]| <= |s[k]|
    requires i <= j < |s|
    ensures |s[i]| <= |s[j]|
    decreases j - i
  {
    if i < j {
      NeighboursReach(s, i, j - 1);
    }
  }

  /** Emission of an order whose neighbours never get shallower keeps that order. */
  lemma EmissionOfNeighbourSorted(s: seq<Position>)
    requires forall i :: 0 < i < |s| ==> |s[i - 1]| <= |s[i]|
    ensures EmissionOrder(s) == s
  {
    SortedByNeighbours(s);
    EmissionOfSorted(s);
  }

  /** A node registered after deeper ones but shallower than them is emitted before them. */
  lemma EmissionOfLateShallow(root: Position, a: Position, b: Position, c: Position, d: Position)
    requires |root| == 0 && |a| == 1 && |b| == 2 && |c| == 2 && |d| == 1
    ensures EmissionOrder([root, a, b, c, d]) == [root, a, d, b, c]
  {
    SwapLateShallow(root, a, b, c, d);
    EmissionOfNeighbourSorted([root, a, d, b, c]);
  }

  lemma SwapLateShallow(root: Position, a: Position, b: Position, c: Position, d: Position)
    requires |b| == 2 && |c| == 2 && |d| == 1
    ensures EmissionOrder([root, a, b, c, d]) == EmissionOrder([root, a, d, b, c])
  {
    var pre, x, y := [root, a], [b, c], [d];
    assert pre + x + y + [] == [root, a, b, c, d];
    assert pre + y + x + [] == [root, a, d, b, c];
    EmissionSwap(pre, x, y, []);
  }

  /** The author node, one level up, is joined before the nodes below comments. */
  lemma NestedOrder()
    ensures EmissionOrder([[], CommentsNode, CommentAuthorNode, CommentTagsNode, AuthorNode]) == NestedEmission
  {
    EmissionOfLateShallow([], CommentsNode, CommentAuthorNode, CommentTagsNode, AuthorNode);
  }

  /** The alias of comments' author once `people` is taken: the plural relationship name and the comments table. */
  lemma CommentAuthorAlias(taken: set<string>)
    requires "people" in taken && "authors_comments" !in taken
    ensures AliasFor(Fixture, taken, Segment(CommentAuthor, "people")) == "authors_comments"
  {
    assert TableOf(Fixture, "people") == "people" && TableOf(Fixture, "comments") == "comments";
    assert Candidate(Fixture, Segment(CommentAuthor, "people")) == "authors_comments";
  }

  /** The details recorded for a non-root node reached along its last segment with alias `a`. */
  function Entry(a: string, jt: JoinType, p: Position): JoinDetails
    requires p != []
  {
    JoinDetails(a, jt, JoinOptions(Related(p[|p| - 1].relationship), RelationshipDetails(jt), p[|p| - 1].target))
  }

  /** Emitting the root first records it under the root table's name, which is then the only name taken. */
  lemma PerformRoot(catalog: Catalog, root: ResourceType, types: map<Position, JoinType>)
    requires [] in types
    ensures Perform(catalog, root, types, [[]]).taken == {RootTable(catalog, root)}
    ensures Perform(catalog, root, types, [[]]).details ==
            map[[] := JoinDetails(RootTable(catalog, root), types[[]], JoinOptions(RootRelationship, RelationshipDetails(types[[]]), root))]
  {
    var es: seq<Position> := [[]];
    PerformLast(catalog, root, types, es);
    assert es[..0] == [];
  }

  /** Emitting one more non-root node takes its alias and records its details. */
  lemma PerformNext(catalog: Catalog, root: ResourceType, types: map<Position, JoinType>, es: seq<Position>, p: Position, a: string)
    requires forall i :: 0 <= i < |es| ==> es[i] in types
    requires p in types && p != []
    requires AliasFor(catalog, Perform(catalog, root, types, es).taken, p[|p| - 1]) == a
    ensures Perform(catalog, root, types, es + [p]).taken == Perform(catalog, root, types, es).taken + {a}
    ensures Perform(catalog, root, types, es + [p]).details == Perform(catalog, root, types, es).details[p := Entry(a, types[p], p)]
  {
    assert (es + [p])[..|es|] == es;
    PerformLast(catalog, root, types, es + [p]);
  }

  /** Emitting the registered nodes `es` in order takes exactly the names `taken` and records `details`. */
  ghost predicate EmittedAs(catalog: Catalog, root: ResourceType, types: map<Position, JoinType>, es: seq<Position>,
                            taken: set<string>, details: map<Position, JoinDetails>)
  {
    && (forall i :: 0 <= i < |es| ==> es[i] in types)
    && Perform(catalog, root, types, es).taken == taken
    && Perform(catalog, root, types, es).details == details
  }

  /** Emitting one more non-root node after `es` takes its alias and records its details. */
  lemma PerformAfter(catalog: Catalog, root: ResourceType, types: map<Position, JoinType>, es: seq<Position>, p: Position,
                     taken: set<string>, details: map<Position, JoinDetails>, a: string)
    requires EmittedAs(catalog, root, types, es, taken, details)
    requires p in types && p != [] && AliasFor(catalog, taken, p[|p| - 1]) == a
    ensures EmittedAs(catalog, root, types, es + [p], taken + {a}, details[p := Entry(a, types[p], p)])
  {
    PerformNext(catalog, root, types, es, p, a);
    assert forall i :: 0 <= i < |es| + 1 ==> (es + [p])[i] in types by {
      forall i | 0 <= i < |es| + 1 ensures (es + [p])[i] in types {
        if i < |es| { assert (es + [p])[i] == es[i]; }
      }
    }
  }

  /** Emitting the root first takes the root table's name. */
  lemma RootEmitted(catalog: Catalog, root: ResourceType, types: map<Position, JoinType>, t: string)
    requires [] in types && types[[]] == Root && t == RootTable(catalog, root)
    ensures EmittedAs(catalog, root, types, [[]], {t}, map[[] := RootOf(t, root).value])
  {
    PerformRoot(catalog, root, types);
  }

  lemma SnocOne(a: Position, b: Position)
    ensures [a] + [b] == [a, b]
  {
  }

  lemma SnocTwo(a: Position, b: Position, c: Position)
    ensures [a, b] + [c] == [a, b, c]
  {
  }

  lemma SnocThree(a: Position, b: Position, c: Position, d: Position)
    ensures [a, b, c] + [d] == [a, b, c, d]
  {
  }

  lemma SnocFour(a: Position, b: Position, c: Position, d: Position, e: Position)
    ensures [a, b, c, d] + [e] == [a, b, c, d, e]
  {
  }

  lemma FixtureTables()
    ensures TableOf(Fixture, "posts") == "posts" && TableOf(Fixture, "comments") == "comments"
    ensures TableOf(Fixture, "people") == "people" && TableOf(Fixture, "tags") == "tags"
  {
  }

  /**
   * Emitting posts' comments, then posts' author, then comments' author and
   * tags: the author of a comment finds `people` taken and becomes
   * `authors_comments`.
   */
  lemma NestedDetails()
    ensures Perform(Fixture, "posts", NestedTypes, NestedEmission).details == NestedJoinDetails
  {
    NestedCommentAuthor();
    FixtureTables();
    PerformAfter(Fixture, "posts", NestedTypes, [[], CommentsNode, AuthorNode, CommentAuthorNode], CommentTagsNode,
                 {"posts", "comments", "people", "authors_comments"}, NestedLevelTwo, "tags");
    SnocFour([], CommentsNode, AuthorNode, CommentAuthorNode, CommentTagsNode);
  }

  /** At the second level, comments' author finds `people` taken. */
  lemma NestedCommentAuthor()
    ensures EmittedAs(Fixture, "posts", NestedTypes, [[], CommentsNode, AuthorNode, CommentAuthorNode],
                      {"posts", "comments", "people", "authors_comments"}, NestedLevelTwo)
  {
    NestedFirstLevel();
    CommentAuthorAlias({"posts", "comments", "people"});
    PerformAfter(Fixture, "posts", NestedTypes, [[], CommentsNode, AuthorNode], CommentAuthorNode,
                 {"posts", "comments", "people"}, NestedLevelOne, "authors_comments");
    SnocThree([], CommentsNode, AuthorNode, CommentAuthorNode);
  }

  /** The root keeps `posts`; posts' comments take their free table name. */
  lemma NestedCommentsLevel()
    ensures EmittedAs(Fixture, "posts", NestedTypes, [[], CommentsNode], {"posts", "comments"},
                      map[[] := RootOf("posts", "posts").value, CommentsNode := Entry("comments", Left, CommentsNode)])
  {
    FixtureTables();
    RootEmitted(Fixture, "posts", NestedTypes, "posts");
    PerformAfter(Fixture, "posts", NestedTypes, [[]], CommentsNode, {"posts"}, map[[] := RootOf("posts", "posts").value], "comments");
    SnocOne([], CommentsNode);
  }

  /** The rest of the first level: posts' author takes its free table name. */
  lemma NestedFirstLevel()
    ensures EmittedAs(Fixture, "posts", NestedTypes, [[], CommentsNode, AuthorNode], {"posts", "comments", "people"}, NestedLevelOne)
  {
    NestedCommentsLevel();
    FixtureTables();
    PerformAfter(Fixture, "posts", NestedTypes, [[], CommentsNode], AuthorNode, {"posts", "comments"},
                 map[[] := RootOf("posts", "posts").value, CommentsNode := Entry("comments", Left, CommentsNode)], "people");
    SnocTwo([], CommentsNode, AuthorNode);
  }

  /** The first node of `es` reached along `s` is at `i` when `i` is and none before it is. */
  lemma FirstEndingAt(es: seq<Position>, s: Segment, i: nat)
    requires i < |es| && EndsIn(es[i], s)
    requires forall j :: 0 <= j < i ==> !EndsIn(es[j], s)
    ensures FirstEnding(es, s) == Some(i)
  {
  }

  const NestedEmission: seq<Position> := [[], CommentsNode, AuthorNode, CommentAuthorNode, CommentTagsNode]

  /** The details once the root and both first-level nodes are emitted, whichever of the two comes first. */
  const NestedLevelOne := map[[] := RootOf("posts", "posts").value,
                              CommentsNode := Entry("comments", Left, CommentsNode),
                              AuthorNode := Entry("people", Left, AuthorNode)]

  /** The details once comments' author is emitted too. */
  const NestedLevelTwo := NestedLevelOne[CommentAuthorNode := Entry("authors_comments", Left, CommentAuthorNode)]

  const NestedJoinDetails := NestedLevelTwo[CommentTagsNode := Entry("tags", Left, CommentTagsNode)]

  /** The keys `comments.author`, `comments.tags`, `author` in that order, with or without trailing fields. */
  predicate CommentsFirstKeys(keys: seq<string>)
  {
    || keys == [Dot("comments", "author"), Dot("comments", "tags"), "author"]
    || keys == [Dot("comments", Dot("author", "name")), Dot("comments", Dot("tags", "id")), Dot("author", "foo")]
  }

  /** Keys that are all nested keys resolve, each to the hops `NestedHops` names. */
  lemma NestedPaths(keys: seq<string>)
    requires forall i :: 0 <= i < |keys| ==> NestedKey(keys[i])
    ensures ResolveAll(Fixture, "posts", None, keys).Success?
    ensures forall i :: 0 <= i < |keys| ==> ResolveAll(Fixture, "posts", None, keys).value[i].hops == NestedHops(keys[i])
  {
    forall i | 0 <= i < |keys|
      ensures ResolveKey(Fixture, "posts", None, keys[i]).Success?
      ensures ResolveKey(Fixture, "posts", None, keys[i]).value.hops == NestedHops(keys[i])
    {
      ResolveNestedKey(keys[i]);
    }
  }

  lemma CommentsFirstPaths(keys: seq<string>)
    requires CommentsFirstKeys(keys)
    ensures ResolveAll(Fixture, "posts", None, keys).Success?
    ensures var paths := ResolveAll(Fixture, "posts", None, keys).value;
            |paths| == 3 && paths[0].hops == CommentAuthorHops && paths[1].hops == CommentTagsHops && paths[2].hops == AuthorHops
  {
    assert NestedHops(keys[0]) == CommentAuthorHops && NestedHops(keys[1]) == CommentTagsHops && NestedHops(keys[2]) == AuthorHops;
    NestedPaths(keys);
  }

  lemma CommentsFirstState(jm: JoinManager)
    requires jm.Resolved() && jm.Valid() && jm.joined
    requires jm.catalog == Fixture && jm.resourceType == "posts" && jm.sourceRelationship == None
    requires CommentsFirstKeys(jm.Keys())
    ensures jm.emitted == NestedEmission && jm.details == NestedJoinDetails
  {
    CommentsFirstPaths(jm.Keys());
    NestedPlan(jm.paths);
    NestedOrder();
    NestedDetails();
  }

  /** The lookups after joining the nested nodes in `NestedEmission`. */
  lemma NestedJoinLookups(jm: JoinManager)
    requires jm.emitted == NestedEmission && jm.details == NestedJoinDetails && jm.sourceRelationship == None
    ensures jm.SourceJoinDetails(None) == RootOf("posts", "posts")
    ensures jm.JoinDetailsByRelationship(PostComments) == Hop1("comments", Left, PostComments, "comments")
    ensures jm.JoinDetailsByRelationship(PostAuthor) == Hop1("people", Left, PostAuthor, "people")
    ensures jm.JoinDetailsByRelationship(CommentAuthor) == Hop1("authors_comments", Left, CommentAuthor, "people")
    ensures jm.JoinDetailsByRelationship(CommentTags) == Hop1("tags", Left, CommentTags, "tags")
  {
    NestedJoinLookupsFirst(jm);
    NestedJoinLookupsSecond(jm);
  }

  lemma NestedJoinLookupsFirst(jm: JoinManager)
    requires jm.emitted == NestedEmission && jm.details == NestedJoinDetails && jm.sourceRelationship == None
    ensures jm.SourceJoinDetails(None) == RootOf("posts", "posts")
    ensures jm.JoinDetailsByRelationship(PostComments) == Hop1("comments", Left, PostComments, "comments")
    ensures jm.JoinDetailsByRelationship(PostAuthor) == Hop1("people", Left, PostAuthor, "people")
  {
    var es := NestedEmission;
    FirstEndingAt(es, Segment(PostComments, "comments"), 1);
    FirstEndingAt(es, Segment(PostAuthor, "people"), 2);
  }

  lemma NestedJoinLookupsSecond(jm: JoinManager)
    requires jm.emitted == NestedEmission && jm.details == NestedJoinDetails && jm.sourceRelationship == None
    ensures jm.JoinDetailsByRelationship(CommentAuthor) == Hop1("authors_comments", Left, CommentAuthor, "people")
    ensures jm.JoinDetailsByRelationship(CommentTags) == Hop1("tags", Left, CommentTags, "tags")
  {
    var es := NestedEmission;
    FirstEndingAt(es, Segment(CommentAuthor, "people"), 3);
    FirstEndingAt(es, Segment(CommentTags, "tags"), 4);
  }

  /** The lookups after joining a manager on posts whose keys are the nested keys, with or without fields. */
  lemma NestedKeysJoin(jm: JoinManager)
    requires jm.Resolved() && jm.Valid() && jm.joined
    requires jm.catalog == Fixture && jm.resourceType == "posts" && jm.sourceRelationship == None
    requires CommentsFirstKeys(jm.Keys())
    ensures jm.SourceJoinDetails(None) == RootOf("posts", "posts")
    ensures jm.JoinDetailsByRelationship(PostComments) == Hop1("comments", Left, PostComments, "comments")
    ensures jm.JoinDetailsByRelationship(CommentAuthor) == Hop1("authors_comments", Left, CommentAuthor, "people")
    ensures jm.JoinDetailsByRelationship(CommentTags) == Hop1("tags", Left, CommentTags, "tags")
    ensures jm.JoinDetailsByRelationship(PostAuthor) == Hop1("people", Left, PostAuthor, "people")
  {
    CommentsFirstState(jm);
    NestedJoinLookups(jm);
  }

  /**
   * A manager on posts filtering on `comments.author`, `comments.tags` and
   * `author`: posts' comments and author keep their table names, comments'
   * author becomes `authors_comments`, comments' tags `tags`, all joined
   * `left`.
   */
  lemma CommentsFirstJoin(jm: JoinManager)
    requires jm.Resolved() && jm.Valid() && jm.joined
    requires jm.catalog == Fixture && jm.resourceType == "posts" && jm.sourceRelationship == None
    requires jm.Keys() == [Dot("comments", "author"), Dot("comments", "tags"), "author"]
    ensures jm.SourceJoinDetails(None) == RootOf("posts", "posts")
    ensures jm.JoinDetailsByRelationship(PostComments) == Hop1("comments", Left, PostComments, "comments")
    ensures jm.JoinDetailsByRelationship(CommentAuthor) == Hop1("authors_comments", Left, CommentAuthor, "people")
    ensures jm.JoinDetailsByRelationship(CommentTags) == Hop1("tags", Left, CommentTags, "tags")
    ensures jm.JoinDetailsByRelationship(PostAuthor) == Hop1("people", Left, PostAuthor, "people")
  {
    NestedKeysJoin(jm);
  }

  /**
   * The same filters ending in the fields `name`, `id` and `foo`: the fields
   * add no join, so the aliases and join types are the same.
   */
  lemma CommentsFieldsJoin(jm: JoinManager)
    requires jm.Resolved() && jm.Valid() && jm.joined
    requires jm.catalog == Fixture && jm.resourceType == "posts" && jm.sourceRelationship == None
    requires jm.Keys() == [Dot("comments", Dot("author", "name")), Dot("comments", Dot("tags", "id")), Dot("author", "foo")]
    ensures jm.SourceJoinDetails(None) == RootOf("posts", "posts")
    ensures jm.JoinDetailsByRelationship(PostComments) == Hop1("comments", Left, PostComments, "comments")
    ensures jm.JoinDetailsByRelationship(CommentAuthor) == Hop1("authors_comments", Left, CommentAuthor, "people")
    ensures jm.JoinDetailsByRelationship(CommentTags) == Hop1("tags", Left, CommentTags, "tags")
    ensures jm.JoinDetailsByRelationship(PostAuthor) == Hop1("people", Left, PostAuthor, "people")
  {
    NestedKeysJoin(jm);
  }

  // The same keys with `author` first.

  const AuthorFirstEmission: seq<Position> := [[], AuthorNode, CommentsNode, CommentAuthorNode, CommentTagsNode]

  predicate AuthorFirstKeys(keys: seq<string>)
  {
    keys == ["author", Dot("comments", "author"), Dot("comments", "tags")]
  }

  lemma AuthorFirstPaths(keys: seq<string>)
    requires AuthorFirstKeys(keys)
    ensures ResolveAll(Fixture, "posts", None, keys).Success?
    ensures var paths := ResolveAll(Fixture, "posts", None, keys).value;
            |paths| == 3 && paths[0].hops == AuthorHops && paths[1].hops == CommentAuthorHops && paths[2].hops == CommentTagsHops
  {
    assert NestedHops(keys[0]) == AuthorHops && NestedHops(keys[1]) == CommentAuthorHops && NestedHops(keys[2]) == CommentTagsHops;
    NestedPaths(keys);
  }

  lemma AuthorFirstRegistrations(paths: seq<ResolvedPath>)
    requires |paths| == 3
    requires paths[0].hops == AuthorHops && paths[1].hops == CommentAuthorHops && paths[2].hops == CommentTagsHops
    ensures Contributions(None, paths) ==
            [Registration([], Root), Registration(AuthorNode, Left), Registration(CommentsNode, Left),
             Registration(CommentAuthorNode, Left), Registration(CommentsNode, Left), Registration(CommentTagsNode, Left)]
  {
    ExpandTwoPlain(PostComments, "comments", CommentAuthor, "people");
    ExpandTwoPlain(PostComments, "comments", CommentTags, "tags");
    ExpandPlainHop(PostAuthor, "people");
    var rc, rca, rct, ra := Registration(CommentsNode, Left), Registration(CommentAuthorNode, Left),
                            Registration(CommentTagsNode, Left), Registration(AuthorNode, Left);
    assert WithType([CommentsNode, CommentAuthorNode], Left) == [rc, rca];
    assert WithType([CommentsNode, CommentTagsNode], Left) == [rc, rct];
    assert WithType([AuthorNode], Left) == [ra];
    PathRegistrationsThree(paths, [ra], [rc, rca], [rc, rct]);
  }

  lemma AuthorFirstRegisterSteps()
    ensures RegisterAll([Registration([], Root), Registration(AuthorNode, Left), Registration(CommentsNode, Left),
                         Registration(CommentAuthorNode, Left), Registration(CommentsNode, Left), Registration(CommentTagsNode, Left)]) ==
            Registry(AuthorFirstEmission, NestedTypes)
  {
    var r0, rc, rca, rct, ra := Registration([], Root), Registration(CommentsNode, Left), Registration(CommentAuthorNode, Left),
                                Registration(CommentTagsNode, Left), Registration(AuthorNode, Left);
    var m1 := map[[] := Root];
    var m2 := m1[AuthorNode := Left];
    var m3 := m2[CommentsNode := Left];
    var m4 := m3[CommentAuthorNode := Left];
    var o1: seq<Position> := [[]];
    var o2 := o1 + [AuthorNode];
    var o3 := o2 + [CommentsNode];
    var o4 := o3 + [CommentAuthorNode];
    var cs1 := [r0];
    var cs2 := cs1 + [ra];
    var cs3 := cs2 + [rc];
    var cs4 := cs3 + [rca];
    var cs5 := cs4 + [rc];
    assert [] + [r0] == cs1 && [] + [[]] == o1;
    RegisterAllNew([], r0, [], map[]);
    RegisterAllNew(cs1, ra, o1, m1);
    assert AuthorNode[0] != CommentsNode[0];
    RegisterAllNew(cs2, rc, o2, m2);
    RegisterAllNew(cs3, rca, o3, m3);
    RegisterAllAgain(cs4, rc, o4, m4);
    assert CommentTagsNode[1] != CommentAuthorNode[1];
    RegisterAllNew(cs5, rct, o4, m4);
    assert cs5 + [rct] == [r0, ra, rc, rca, rc, rct];
    assert o4 + [CommentTagsNode] == AuthorFirstEmission;
    assert m4[CommentTagsNode := Left] == NestedTypes;
  }

  /** Registering `author` first lists the author node first; nothing deeper comes before a shallower node. */
  lemma AuthorFirstPlan(paths: seq<ResolvedPath>)
    requires |paths| == 3
    requires paths[0].hops == AuthorHops && paths[1].hops == CommentAuthorHops && paths[2].hops == CommentTagsHops
    ensures RegisterAll(Contributions(None, paths)) == Registry(AuthorFirstEmission, NestedTypes)
    ensures EmissionOrder(AuthorFirstEmission) == AuthorFirstEmission
  {
    AuthorFirstRegistrations(paths);
    AuthorFirstRegisterSteps();
    EmissionOfNeighbourSorted(AuthorFirstEmission);
  }

  /** The details after the root, posts' author and posts' comments, in that order. */
  const AuthorLevelOne := map[[] := RootOf("posts", "posts").value,
                              AuthorNode := Entry("people", Left, AuthorNode),
                              CommentsNode := Entry("comments", Left, CommentsNode)]

  const AuthorLevelTwo := AuthorLevelOne[CommentAuthorNode := Entry("authors_comments", Left, CommentAuthorNode)]

  /** Recording the author before or after the comments gives the same details. */
  lemma AuthorFirstSameDetails()
    ensures AuthorLevelTwo[CommentTagsNode := Entry("tags", Left, CommentTagsNode)] == NestedJoinDetails
  {
    assert AuthorNode != CommentsNode by {
      assert AuthorNode[0].relationship.name != CommentsNode[0].relationship.name;
    }
  }

  /** With the author emitted first, it takes `people`, and comments' author again becomes `authors_comments`. */
  lemma AuthorFirstDetails()
    ensures Perform(Fixture, "posts", NestedTypes, AuthorFirstEmission).details == NestedJoinDetails
  {
    AuthorFirstCommentAuthor();
    FixtureTables();
    PerformAfter(Fixture, "posts", NestedTypes, [[], AuthorNode, CommentsNode, CommentAuthorNode], CommentTagsNode,
                 {"posts", "comments", "people", "authors_comments"}, AuthorLevelTwo, "tags");
    SnocFour([], AuthorNode, CommentsNode, CommentAuthorNode, CommentTagsNode);
    AuthorFirstSameDetails();
  }

  lemma AuthorFirstCommentAuthor()
    ensures EmittedAs(Fixture, "posts", NestedTypes, [[], AuthorNode, CommentsNode, CommentAuthorNode],
                      {"posts", "comments", "people", "authors_comments"}, AuthorLevelTwo)
  {
    AuthorFirstLevel();
    CommentAuthorAlias({"posts", "comments", "people"});
    PerformAfter(Fixture, "posts", NestedTypes, [[], AuthorNode, CommentsNode], CommentAuthorNode,
                 {"posts", "comments", "people"}, AuthorLevelOne, "authors_comments");
    SnocThree([], AuthorNode, CommentsNode, CommentAuthorNode);
  }

  /** The root keeps `posts`; posts' author takes its free table name. */
  lemma AuthorLevel()
    ensures EmittedAs(Fixture, "posts", NestedTypes, [[], AuthorNode], {"posts", "people"},
                      map[[] := RootOf("posts", "posts").value, AuthorNode := Entry("people", Left, AuthorNode)])
  {
    FixtureTables();
    RootEmitted(Fixture, "posts", NestedTypes, "posts");
    PerformAfter(Fixture, "posts", NestedTypes, [[]], AuthorNode, {"posts"}, map[[] := RootOf("posts", "posts").value], "people");
    SnocOne([], AuthorNode);
  }

  /** The rest of the first level: posts' comments take their free table name. */
  lemma AuthorFirstLevel()
    ensures EmittedAs(Fixture, "posts", NestedTypes, [[], AuthorNode, CommentsNode], {"posts", "comments", "people"}, AuthorLevelOne)
  {
    AuthorLevel();
    FixtureTables();
    PerformAfter(Fixture, "posts", NestedTypes, [[], AuthorNode], CommentsNode, {"posts", "people"},
                 map[[] := RootOf("posts", "posts").value, AuthorNode := Entry("people", Left, AuthorNode)], "comments");
    SnocTwo([], AuthorNode, CommentsNode);
  }

  lemma AuthorFirstLookups(jm: JoinManager)
    requires jm.emitted == AuthorFirstEmission && jm.details == NestedJoinDetails && jm.sourceRelationship == None
    ensures jm.SourceJoinDetails(None) == RootOf("posts", "posts")
    ensures jm.JoinDetailsByRelationship(PostComments) == Hop1("comments", Left, PostComments, "comments")
    ensures jm.JoinDetailsByRelationship(PostAuthor) == Hop1("people", Left, PostAuthor, "people")
    ensures jm.JoinDetailsByRelationship(CommentAuthor) == Hop1("authors_comments", Left, CommentAuthor, "people")
    ensures jm.JoinDetailsByRelationship(CommentTags) == Hop1("tags", Left, CommentTags, "tags")
  {
    AuthorFirstLookupsFirst(jm);
    AuthorFirstLookupsSecond(jm);
  }

  lemma AuthorFirstLookupsFirst(jm: JoinManager)
    requires jm.emitted == AuthorFirstEmission && jm.details == NestedJoinDetails && jm.sourceRelationship == None
    ensures jm.SourceJoinDetails(None) == RootOf("posts", "posts")
    ensures jm.JoinDetailsByRelationship(PostComments) == Hop1("comments", Left, PostComments, "comments")
    ensures jm.JoinDetailsByRelationship(PostAuthor) == Hop1("people", Left, PostAuthor, "people")
  {
    var es := AuthorFirstEmission;
    FirstEndingAt(es, Segment(PostAuthor, "people"), 1);
    FirstEndingAt(es, Segment(PostComments, "comments"), 2);
  }

  lemma AuthorFirstLookupsSecond(jm: JoinManager)
    requires jm.emitted == AuthorFirstEmission && jm.details == NestedJoinDetails && jm.sourceRelationship == None
    ensures jm.JoinDetailsByRelationship(CommentAuthor) == Hop1("authors_comments", Left, CommentAuthor, "people")
    ensures jm.JoinDetailsByRelationship(CommentTags) == Hop1("tags", Left, CommentTags, "tags")
  {
    var es := AuthorFirstEmission;
    FirstEndingAt(es, Segment(CommentAuthor, "people"), 3);
    FirstEndingAt(es, Segment(CommentTags, "tags"), 4);
  }

  lemma AuthorFirstState(jm: JoinManager)
    requires jm.Resolved() && jm.Valid() && jm.joined
    requires jm.catalog == Fixture && jm.resourceType == "posts" && jm.sourceRelationship == None
    requires AuthorFirstKeys(jm.Keys())
    ensures jm.emitted == AuthorFirstEmission && jm.details == NestedJoinDetails
  {
    AuthorFirstPaths(jm.Keys());
    AuthorFirstPlan(jm.paths);
    AuthorFirstDetails();
  }

  /**
   * The same filters with `author` first: the registration order changes, the
   * aliases do not.
   */
  lemma AuthorFirstJoin(jm: JoinManager)
    requires jm.Resolved() && jm.Valid() && jm.joined
    requires jm.catalog == Fixture && jm.resourceType == "posts" && jm.sourceRelationship == None
    requires AuthorFirstKeys(jm.Keys())
    ensures jm.SourceJoinDetails(None) == RootOf("posts", "posts")
    ensures jm.JoinDetailsByRelationship(PostComments) == Hop1("comments", Left, PostComments, "comments")
    ensures jm.JoinDetailsByRelationship(CommentAuthor) == Hop1("authors_comments", Left, CommentAuthor, "people")
    ensures jm.JoinDetailsByRelationship(CommentTags) == Hop1("tags", Left, CommentTags, "tags")
    ensures jm.JoinDetailsByRelationship(PostAuthor) == Hop1("people", Left, PostAuthor, "people")
  {
    AuthorFirstState(jm);
    AuthorFirstLookups(jm);
  }

  // Sibling joins: posts' tags and posts' author.

  const SiblingTypes := map[[] := Root, TagsNode := Left, AuthorNode := Left]

  const SiblingEmission: seq<Position> := [[], TagsNode, AuthorNode]

  const SiblingDetails := map[[] := RootOf("posts", "posts").value,
                              TagsNode := Entry("tags", Left, TagsNode),
                              AuthorNode := Entry("people", Left, AuthorNode)]

  lemma TagsKey(k: string)
    requires k == "tags"
    ensures ResolveKey(Fixture, "posts", None, k) == Success(ResolvedPath([Hop(PostTags, None)], None))
  {
    assert FindRelationship(Fixture, Some("posts"), "tags") == Some(PostTags);
    ResolveRelationship("posts", "tags", PostTags);
  }

  lemma AuthorKey(k: string)
    requires k == "author"
    ensures ResolveKey(Fixture, "posts", None, k).Success? && ResolveKey(Fixture, "posts", None, k).value.hops == AuthorHops
  {
    ResolveAuthorKey(k);
  }

  /** Two keys that each resolve make a plan that resolves. */
  lemma ResolveAllTwo(catalog: Catalog, root: ResourceType, source: Option<Relationship>, keys: seq<string>)
    requires |keys| == 2
    requires ResolveKey(catalog, root, source, keys[0]).Success? && ResolveKey(catalog, root, source, keys[1]).Success?
    ensures ResolveAll(catalog, root, source, keys).Success?
  {
    forall i | 0 <= i < |keys|
      ensures ResolveKey(catalog, root, source, keys[i]).Success?
    {
      if i == 0 {
      } else {
        assert i == 1;
      }
    }
  }

  /** The keys `tags` and `author` resolve to one hop each. */
  lemma SiblingPaths(keys: seq<string>)
    requires |keys| == 2 && keys[0] == "tags" && keys[1] == "author"
    ensures ResolveAll(Fixture, "posts", None, keys).Success?
    ensures var paths := ResolveAll(Fixture, "posts", None, keys).value;
            |paths| == 2 && paths[0].hops == [Hop(PostTags, None)] && paths[1].hops == AuthorHops
  {
    TagsKey(keys[0]);
    AuthorKey(keys[1]);
    ResolveAllTwo(Fixture, "posts", None, keys);
  }

  /** The registrations of two paths, given those of each path. */
  lemma PathRegistrationsTwo(paths: seq<ResolvedPath>, r0: seq<Registration>, r1: seq<Registration>)
    requires |paths| == 2
    requires WithType(Expand(paths[0].hops), Left) == r0 && WithType(Expand(paths[1].hops), Left) == r1
    ensures PathRegistrations(paths) == r0 + r1
  {
    assert paths[..1][..0] == [];
    assert PathRegistrations(paths[..1]) == r0;
  }

  /** Registering the root, the tags node and the author node, each once. */
  lemma {:induction false} SiblingPlan(paths: seq<ResolvedPath>)
    requires |paths| == 2 && paths[0].hops == [Hop(PostTags, None)] && paths[1].hops == AuthorHops
    ensures RegisterAll(Contributions(None, paths)) == Registry(SiblingEmission, SiblingTypes)
  {
    ExpandPlainHop(PostTags, "tags");
    ExpandPlainHop(PostAuthor, "people");
    var r0, rt, ra := Registration([], Root), Registration(TagsNode, Left), Registration(AuthorNode, Left);
    assert WithType([TagsNode], Left) == [rt] && WithType([AuthorNode], Left) == [ra];
    PathRegistrationsTwo(paths, [rt], [ra]);
    assert Contributions(None, paths) == [r0, rt, ra];
    SiblingRegisterSteps();
  }

  lemma SiblingRegisterSteps()
    ensures RegisterAll([Registration([], Root), Registration(TagsNode, Left), Registration(AuthorNode, Left)]) ==
            Registry(SiblingEmission, SiblingTypes)
  {
    var r0, rt, ra := Registration([], Root), Registration(TagsNode, Left), Registration(AuthorNode, Left);
    var m1 := map[[] := Root];
    var m2 := m1[TagsNode := Left];
    var o1: seq<Position> := [[]];
    var o2 := o1 + [TagsNode];
    assert [] + [r0] == [r0] && [] + [[]] == o1;
    RegisterAllNew([], r0, [], map[]);
    RegisterAllNew([r0], rt, o1, m1);
    assert AuthorNode[0] != TagsNode[0];
    RegisterAllNew([r0, rt], ra, o2, m2);
    assert [r0, rt] + [ra] == [r0, rt, ra] && [r0] + [rt] == [r0, rt];
    assert o2 + [AuthorNode] == SiblingEmission;
  }

  /** Both siblings are one hop deep, so they are emitted in registration order. */
  lemma SiblingOrder()
    ensures EmissionOrder(SiblingEmission) == SiblingEmission
  {
    EmissionOfNeighbourSorted(SiblingEmission);
  }

  /** Both siblings keep their free table names. */
  lemma SiblingJoined()
    ensures Perform(Fixture, "posts", SiblingTypes, [[], TagsNode, AuthorNode]).details ==
            map[[] := RootOf("posts", "posts").value, TagsNode := Entry("tags", Left, TagsNode), AuthorNode := Entry("people", Left, AuthorNode)]
  {
    FixtureTables();
    var types := SiblingTypes;
    var es1: seq<Position> := [[]];
    var es2 := es1 + [TagsNode];
    PerformRoot(Fixture, "posts", types);
    PerformNext(Fixture, "posts", types, es1, TagsNode, "tags");
    PerformNext(Fixture, "posts", types, es2, AuthorNode, "people");
    assert es2 + [AuthorNode] == [[], TagsNode, AuthorNode];
  }

  lemma SiblingState(jm: JoinManager)
    requires jm.Resolved() && jm.Valid() && jm.joined
    requires jm.catalog == Fixture && jm.resourceType == "posts" && jm.sourceRelationship == None
    requires |jm.Keys()| == 2 && jm.Keys()[0] == "tags" && jm.Keys()[1] == "author"
    ensures jm.emitted == SiblingEmission && jm.details == SiblingDetails
  {
    SiblingPaths(jm.Keys());
    SiblingPlan(jm.paths);
    SiblingOrder();
    SiblingJoined();
  }

  /**
   * A manager on posts filtering on `tags` and then `author`: the tags join
   * comes before the author join, the source details are the root's, posts'
   * tags are joined `left` as `tags` and posts' author `left` as `people`.
   */
  lemma SiblingJoin(jm: JoinManager)
    requires jm.Resolved() && jm.Valid() && jm.joined
    requires jm.catalog == Fixture && jm.resourceType == "posts" && jm.sourceRelationship == None
    requires |jm.Keys()| == 2 && jm.Keys()[0] == "tags" && jm.Keys()[1] == "author"
    ensures jm.emitted == [[], TagsNode, AuthorNode]
    ensures jm.SourceJoinDetails(None) == RootOf("posts", "posts")
    ensures jm.JoinDetailsByRelationship(PostTags) == Hop1("tags", Left, PostTags, "tags")
    ensures jm.JoinDetailsByRelationship(PostAuthor) == Hop1("people", Left, PostAuthor, "people")
  {
    SiblingState(jm);
    SiblingLookups(jm);
  }

  lemma SiblingLookups(jm: JoinManager)
    requires jm.emitted == SiblingEmission && jm.details == SiblingDetails && jm.sourceRelationship == None
    ensures jm.SourceJoinDetails(None) == RootOf("posts", "posts")
    ensures jm.JoinDetailsByRelationship(PostTags) == Hop1("tags", Left, PostTags, "tags")
    ensures jm.JoinDetailsByRelationship(PostAuthor) == Hop1("people", Left, PostAuthor, "people")
  {
    var es := SiblingEmission;
    FirstEndingAt(es, Segment(PostTags, "tags"), 1);
    FirstEndingAt(es, Segment(PostAuthor, "people"), 2);
  }

  // ---------------------------------------------------------------------------
  // Joins through the source relationship: posts' comments
  // ---------------------------------------------------------------------------

  const SourceTypes := map[[] := Root, CommentsNode := Inner]

  /** With posts' comments as the source and no keys, the registry holds the root and the comments node, joined `inner`. */
  lemma SourceOnlyPlan()
    ensures RegisterAll(Contributions(Some(PostComments), [])) == Registry([[], CommentsNode], SourceTypes)
    ensures EmissionOrder([[], CommentsNode]) == [[], CommentsNode]
  {
    var r0, rc := Registration([], Root), Registration(CommentsNode, Inner);
    assert SourcePositions(Some(PostComments)) == [CommentsNode];
    assert WithType([CommentsNode], Inner) == [rc];
    assert Contributions(Some(PostComments), []) == [r0] + [rc];
    assert [] + [r0] == [r0];
    RegisterAllNew([], r0, [], map[]);
    RegisterAllNew([r0], rc, [[]], map[[] := Root]);
    EmissionOfNeighbourSorted([[], CommentsNode]);
  }

  lemma SourceOnlyDetails()
    ensures Perform(Fixture, "posts", SourceTypes, [[], CommentsNode]).details ==
            map[[] := RootOf("posts", "posts").value, CommentsNode := Entry("comments", Inner, CommentsNode)]
  {
    FixtureTables();
    var es1: seq<Position> := [[]];
    PerformRoot(Fixture, "posts", SourceTypes);
    PerformNext(Fixture, "posts", SourceTypes, es1, CommentsNode, "comments");
    assert es1 + [CommentsNode] == [[], CommentsNode];
  }

  /**
   * A manager on posts with posts' comments as its source relationship and no
   * keys: the source details are an `inner` join aliased `comments`.
   */
  lemma SourceOnlyJoin(jm: JoinManager)
    requires jm.Resolved() && jm.Valid() && jm.joined
    requires jm.catalog == Fixture && jm.resourceType == "posts" && jm.sourceRelationship == Some(PostComments)
    requires jm.Keys() == []
    ensures jm.SourceJoinDetails(None) == Hop1("comments", Inner, PostComments, "comments")
  {
    assert jm.paths == [];
    SourceOnlyPlan();
    SourceOnlyDetails();
    assert DefaultTarget(PostComments) == Some("comments");
  }

  // Paths below the source: `author`, `author.comments` and `tags` of posts' comments.

  const CommentAuthorCommentsHops := [Hop(PostComments, None), Hop(CommentAuthor, None), Hop(PersonComments, None)]

  const CommentAuthorCommentsNode: Position :=
    [Segment(PostComments, "comments"), Segment(CommentAuthor, "people"), Segment(PersonComments, "comments")]

  lemma SourcedRelationships()
    ensures FindRelationship(Fixture, Some("comments"), "author") == Some(CommentAuthor)
    ensures FindRelationship(Fixture, Some("comments"), "tags") == Some(CommentTags)
    ensures FindRelationship(Fixture, Some("people"), "comments") == Some(PersonComments)
  {
  }

  /** A key relative to posts' comments is resolved from posts as `comments.<key>`. */
  lemma SourcedKeyResolves(k: string, hops: seq<Hop>, field: Option<string>, full: seq<Hop>)
    requires Resolve(Fixture, "comments", k) == Success(ResolvedPath(hops, field))
    requires full == [Hop(PostComments, None)] + hops
    ensures ResolveKey(Fixture, "posts", Some(PostComments), k) == Success(ResolvedPath(full, field))
  {
    assert SourcedPath(Some(PostComments), k) == Dot("comments", k);
    ResolveCommentsKey(k, hops, field);
  }

  lemma SourcedAuthor(k: string)
    requires k == "author"
    ensures ResolveKey(Fixture, "posts", Some(PostComments), k) == Success(ResolvedPath(CommentAuthorHops, None))
  {
    CommentsAuthorKey(k);
    SourcedKeyResolves(k, [Hop(CommentAuthor, None)], None, CommentAuthorHops);
  }

  /** `author` from comments is the one hop along comments' author. */
  lemma CommentsAuthorKey(k: string)
    requires k == "author"
    ensures Resolve(Fixture, "comments", k) == Success(ResolvedPath([Hop(CommentAuthor, None)], None))
  {
    SourcedRelationships();
    ResolveRelationship("comments", k, CommentAuthor);
  }

  lemma SourcedTags(k: string)
    requires k == "tags"
    ensures ResolveKey(Fixture, "posts", Some(PostComments), k) == Success(ResolvedPath(CommentTagsHops, None))
  {
    CommentsTagsKey(k);
    SourcedKeyResolves(k, [Hop(CommentTags, None)], None, CommentTagsHops);
  }

  /** `tags` from comments is the one hop along comments' tags. */
  lemma CommentsTagsKey(k: string)
    requires k == "tags"
    ensures Resolve(Fixture, "comments", k) == Success(ResolvedPath([Hop(CommentTags, None)], None))
  {
    SourcedRelationships();
    ResolveRelationship("comments", k, CommentTags);
  }

  /** A key `a.b` through a plain relationship `a` and then a relationship `b` of its target resolves to two hops. */
  lemma ResolveTwoRelationships(from: ResourceType, a: string, rel: Relationship, t: ResourceType,
                                b: string, rel2: Relationship, k: string, hops: seq<Hop>)
    requires PlainStep(from, a, rel, t)
    requires PathSeparator !in b && TypeSeparator !in b && b != "" && FindRelationship(Fixture, Some(t), b) == Some(rel2)
    requires k == Dot(a, b) && hops == [Hop(rel, None), Hop(rel2, None)]
    ensures Resolve(Fixture, from, k) == Success(ResolvedPath(hops, None))
  {
    ResolveRelationship(t, b, rel2);
    ResolveDottedTo(from, a, rel, t, b, [Hop(rel2, None)], None, hops);
  }

  lemma CommentsAuthorStep()
    ensures PlainStep("comments", "author", CommentAuthor, "people")
  {
  }

  /** `author.comments` resolves from comments through their author, then the author's comments. */
  lemma CommentsAuthorComments(k: string)
    requires k == Dot("author", "comments")
    ensures Resolve(Fixture, "comments", k) == Success(ResolvedPath([Hop(CommentAuthor, None), Hop(PersonComments, None)], None))
  {
    CommentsAuthorStep();
    SourcedRelationships();
    ResolveTwoRelationships("comments", "author", CommentAuthor, "people", "comments", PersonComments, k,
                            [Hop(CommentAuthor, None), Hop(PersonComments, None)]);
  }

  lemma SourcedAuthorComments(k: string)
    requires k == Dot("author", "comments")
    ensures ResolveKey(Fixture, "posts", Some(PostComments), k) == Success(ResolvedPath(CommentAuthorCommentsHops, None))
  {
    CommentsAuthorComments(k);
    SourcedKeyResolves(k, [Hop(CommentAuthor, None), Hop(PersonComments, None)], None, CommentAuthorCommentsHops);
  }

  /** Three keys that each resolve make a plan that resolves. */
  lemma ResolveAllThree(catalog: Catalog, root: ResourceType, source: Option<Relationship>, keys: seq<string>)
    requires |keys| == 3
    requires ResolveKey(catalog, root, source, keys[0]).Success? && ResolveKey(catalog, root, source, keys[1]).Success?
    requires ResolveKey(catalog, root, source, keys[2]).Success?
    ensures ResolveAll(catalog, root, source, keys).Success?
  {
    forall i | 0 <= i < |keys|
      ensures ResolveKey(catalog, root, source, keys[i]).Success?
    {
      if i == 0 {
      } else if i == 1 {
      } else {
        assert i == 2;
      }
    }
  }

  /** They resolve, in order, to the hops of comments' author, of its comments, and of comments' tags. */
  lemma SubRelationshipPaths(keys: seq<string>)
    requires |keys| == 3 && keys[0] == "author" && keys[1] == Dot("author", "comments") && keys[2] == "tags"
    ensures ResolveAll(Fixture, "posts", Some(PostComments), keys).Success?
    ensures var paths := ResolveAll(Fixture, "posts", Some(PostComments), keys).value;
            && |paths| == 3 && paths[0].hops == CommentAuthorHops
            && paths[1].hops == CommentAuthorCommentsHops && paths[2].hops == CommentTagsHops
  {
    SourcedAuthor(keys[0]);
    SourcedAuthorComments(keys[1]);
    SourcedTags(keys[2]);
    ResolveAllThree(Fixture, "posts", Some(PostComments), keys);
  }

  /** Three plain hops create a node per prefix of the path. */
  lemma ExpandThreePlain(r1: Relationship, t1: ResourceType, r2: Relationship, t2: ResourceType, r3: Relationship, t3: ResourceType)
    requires r1.targets == [t1] && r2.targets == [t2] && r3.targets == [t3]
    ensures Expand([Hop(r1, None), Hop(r2, None), Hop(r3, None)]) ==
            [[Segment(r1, t1)], [Segment(r1, t1), Segment(r2, t2)], [Segment(r1, t1), Segment(r2, t2), Segment(r3, t3)]]
  {
    ExpandPlainCons(r1, t1, [Hop(r2, None), Hop(r3, None)]);
    assert [Hop(r1, None), Hop(r2, None), Hop(r3, None)] == [Hop(r1, None)] + [Hop(r2, None), Hop(r3, None)];
    ExpandTwoPlain(r2, t2, r3, t3);
    var s1, s2, s3 := Segment(r1, t1), Segment(r2, t2), Segment(r3, t3);
    assert Prefixed(s1, [[s2], [s2, s3]]) == [[s1] + [s2], [s1] + [s2, s3]];
    assert [s1] + [s2] == [s1, s2] && [s1] + [s2, s3] == [s1, s2, s3];
  }

  const SubTypes := map[[] := Root, CommentsNode := Inner, CommentAuthorNode := Left,
                        CommentAuthorCommentsNode := Left, CommentTagsNode := Left]

  /** The registrations below the source: each path lists the comments node again, `left`. */
  lemma SubRelationshipRegistrations(paths: seq<ResolvedPath>)
    requires |paths| == 3
    requires paths[0].hops == CommentAuthorHops && paths[1].hops == CommentAuthorCommentsHops && paths[2].hops == CommentTagsHops
    ensures Contributions(Some(PostComments), paths) ==
            [Registration([], Root), Registration(CommentsNode, Inner),
             Registration(CommentsNode, Left), Registration(CommentAuthorNode, Left),
             Registration(CommentsNode, Left), Registration(CommentAuthorNode, Left), Registration(CommentAuthorCommentsNode, Left),
             Registration(CommentsNode, Left), Registration(CommentTagsNode, Left)]
  {
    SubPathRegistrations(paths);
    assert SourcePositions(Some(PostComments)) == [CommentsNode];
    assert WithType([CommentsNode], Inner) == [Registration(CommentsNode, Inner)];
  }

  lemma {:induction false} SubPathRegistrations(paths: seq<ResolvedPath>)
    requires |paths| == 3
    requires paths[0].hops == CommentAuthorHops && paths[1].hops == CommentAuthorCommentsHops && paths[2].hops == CommentTagsHops
    ensures PathRegistrations(paths) ==
            [Registration(CommentsNode, Left), Registration(CommentAuthorNode, Left),
             Registration(CommentsNode, Left), Registration(CommentAuthorNode, Left), Registration(CommentAuthorCommentsNode, Left),
             Registration(CommentsNode, Left), Registration(CommentTagsNode, Left)]
  {
    ExpandTwoPlain(PostComments, "comments", CommentAuthor, "people");
    ExpandThreePlain(PostComments, "comments", CommentAuthor, "people", PersonComments, "comments");
    ExpandTwoPlain(PostComments, "comments", CommentTags, "tags");
    var rc, rca, rcac, rct := Registration(CommentsNode, Left), Registration(CommentAuthorNode, Left),
                              Registration(CommentAuthorCommentsNode, Left), Registration(CommentTagsNode, Left);
    assert WithType([CommentsNode, CommentAuthorNode], Left) == [rc, rca];
    assert WithType([CommentsNode, CommentAuthorNode, CommentAuthorCommentsNode], Left) == [rc, rca, rcac];
    assert WithType([CommentsNode, CommentTagsNode], Left) == [rc, rct];
    PathRegistrationsThree(paths, [rc, rca], [rc, rca, rcac], [rc, rct]);
  }

  /** The registrations of three paths, given those of each path. */
  lemma PathRegistrationsThree(paths: seq<ResolvedPath>, r0: seq<Registration>, r1: seq<Registration>, r2: seq<Registration>)
    requires |paths| == 3
    requires WithType(Expand(paths[0].hops), Left) == r0 && WithType(Expand(paths[1].hops), Left) == r1
    requires WithType(Expand(paths[2].hops), Left) == r2
    ensures PathRegistrations(paths) == r0 + r1 + r2
  {
    assert paths[..2][..1] == paths[..1] && paths[..1][..0] == [];
    assert PathRegistrations(paths[..1]) == r0;
    assert PathRegistrations(paths[..2]) == r0 + r1;
  }

  /** The first path below the source: comments stays `inner`, its author is added. */
  lemma SubRelationshipFirstSteps()
    ensures RegisterAll([Registration([], Root), Registration(CommentsNode, Inner),
                         Registration(CommentsNode, Left), Registration(CommentAuthorNode, Left)]) ==
            Registry([[], CommentsNode, CommentAuthorNode], map[[] := Root, CommentsNode := Inner, CommentAuthorNode := Left])
  {
    var r0, ri, rc, rca := Registration([], Root), Registration(CommentsNode, Inner), Registration(CommentsNode, Left),
                           Registration(CommentAuthorNode, Left);
    var m1 := map[[] := Root];
    var m2 := m1[CommentsNode := Inner];
    var o1: seq<Position> := [[]];
    var o2 := o1 + [CommentsNode];
    var cs1 := [r0];
    var cs2 := cs1 + [ri];
    var cs3 := cs2 + [rc];
    assert [] + [r0] == cs1 && [] + [[]] == o1;
    RegisterAllNew([], r0, [], map[]);
    RegisterAllNew(cs1, ri, o1, m1);
    RegisterAllAgain(cs2, rc, o2, m2);
    RegisterAllNew(cs3, rca, o2, m2);
    assert cs3 + [rca] == [r0, ri, rc, rca];
    assert o2 + [CommentAuthorNode] == [[], CommentsNode, CommentAuthorNode];
  }

  const SubMidTypes := map[[] := Root, CommentsNode := Inner, CommentAuthorNode := Left, CommentAuthorCommentsNode := Left]

  /** The first two paths below the source, along author and along the author's comments. */
  lemma SubRelationshipMidSteps()
    ensures RegisterAll([Registration([], Root), Registration(CommentsNode, Inner),
                         Registration(CommentsNode, Left), Registration(CommentAuthorNode, Left),
                         Registration(CommentsNode, Left), Registration(CommentAuthorNode, Left), Registration(CommentAuthorCommentsNode, Left)]) ==
            Registry([[], CommentsNode, CommentAuthorNode, CommentAuthorCommentsNode], SubMidTypes)
  {
    var rc, rca, rcac := Registration(CommentsNode, Left), Registration(CommentAuthorNode, Left),
                         Registration(CommentAuthorCommentsNode, Left);
    var m3 := map[[] := Root, CommentsNode := Inner, CommentAuthorNode := Left];
    var o3: seq<Position> := [[], CommentsNode, CommentAuthorNode];
    var cs4 := [Registration([], Root), Registration(CommentsNode, Inner), rc, rca];
    var cs5 := cs4 + [rc];
    var cs6 := cs5 + [rca];
    SubRelationshipFirstSteps();
    RegisterAllAgain(cs4, rc, o3, m3);
    RegisterAllAgain(cs5, rca, o3, m3);
    RegisterAllNew(cs6, rcac, o3, m3);
    assert m3[CommentAuthorCommentsNode := Left] == SubMidTypes;
    assert cs6 + [rcac] == [Registration([], Root), Registration(CommentsNode, Inner), rc, rca, rc, rca, rcac];
  }

  const SubOrder: seq<Position> := [[], CommentsNode, CommentAuthorNode, CommentAuthorCommentsNode, CommentTagsNode]

  /** After the first two paths, the last one adds comments' tags. */
  lemma SubTagsStep(cs: seq<Registration>)
    requires RegisterAll(cs) == Registry([[], CommentsNode, CommentAuthorNode, CommentAuthorCommentsNode], SubMidTypes)
    ensures RegisterAll(cs + [Registration(CommentsNode, Left), Registration(CommentTagsNode, Left)]) == Registry(SubOrder, SubTypes)
  {
    var rc, rct := Registration(CommentsNode, Left), Registration(CommentTagsNode, Left);
    var o6: seq<Position> := [[], CommentsNode, CommentAuthorNode, CommentAuthorCommentsNode];
    RegisterAllAgain(cs, rc, o6, SubMidTypes);
    assert CommentTagsNode[1] != CommentAuthorNode[1];
    RegisterAllNew(cs + [rc], rct, o6, SubMidTypes);
    assert SubMidTypes[CommentTagsNode := Left] == SubTypes;
    assert cs + [rc] + [rct] == cs + [rc, rct];
    assert o6 + [CommentTagsNode] == SubOrder;
  }

  /** The remaining paths add the author's comments and then comments' tags. */
  lemma SubRelationshipRegisterSteps()
    ensures RegisterAll([Registration([], Root), Registration(CommentsNode, Inner),
                         Registration(CommentsNode, Left), Registration(CommentAuthorNode, Left),
                         Registration(CommentsNode, Left), Registration(CommentAuthorNode, Left), Registration(CommentAuthorCommentsNode, Left),
                         Registration(CommentsNode, Left), Registration(CommentTagsNode, Left)]) ==
            Registry(SubOrder, SubTypes)
  {
    var rc, rca, rcac, rct := Registration(CommentsNode, Left), Registration(CommentAuthorNode, Left),
                              Registration(CommentAuthorCommentsNode, Left), Registration(CommentTagsNode, Left);
    var cs7 := [Registration([], Root), Registration(CommentsNode, Inner), rc, rca, rc, rca, rcac];
    SubRelationshipMidSteps();
    SubTagsStep(cs7);
    assert cs7 + [rc, rct] == [Registration([], Root), Registration(CommentsNode, Inner), rc, rca, rc, rca, rcac, rc, rct];
  }

  /** A depth-3 node registered before a depth-2 one is emitted after it. */
  lemma EmissionOfLateSibling(root: Position, a: Position, b: Position, c: Position, d: Position)
    requires |root| == 0 && |a| == 1 && |b| == 2 && |c| == 3 && |d| == 2
    ensures EmissionOrder([root, a, b, c, d]) == [root, a, b, d, c]
  {
    SwapLateSibling(root, a, b, c, d);
    EmissionOfNeighbourSorted([root, a, b, d, c]);
  }

  lemma SwapLateSibling(root: Position, a: Position, b: Position, c: Position, d: Position)
    requires |c| == 3 && |d| == 2
    ensures EmissionOrder([root, a, b, c, d]) == EmissionOrder([root, a, b, d, c])
  {
    var pre, x, y := [root, a, b], [c], [d];
    assert pre + x + y + [] == [root, a, b, c, d];
    assert pre + y + x + [] == [root, a, b, d, c];
    EmissionSwap(pre, x, y, []);
  }

  const SubEmission: seq<Position> := [[], CommentsNode, CommentAuthorNode, CommentTagsNode, CommentAuthorCommentsNode]

  /** The details once comments and their author are emitted. */
  const SubDetailsOne := map[[] := RootOf("posts", "posts").value,
                             CommentsNode := Entry("comments", Inner, CommentsNode),
                             CommentAuthorNode := Entry("people", Left, CommentAuthorNode)]

  /** The details once comments' tags are emitted too. */
  const SubDetailsTwo := SubDetailsOne[CommentTagsNode := Entry("tags", Left, CommentTagsNode)]

  const SubJoinDetails := SubDetailsTwo[CommentAuthorCommentsNode := Entry("comments_people", Left, CommentAuthorCommentsNode)]

  /** With posts' comments as the source, comments take their free table name. */
  lemma SubCommentsLevel()
    ensures EmittedAs(Fixture, "posts", SubTypes, [[], CommentsNode], {"posts", "comments"},
                      map[[] := RootOf("posts", "posts").value, CommentsNode := Entry("comments", Inner, CommentsNode)])
  {
    FixtureTables();
    RootEmitted(Fixture, "posts", SubTypes, "posts");
    PerformAfter(Fixture, "posts", SubTypes, [[]], CommentsNode, {"posts"}, map[[] := RootOf("posts", "posts").value], "comments");
    SnocOne([], CommentsNode);
  }

  /** Comments' author takes its free table name. */
  lemma SubFirstLevel()
    ensures EmittedAs(Fixture, "posts", SubTypes, [[], CommentsNode, CommentAuthorNode], {"posts", "comments", "people"}, SubDetailsOne)
  {
    SubCommentsLevel();
    FixtureTables();
    PerformAfter(Fixture, "posts", SubTypes, [[], CommentsNode], CommentAuthorNode, {"posts", "comments"},
                 map[[] := RootOf("posts", "posts").value, CommentsNode := Entry("comments", Inner, CommentsNode)], "people");
    SnocTwo([], CommentsNode, CommentAuthorNode);
  }

  /** Comments' tags take their free table name too. */
  lemma SubFirstLevels()
    ensures EmittedAs(Fixture, "posts", SubTypes, [[], CommentsNode, CommentAuthorNode, CommentTagsNode],
                      {"posts", "comments", "people", "tags"}, SubDetailsTwo)
  {
    SubFirstLevel();
    FixtureTables();
    PerformAfter(Fixture, "posts", SubTypes, [[], CommentsNode, CommentAuthorNode], CommentTagsNode,
                 {"posts", "comments", "people"}, SubDetailsOne, "tags");
    SnocThree([], CommentsNode, CommentAuthorNode, CommentTagsNode);
  }

  /** The alias of people's comments once `comments` is taken: the plural relationship name and the people table. */
  lemma PersonCommentsAlias(taken: set<string>)
    requires "comments" in taken && "comments_people" !in taken
    ensures AliasFor(Fixture, taken, Segment(PersonComments, "comments")) == "comments_people"
  {
    assert TableOf(Fixture, "comments") == "comments" && TableOf(Fixture, "people") == "people";
    assert Candidate(Fixture, Segment(PersonComments, "comments")) == "comments_people";
  }

  /** The author's comments, one level deeper, find `comments` taken by the source. */
  lemma SubDetails()
    ensures Perform(Fixture, "posts", SubTypes, SubEmission).details == SubJoinDetails
  {
    SubFirstLevels();
    PersonCommentsAlias({"posts", "comments", "people", "tags"});
    PerformAfter(Fixture, "posts", SubTypes, [[], CommentsNode, CommentAuthorNode, CommentTagsNode], CommentAuthorCommentsNode,
                 {"posts", "comments", "people", "tags"}, SubDetailsTwo, "comments_people");
    SnocFour([], CommentsNode, CommentAuthorNode, CommentTagsNode, CommentAuthorCommentsNode);
  }

  lemma SubRelationshipState(jm: JoinManager)
    requires jm.Resolved() && jm.Valid() && jm.joined
    requires jm.catalog == Fixture && jm.resourceType == "posts" && jm.sourceRelationship == Some(PostComments)
    requires |jm.Keys()| == 3
    requires jm.Keys()[0] == "author" && jm.Keys()[1] == Dot("author", "comments") && jm.Keys()[2] == "tags"
    ensures jm.emitted == SubEmission && jm.details == SubJoinDetails
  {
    SubRelationshipPaths(jm.Keys());
    SubRelationshipRegistrations(jm.paths);
    SubRelationshipRegisterSteps();
    EmissionOfLateSibling([], CommentsNode, CommentAuthorNode, CommentAuthorCommentsNode, CommentTagsNode);
    SubDetails();
  }

  /** The source relationship's lookups after joining `SubEmission`. */
  lemma SubRelationshipSourceLookups(jm: JoinManager)
    requires jm.emitted == SubEmission && jm.details == SubJoinDetails && jm.sourceRelationship == Some(PostComments)
    ensures jm.SourceJoinDetails(None) == Hop1("comments", Inner, PostComments, "comments")
    ensures jm.JoinDetailsByRelationship(PostComments) == Hop1("comments", Inner, PostComments, "comments")
  {
    assert DefaultTarget(PostComments) == Some("comments");
    FirstEndingAt(SubEmission, Segment(PostComments, "comments"), 1);
  }

  /** The lookups below the source after joining `SubEmission`. */
  lemma SubRelationshipLookups(jm: JoinManager)
    requires jm.emitted == SubEmission && jm.details == SubJoinDetails
    ensures jm.JoinDetailsByRelationship(CommentAuthor) == Hop1("people", Left, CommentAuthor, "people")
    ensures jm.JoinDetailsByRelationship(CommentTags) == Hop1("tags", Left, CommentTags, "tags")
    ensures jm.JoinDetailsByRelationship(PersonComments) == Hop1("comments_people", Left, PersonComments, "comments")
  {
    var es := SubEmission;
    FirstEndingAt(es, Segment(CommentAuthor, "people"), 2);
    FirstEndingAt(es, Segment(CommentTags, "tags"), 3);
    FirstEndingAt(es, Segment(PersonComments, "comments"), 4);
  }

  /**
   * A manager on posts with posts' comments as its source and the include
   * paths `author`, `author.comments`, `tags` relative to it: comments stay
   * an `inner` join aliased `comments`, the paths below are `left` joins, and
   * the author's comments, finding `comments` taken, become `comments_people`.
   */
  lemma SubRelationshipJoin(jm: JoinManager)
    requires jm.Resolved() && jm.Valid() && jm.joined
    requires jm.catalog == Fixture && jm.resourceType == "posts" && jm.sourceRelationship == Some(PostComments)
    requires |jm.Keys()| == 3
    requires jm.Keys()[0] == "author" && jm.Keys()[1] == Dot("author", "comments") && jm.Keys()[2] == "tags"
    ensures jm.SourceJoinDetails(None) == Hop1("comments", Inner, PostComments, "comments")
    ensures jm.JoinDetailsByRelationship(PostComments) == Hop1("comments", Inner, PostComments, "comments")
    ensures jm.JoinDetailsByRelationship(CommentAuthor) == Hop1("people", Left, CommentAuthor, "people")
    ensures jm.JoinDetailsByRelationship(CommentTags) == Hop1("tags", Left, CommentTags, "tags")
    ensures jm.JoinDetailsByRelationship(PersonComments) == Hop1("comments_people", Left, PersonComments, "comments")
  {
    SubRelationshipState(jm);
    SubRelationshipSourceLookups(jm);
    SubRelationshipLookups(jm);
  }

  // Filters below the source as well: `author.name` and `author.comments.name`, then the same include paths.

  /** `author.name` below posts' comments is comments' author and the field `name`. */
  lemma SourcedAuthorName(k: string)
    requires k == Dot("author", "name")
    ensures ResolveKey(Fixture, "posts", Some(PostComments), k) == Success(ResolvedPath(CommentAuthorHops, Some("name")))
  {
    CommentsAuthorName(k);
    SourcedKeyResolves(k, [Hop(CommentAuthor, None)], Some("name"), CommentAuthorHops);
  }

  /** `author.name` from comments is comments' author and the field `name`. */
  lemma CommentsAuthorName(k: string)
    requires k == Dot("author", "name")
    ensures Resolve(Fixture, "comments", k) == Success(ResolvedPath([Hop(CommentAuthor, None)], Some("name")))
  {
    SourcedRelationships();
    assert FindRelationship(Fixture, Some("people"), "name").None?;
    ResolveRelationshipField("comments", "author", CommentAuthor, "people", "name");
  }

  /** A key `a.b.field` through plain relationships `a` and `b` resolves to their two hops and the field. */
  lemma ResolveTwoRelationshipsField(from: ResourceType, a: string, rel: Relationship, t: ResourceType,
                                     b: string, rel2: Relationship, t2: ResourceType, field: string, k: string, hops: seq<Hop>)
    requires PlainStep(from, a, rel, t) && PlainStep(t, b, rel2, t2)
    requires PathSeparator !in field && TypeSeparator !in field && field != "" && FindRelationship(Fixture, Some(t2), field).None?
    requires k == Dot(a, Dot(b, field)) && hops == [Hop(rel, None), Hop(rel2, None)]
    ensures Resolve(Fixture, from, k) == Success(ResolvedPath(hops, Some(field)))
  {
    ResolveRelationshipField(t, b, rel2, t2, field);
    ResolveDottedTo(from, a, rel, t, Dot(b, field), [Hop(rel2, None)], Some(field), hops);
  }

  lemma PeopleCommentsStep()
    ensures PlainStep("people", "comments", PersonComments, "comments")
    ensures FindRelationship(Fixture, Some("comments"), "name").None?
  {
  }

  /** `author.comments.name` from comments: their author, the author's comments and the field `name`. */
  lemma CommentsAuthorCommentsName(k: string)
    requires k == Dot("author", Dot("comments", "name"))
    ensures Resolve(Fixture, "comments", k) ==
            Success(ResolvedPath([Hop(CommentAuthor, None), Hop(PersonComments, None)], Some("name")))
  {
    CommentsAuthorStep();
    PeopleCommentsStep();
    ResolveTwoRelationshipsField("comments", "author", CommentAuthor, "people", "comments", PersonComments, "comments",
                                 "name", k, [Hop(CommentAuthor, None), Hop(PersonComments, None)]);
  }

  /** `author.comments.name` below posts' comments is the author's comments and the field `name`. */
  lemma SourcedAuthorCommentsName(k: string)
    requires k == Dot("author", Dot("comments", "name"))
    ensures ResolveKey(Fixture, "posts", Some(PostComments), k) == Success(ResolvedPath(CommentAuthorCommentsHops, Some("name")))
  {
    CommentsAuthorCommentsName(k);
    SourcedKeyResolves(k, [Hop(CommentAuthor, None), Hop(PersonComments, None)], Some("name"), CommentAuthorCommentsHops);
  }

  /** The five keys: two filters with trailing fields, then the three include paths. */
  predicate SubFilterKeys(keys: seq<string>)
  {
    && |keys| == 5 && keys[0] == Dot("author", "name") && keys[1] == Dot("author", Dot("comments", "name"))
    && keys[2] == "author" && keys[3] == Dot("author", "comments") && keys[4] == "tags"
  }

  /** Each key resolves below the source, the fields adding no hop. */
  lemma SubFilterPaths(keys: seq<string>)
    requires SubFilterKeys(keys)
    ensures ResolveAll(Fixture, "posts", Some(PostComments), keys).Success?
    ensures var paths := ResolveAll(Fixture, "posts", Some(PostComments), keys).value;
            && |paths| == 5 && paths[0].hops == CommentAuthorHops && paths[1].hops == CommentAuthorCommentsHops
            && paths[2].hops == CommentAuthorHops && paths[3].hops == CommentAuthorCommentsHops && paths[4].hops == CommentTagsHops
  {
    SourcedAuthorName(keys[0]);
    SourcedAuthorCommentsName(keys[1]);
    SourcedAuthor(keys[2]);
    SourcedAuthorComments(keys[3]);
    SourcedTags(keys[4]);
    forall i | 0 <= i < |keys|
      ensures ResolveKey(Fixture, "posts", Some(PostComments), keys[i]).Success?
    {
      if i == 0 {
      } else if i == 1 {
      } else if i == 2 {
      } else if i == 3 {
      } else {
        assert i == 4;
      }
    }
  }

  /** The filters' registrations come first and name only nodes the include paths name again. */
  lemma {:induction false} SubFilterRegistrations(paths: seq<ResolvedPath>)
    requires |paths| == 5 && paths[0].hops == CommentAuthorHops && paths[1].hops == CommentAuthorCommentsHops
    requires paths[2].hops == CommentAuthorHops && paths[3].hops == CommentAuthorCommentsHops && paths[4].hops == CommentTagsHops
    ensures var rc, rca, rcac := Registration(CommentsNode, Left), Registration(CommentAuthorNode, Left),
                                 Registration(CommentAuthorCommentsNode, Left);
            PathRegistrations(paths) == [rc, rca, rc, rca, rcac] + ([rc, rca, rc, rca, rcac] + [rc, Registration(CommentTagsNode, Left)])
  {
    var rc, rca, rcac := Registration(CommentsNode, Left), Registration(CommentAuthorNode, Left),
                         Registration(CommentAuthorCommentsNode, Left);
    ExpandTwoPlain(PostComments, "comments", CommentAuthor, "people");
    ExpandThreePlain(PostComments, "comments", CommentAuthor, "people", PersonComments, "comments");
    assert WithType([CommentsNode, CommentAuthorNode], Left) == [rc, rca];
    assert WithType([CommentsNode, CommentAuthorNode, CommentAuthorCommentsNode], Left) == [rc, rca, rcac];
    var front, back := paths[..2], paths[2..];
    assert paths == front + back;
    PathRegistrationsTwo(front, [rc, rca], [rc, rca, rcac]);
    SubPathRegistrations(back);
    PathRegistrationsAppend(front, back);
  }

  /** The filters register the comments node, its author and the author's comments; the include paths then add only comments' tags. */
  lemma SubFilterRegisterSteps(paths: seq<ResolvedPath>)
    requires |paths| == 5 && paths[0].hops == CommentAuthorHops && paths[1].hops == CommentAuthorCommentsHops
    requires paths[2].hops == CommentAuthorHops && paths[3].hops == CommentAuthorCommentsHops && paths[4].hops == CommentTagsHops
    ensures RegisterAll(Contributions(Some(PostComments), paths)) == Registry(SubOrder, SubTypes)
  {
    var rc, rca, rcac, rct := Registration(CommentsNode, Left), Registration(CommentAuthorNode, Left),
                              Registration(CommentAuthorCommentsNode, Left), Registration(CommentTagsNode, Left);
    var cs7 := [Registration([], Root), Registration(CommentsNode, Inner), rc, rca, rc, rca, rcac];
    var again := [rc, rca, rc, rca, rcac];
    SubFilterRegistrations(paths);
    assert SourcePositions(Some(PostComments)) == [CommentsNode];
    assert WithType([CommentsNode], Inner) == [Registration(CommentsNode, Inner)];
    assert Contributions(Some(PostComments), paths) == cs7 + again + [rc, rct];
    SubRelationshipMidSteps();
    RegisterAllKnown(cs7, again);
    SubTagsStep(cs7 + again);
  }

  lemma SubFilterState(jm: JoinManager)
    requires jm.Resolved() && jm.Valid() && jm.joined
    requires jm.catalog == Fixture && jm.resourceType == "posts" && jm.sourceRelationship == Some(PostComments)
    requires SubFilterKeys(jm.Keys())
    ensures jm.emitted == SubEmission && jm.details == SubJoinDetails
  {
    SubFilterPaths(jm.Keys());
    SubFilterRegisterSteps(jm.paths);
    EmissionOfLateSibling([], CommentsNode, CommentAuthorNode, CommentAuthorCommentsNode, CommentTagsNode);
    SubDetails();
  }

  /**
   * The same source and include paths with the filters `author.name` and
   * `author.comments.name` in front: the filters name no node the include
   * paths do not, so the joins and their aliases are those without them.
   */
  lemma SubFilterJoin(jm: JoinManager)
    requires jm.Resolved() && jm.Valid() && jm.joined
    requires jm.catalog == Fixture && jm.resourceType == "posts" && jm.sourceRelationship == Some(PostComments)
    requires SubFilterKeys(jm.Keys())
    ensures jm.SourceJoinDetails(None) == Hop1("comments", Inner, PostComments, "comments")
    ensures jm.JoinDetailsByRelationship(PostComments) == Hop1("comments", Inner, PostComments, "comments")
    ensures jm.JoinDetailsByRelationship(CommentAuthor) == Hop1("people", Left, CommentAuthor, "people")
    ensures jm.JoinDetailsByRelationship(CommentTags) == Hop1("tags", Left, CommentTags, "tags")
    ensures jm.JoinDetailsByRelationship(PersonComments) == Hop1("comments_people", Left, PersonComments, "comments")
  {
    SubFilterState(jm);
    SubRelationshipSourceLookups(jm);
    SubRelationshipLookups(jm);
  }

  // ---------------------------------------------------------------------------
  // Polymorphic joins: pictures' imageable, products or documents
  // ---------------------------------------------------------------------------

  const ProductsNode: Position := [Segment(PictureImageable, "products")]
  const DocumentsNode: Position := [Segment(PictureImageable, "documents")]

  const ImageableTypes := map[[] := Root, ProductsNode := Left, DocumentsNode := Left]

  const ImageableDetails := map[[] := RootOf("pictures", "pictures").value,
                                ProductsNode := Entry("products", Left, ProductsNode),
                                DocumentsNode := Entry("documents", Left, DocumentsNode)]

  lemma PictureTables()
    ensures TableOf(Fixture, "pictures") == "pictures" && TableOf(Fixture, "products") == "products"
    ensures TableOf(Fixture, "documents") == "documents" && TableOf(Fixture, "file_properties") == "file_properties"
  {
  }

  /** A polymorphic hop naming no type fans out into one node per target, in declaration order. */
  lemma ExpandImageable()
    ensures Expand([Hop(PictureImageable, None)]) == [ProductsNode, DocumentsNode]
  {
    var rel := PictureImageable;
    var hops := [Hop(rel, None)];
    assert hops[1..] == [];
    assert Targets(hops[0]) == ["products", "documents"];
    assert ["products", "documents"][1..] == ["documents"] && ["documents"][1..] == [];
    assert ExpandTargets(rel, [], []) == [];
    assert Prefixed(Segment(rel, "documents"), []) == [];
    assert ExpandTargets(rel, ["documents"], []) == [DocumentsNode];
    assert Prefixed(Segment(rel, "products"), []) == [];
    assert ExpandTargets(rel, ["products", "documents"], []) == [ProductsNode] + [DocumentsNode];
  }

  /** Registering the root, then the products and the documents node. */
  lemma ImageableRegisterSteps(cs: seq<Registration>)
    requires cs == [Registration([], Root), Registration(ProductsNode, Left), Registration(DocumentsNode, Left)]
    ensures RegisterAll(cs) == Registry([[], ProductsNode, DocumentsNode], ImageableTypes)
  {
    var r0, rp, rd := Registration([], Root), Registration(ProductsNode, Left), Registration(DocumentsNode, Left);
    var m1 := map[[] := Root];
    var m2 := m1[ProductsNode := Left];
    var o1: seq<Position> := [[]];
    var o2 := o1 + [ProductsNode];
    var cs1 := [r0];
    var cs2 := cs1 + [rp];
    assert [] + [r0] == cs1 && [] + [[]] == o1;
    RegisterAllNew([], r0, [], map[]);
    RegisterAllNew(cs1, rp, o1, m1);
    assert DocumentsNode[0] != ProductsNode[0];
    RegisterAllNew(cs2, rd, o2, m2);
    assert cs2 + [rd] == cs;
    assert o2 + [DocumentsNode] == [[], ProductsNode, DocumentsNode];
  }

  /** Both nodes are one level deep: they are joined in registration order. */
  lemma ImageableOrder()
    ensures EmissionOrder([[], ProductsNode, DocumentsNode]) == [[], ProductsNode, DocumentsNode]
  {
    EmissionOfNeighbourSorted([[], ProductsNode, DocumentsNode]);
  }

  /** Products and documents keep their free table names. */
  lemma ImageableJoined()
    ensures Perform(Fixture, "pictures", ImageableTypes, [[], ProductsNode, DocumentsNode]).details == ImageableDetails
  {
    PictureTables();
    var es1: seq<Position> := [[]];
    var es2 := es1 + [ProductsNode];
    PerformRoot(Fixture, "pictures", ImageableTypes);
    PerformNext(Fixture, "pictures", ImageableTypes, es1, ProductsNode, "products");
    PerformNext(Fixture, "pictures", ImageableTypes, es2, DocumentsNode, "documents");
    assert es2 + [DocumentsNode] == [[], ProductsNode, DocumentsNode];
  }

  /** The lookups through imageable after joining the products and the documents node, in that order. */
  lemma ImageableLookups(jm: JoinManager)
    requires jm.emitted == [[], ProductsNode, DocumentsNode] && jm.details == ImageableDetails
    ensures jm.JoinDetailsByPolymorphicRelationship(PictureImageable, "products") == Hop1("products", Left, PictureImageable, "products")
    ensures jm.JoinDetailsByPolymorphicRelationship(PictureImageable, "documents") == Hop1("documents", Left, PictureImageable, "documents")
  {
    var es := jm.emitted;
    FirstEndingAt(es, Segment(PictureImageable, "products"), 1);
    FirstEndingAt(es, Segment(PictureImageable, "documents"), 2);
  }

  /** With pictures' imageable as the source, one `left` node per target is registered. */
  lemma ImageableSourcePlan()
    ensures RegisterAll(Contributions(Some(PictureImageable), [])) == Registry([[], ProductsNode, DocumentsNode], ImageableTypes)
  {
    assert SourcePositions(Some(PictureImageable)) == [ProductsNode, DocumentsNode];
    assert WithType([ProductsNode, DocumentsNode], Left) == [Registration(ProductsNode, Left), Registration(DocumentsNode, Left)];
    ImageableRegisterSteps(Contributions(Some(PictureImageable), []));
  }

  /**
   * A manager on pictures with the polymorphic imageable as its source and no
   * keys: the source details for each target type, and the details found by
   * imageable and that type, are a `left` join aliased by the type's table.
   */
  lemma ImageableSourceJoin(jm: JoinManager)
    requires jm.Resolved() && jm.Valid() && jm.joined
    requires jm.catalog == Fixture && jm.resourceType == "pictures" && jm.sourceRelationship == Some(PictureImageable)
    requires jm.Keys() == []
    ensures jm.SourceJoinDetails(Some("products")) == Hop1("products", Left, PictureImageable, "products")
    ensures jm.SourceJoinDetails(Some("documents")) == Hop1("documents", Left, PictureImageable, "documents")
    ensures jm.JoinDetailsByPolymorphicRelationship(PictureImageable, "products") == Hop1("products", Left, PictureImageable, "products")
    ensures jm.JoinDetailsByPolymorphicRelationship(PictureImageable, "documents") == Hop1("documents", Left, PictureImageable, "documents")
  {
    ImageableSourceState(jm);
    ImageableSourceLookups(jm);
    ImageableLookups(jm);
  }

  lemma ImageableSourceState(jm: JoinManager)
    requires jm.Resolved() && jm.Valid() && jm.joined
    requires jm.catalog == Fixture && jm.resourceType == "pictures" && jm.sourceRelationship == Some(PictureImageable)
    requires jm.Keys() == []
    ensures jm.emitted == [[], ProductsNode, DocumentsNode] && jm.details == ImageableDetails
  {
    assert jm.paths == [];
    ImageableSourcePlan();
    ImageableOrder();
    ImageableJoined();
  }

  /** With imageable as the source, each of its types finds the node reaching it. */
  lemma ImageableSourceLookups(jm: JoinManager)
    requires jm.details == ImageableDetails && jm.sourceRelationship == Some(PictureImageable)
    ensures jm.SourceJoinDetails(Some("products")) == Hop1("products", Left, PictureImageable, "products")
    ensures jm.SourceJoinDetails(Some("documents")) == Hop1("documents", Left, PictureImageable, "documents")
  {
  }

  /** Without a source, the source details are the root's. */
  lemma ImageableRootLookup(jm: JoinManager)
    requires jm.details == ImageableDetails && jm.sourceRelationship == None
    ensures jm.SourceJoinDetails(None) == RootOf("pictures", "pictures")
  {
  }

  /** A filter on `imageable` names the polymorphic relationship without a type: one hop reaching every target. */
  lemma ImageableKey(k: string)
    requires k == "imageable"
    ensures ResolveKey(Fixture, "pictures", None, k) == Success(ResolvedPath([Hop(PictureImageable, None)], None))
  {
    assert FindRelationship(Fixture, Some("pictures"), "imageable") == Some(PictureImageable);
    ResolveRelationship("pictures", "imageable", PictureImageable);
  }

  /** Filtering on `imageable` registers the same nodes as the source does, after the root. */
  lemma ImageableFilterPlan(paths: seq<ResolvedPath>)
    requires |paths| == 1 && paths[0].hops == [Hop(PictureImageable, None)]
    ensures RegisterAll(Contributions(None, paths)) == Registry([[], ProductsNode, DocumentsNode], ImageableTypes)
  {
    ExpandImageable();
    assert paths[..0] == [];
    assert PathRegistrations(paths) == WithType([ProductsNode, DocumentsNode], Left);
    assert WithType([ProductsNode, DocumentsNode], Left) == [Registration(ProductsNode, Left), Registration(DocumentsNode, Left)];
    ImageableRegisterSteps(Contributions(None, paths));
  }

  lemma ImageableFilterState(jm: JoinManager)
    requires jm.Resolved() && jm.Valid() && jm.joined
    requires jm.catalog == Fixture && jm.resourceType == "pictures" && jm.sourceRelationship == None
    requires |jm.Keys()| == 1 && jm.Keys()[0] == "imageable"
    ensures jm.emitted == [[], ProductsNode, DocumentsNode] && jm.details == ImageableDetails
  {
    ImageableKey(jm.Keys()[0]);
    ImageableFilterPlan(jm.paths);
    ImageableOrder();
    ImageableJoined();
  }

  /**
   * A manager on pictures filtering on `imageable`: the source details are the
   * root's, aliased `pictures`, and imageable reaches products and documents
   * by `left` joins aliased by their tables.
   */
  lemma ImageableFilterJoin(jm: JoinManager)
    requires jm.Resolved() && jm.Valid() && jm.joined
    requires jm.catalog == Fixture && jm.resourceType == "pictures" && jm.sourceRelationship == None
    requires |jm.Keys()| == 1 && jm.Keys()[0] == "imageable"
    ensures jm.SourceJoinDetails(None) == RootOf("pictures", "pictures")
    ensures jm.JoinDetailsByPolymorphicRelationship(PictureImageable, "products") == Hop1("products", Left, PictureImageable, "products")
    ensures jm.JoinDetailsByPolymorphicRelationship(PictureImageable, "documents") == Hop1("documents", Left, PictureImageable, "documents")
  {
    ImageableFilterState(jm);
    ImageableRootLookup(jm);
    ImageableLookups(jm);
  }

  // A filter on a field of one imageable type, and include paths imageable and file_properties.

  const FilePropertiesNode: Position := [Segment(PictureFileProperties, "file_properties")]

  /** The segment `a#t`: relationship `a` disambiguated to type `t`. */
  function Tagged(a: string, t: string): string
  {
    a + [TypeSeparator] + t
  }

  /** A key `a#t.field` through a polymorphic relationship `a` resolves to one hop reaching only `t`, and the field. */
  lemma ResolveTaggedField(from: ResourceType, a: string, rel: Relationship, t: ResourceType, field: string)
    requires PathSeparator !in a && TypeSeparator !in a && PathSeparator !in t
    requires PathSeparator !in field && TypeSeparator !in field && field != ""
    requires FindRelationship(Fixture, Some(from), a) == Some(rel) && rel.polymorphic && t in rel.targets
    requires FindRelationship(Fixture, Some(t), field).None?
    ensures Resolve(Fixture, from, Dot(Tagged(a, t), field)) == Success(ResolvedPath([Hop(rel, Some(t))], Some(field)))
  {
    var seg := Tagged(a, t);
    assert PathSeparator !in seg;
    SplitCons(seg, field, PathSeparator);
    SplitNoSeparator(field, PathSeparator);
    assert Segments(Dot(seg, field)) == [seg] + [field];
    SplitTagOf(a, t);
    assert ([seg] + [field])[1..] == [field];
    assert NextType(Hop(rel, Some(t))) == Some(t);
    assert SplitTag(field) == (field, None);
    assert ResolveSegments(Fixture, Some(t), [field]) == Success(ResolvedPath([], Some(field)));
    assert [Hop(rel, Some(t))] + [] == [Hop(rel, Some(t))];
  }

  /** The names on the pictures side hold neither separator. */
  lemma PictureNames()
    ensures PathSeparator !in "imageable" && TypeSeparator !in "imageable" && PathSeparator !in "documents"
    ensures PathSeparator !in "name" && TypeSeparator !in "name"
    ensures PathSeparator !in "file_properties" && TypeSeparator !in "file_properties"
  {
  }

  /** Which of those names are relationships. */
  lemma PictureRelationships()
    ensures FindRelationship(Fixture, Some("pictures"), "imageable") == Some(PictureImageable)
    ensures FindRelationship(Fixture, Some("pictures"), "file_properties") == Some(PictureFileProperties)
    ensures FindRelationship(Fixture, Some("documents"), "name").None?
  {
  }

  lemma TaggedDocumentsName(k: string)
    requires k == Dot(Tagged("imageable", "documents"), "name")
    ensures ResolveKey(Fixture, "pictures", None, k) == Success(ResolvedPath([Hop(PictureImageable, Some("documents"))], Some("name")))
  {
    PictureNames();
    PictureRelationships();
    ResolveTaggedField("pictures", "imageable", PictureImageable, "documents", "name");
  }

  lemma FilePropertiesKey(k: string)
    requires k == "file_properties"
    ensures ResolveKey(Fixture, "pictures", None, k) == Success(ResolvedPath([Hop(PictureFileProperties, None)], None))
  {
    PictureNames();
    PictureRelationships();
    ResolveRelationship("pictures", "file_properties", PictureFileProperties);
  }

  /** The filter `imageable#documents.name` and the include paths `imageable` and `file_properties`, in that order. */
  lemma TaggedPaths(keys: seq<string>)
    requires |keys| == 3 && keys[0] == Dot(Tagged("imageable", "documents"), "name")
    requires keys[1] == "imageable" && keys[2] == "file_properties"
    ensures ResolveAll(Fixture, "pictures", None, keys).Success?
    ensures var paths := ResolveAll(Fixture, "pictures", None, keys).value;
            && |paths| == 3 && paths[0].hops == [Hop(PictureImageable, Some("documents"))]
            && paths[1].hops == [Hop(PictureImageable, None)] && paths[2].hops == [Hop(PictureFileProperties, None)]
  {
    TaggedDocumentsName(keys[0]);
    ImageableKey(keys[1]);
    FilePropertiesKey(keys[2]);
    ResolveAllThree(Fixture, "pictures", None, keys);
  }

  /** A polymorphic hop disambiguated to `documents` creates the documents node only. */
  lemma ExpandDocuments()
    ensures Expand([Hop(PictureImageable, Some("documents"))]) == [DocumentsNode]
  {
    var rel := PictureImageable;
    var hops := [Hop(rel, Some("documents"))];
    assert hops[1..] == [];
    assert Targets(hops[0]) == ["documents"];
    assert ["documents"][1..] == [];
    assert ExpandTargets(rel, [], []) == [];
    assert Prefixed(Segment(rel, "documents"), []) == [];
  }

  const TaggedTypes := map[[] := Root, DocumentsNode := Left, ProductsNode := Left, FilePropertiesNode := Left]

  const TaggedOrder: seq<Position> := [[], DocumentsNode, ProductsNode, FilePropertiesNode]

  const TaggedDetails := map[[] := RootOf("pictures", "pictures").value,
                             DocumentsNode := Entry("documents", Left, DocumentsNode),
                             ProductsNode := Entry("products", Left, ProductsNode),
                             FilePropertiesNode := Entry("file_properties", Left, FilePropertiesNode)]

  /** The documents node first, then imageable's products and documents node, then file properties. */
  lemma TaggedRegistrations(paths: seq<ResolvedPath>)
    requires |paths| == 3 && paths[0].hops == [Hop(PictureImageable, Some("documents"))]
    requires paths[1].hops == [Hop(PictureImageable, None)] && paths[2].hops == [Hop(PictureFileProperties, None)]
    ensures Contributions(None, paths) ==
            [Registration([], Root), Registration(DocumentsNode, Left), Registration(ProductsNode, Left),
             Registration(DocumentsNode, Left), Registration(FilePropertiesNode, Left)]
  {
    ExpandDocuments();
    ExpandImageable();
    ExpandPlainHop(PictureFileProperties, "file_properties");
    var rd, rp, rf := Registration(DocumentsNode, Left), Registration(ProductsNode, Left), Registration(FilePropertiesNode, Left);
    assert WithType([DocumentsNode], Left) == [rd];
    assert WithType([ProductsNode, DocumentsNode], Left) == [rp, rd];
    assert WithType([FilePropertiesNode], Left) == [rf];
    PathRegistrationsThree(paths, [rd], [rp, rd], [rf]);
  }

  lemma TaggedRegisterSteps()
    ensures RegisterAll([Registration([], Root), Registration(DocumentsNode, Left), Registration(ProductsNode, Left),
                         Registration(DocumentsNode, Left), Registration(FilePropertiesNode, Left)]) ==
            Registry(TaggedOrder, TaggedTypes)
  {
    var r0, rd, rp, rf := Registration([], Root), Registration(DocumentsNode, Left), Registration(ProductsNode, Left),
                          Registration(FilePropertiesNode, Left);
    var m1 := map[[] := Root];
    var m2 := m1[DocumentsNode := Left];
    var m3 := m2[ProductsNode := Left];
    var o1: seq<Position> := [[]];
    var o2 := o1 + [DocumentsNode];
    var o3 := o2 + [ProductsNode];
    var cs1 := [r0];
    var cs2 := cs1 + [rd];
    var cs3 := cs2 + [rp];
    var cs4 := cs3 + [rd];
    assert [] + [r0] == cs1 && [] + [[]] == o1;
    RegisterAllNew([], r0, [], map[]);
    RegisterAllNew(cs1, rd, o1, m1);
    assert ProductsNode[0] != DocumentsNode[0];
    RegisterAllNew(cs2, rp, o2, m2);
    RegisterAllAgain(cs3, rd, o3, m3);
    assert FilePropertiesNode[0] != DocumentsNode[0] && FilePropertiesNode[0] != ProductsNode[0];
    RegisterAllNew(cs4, rf, o3, m3);
    assert cs4 + [rf] == [r0, rd, rp, rd, rf];
    assert o3 + [FilePropertiesNode] == TaggedOrder;
  }

  /** All three nodes are one level deep: they are joined in registration order. */
  lemma TaggedEmission()
    ensures EmissionOrder(TaggedOrder) == TaggedOrder
  {
    EmissionOfNeighbourSorted(TaggedOrder);
  }

  /** Documents and products keep their free table names. */
  lemma TaggedImageables()
    ensures Perform(Fixture, "pictures", TaggedTypes, [[], DocumentsNode, ProductsNode]).taken == {"pictures", "documents", "products"}
    ensures Perform(Fixture, "pictures", TaggedTypes, [[], DocumentsNode, ProductsNode]).details ==
            map[[] := RootOf("pictures", "pictures").value,
                DocumentsNode := Entry("documents", Left, DocumentsNode),
                ProductsNode := Entry("products", Left, ProductsNode)]
  {
    PictureTables();
    var es1: seq<Position> := [[]];
    var es2 := es1 + [DocumentsNode];
    PerformRoot(Fixture, "pictures", TaggedTypes);
    PerformNext(Fixture, "pictures", TaggedTypes, es1, DocumentsNode, "documents");
    PerformNext(Fixture, "pictures", TaggedTypes, es2, ProductsNode, "products");
    assert es2 + [ProductsNode] == [[], DocumentsNode, ProductsNode];
  }

  /** File properties keep their free table name too. */
  lemma TaggedJoined()
    ensures Perform(Fixture, "pictures", TaggedTypes, TaggedOrder).details == TaggedDetails
  {
    var es3: seq<Position> := [[], DocumentsNode, ProductsNode];
    TaggedImageables();
    PictureTables();
    PerformNext(Fixture, "pictures", TaggedTypes, es3, FilePropertiesNode, "file_properties");
    assert es3 + [FilePropertiesNode] == TaggedOrder;
  }

  lemma TaggedState(jm: JoinManager)
    requires jm.Resolved() && jm.Valid() && jm.joined
    requires jm.catalog == Fixture && jm.resourceType == "pictures" && jm.sourceRelationship == None
    requires |jm.Keys()| == 3 && jm.Keys()[0] == Dot(Tagged("imageable", "documents"), "name")
    requires jm.Keys()[1] == "imageable" && jm.Keys()[2] == "file_properties"
    ensures jm.emitted == TaggedOrder && jm.details == TaggedDetails
  {
    TaggedPaths(jm.Keys());
    TaggedRegistrations(jm.paths);
    TaggedRegisterSteps();
    TaggedEmission();
    TaggedJoined();
  }

  lemma TaggedLookups(jm: JoinManager)
    requires jm.emitted == TaggedOrder && jm.details == TaggedDetails && jm.sourceRelationship == None
    ensures jm.SourceJoinDetails(None) == RootOf("pictures", "pictures")
    ensures jm.JoinDetailsByPolymorphicRelationship(PictureImageable, "products") == Hop1("products", Left, PictureImageable, "products")
    ensures jm.JoinDetailsByPolymorphicRelationship(PictureImageable, "documents") == Hop1("documents", Left, PictureImageable, "documents")
    ensures jm.JoinDetailsByRelationship(PictureFileProperties) ==
            Hop1("file_properties", Left, PictureFileProperties, "file_properties")
  {
    var es := TaggedOrder;
    FirstEndingAt(es, Segment(PictureImageable, "documents"), 1);
    FirstEndingAt(es, Segment(PictureImageable, "products"), 2);
    FirstEndingAt(es, Segment(PictureFileProperties, "file_properties"), 3);
    assert DefaultTarget(PictureFileProperties) == Some("file_properties");
  }

  /**
   * A manager on pictures filtering on `imageable#documents.name` and
   * including `imageable` and `file_properties`: the documents node registered
   * by the filter is shared by the include path, so each target of imageable
   * and file properties are joined once, `left`, under their table names.
   */
  lemma TaggedJoin(jm: JoinManager)
    requires jm.Resolved() && jm.Valid() && jm.joined
    requires jm.catalog == Fixture && jm.resourceType == "pictures" && jm.sourceRelationship == None
    requires |jm.Keys()| == 3 && jm.Keys()[0] == Dot(Tagged("imageable", "documents"), "name")
    requires jm.Keys()[1] == "imageable" && jm.Keys()[2] == "file_properties"
    ensures jm.SourceJoinDetails(None) == RootOf("pictures", "pictures")
    ensures jm.JoinDetailsByPolymorphicRelationship(PictureImageable, "products") == Hop1("products", Left, PictureImageable, "products")
    ensures jm.JoinDetailsByPolymorphicRelationship(PictureImageable, "documents") == Hop1("documents", Left, PictureImageable, "documents")
    ensures jm.JoinDetailsByRelationship(PictureFileProperties) ==
            Hop1("file_properties", Left, PictureFileProperties, "file_properties")
  {
    TaggedState(jm);
    TaggedLookups(jm);
  }

  // ---------------------------------------------------------------------------
  // Aliases follow emission order within a depth
  // ---------------------------------------------------------------------------

  const Writer := Relationship("posts", "writer", ["people"], false, "writers")
  const Editor := Relationship("posts", "editor", ["people"], false, "editors")

  /** Posts with two relationships to people, both one hop from the root. */
  const Staffed: Catalog := map[
    "posts" := Resource("posts", map["writer" := Writer, "editor" := Editor]),
    "people" := Resource("people", map[])]

  const WriterNode: Position := [Segment(Writer, "people")]
  const EditorNode: Position := [Segment(Editor, "people")]
  const StaffTypes := map[[] := Root, WriterNode := Left, EditorNode := Left]

  lemma WriterFirstAliases()
    ensures EmittedAs(Staffed, "posts", StaffTypes, [[], WriterNode, EditorNode], {"posts", "people", "editors_posts"},
                      map[[] := RootOf("posts", "posts").value][WriterNode := Entry("people", Left, WriterNode)]
                                                              [EditorNode := Entry("editors_posts", Left, EditorNode)])
  {
    RootEmitted(Staffed, "posts", StaffTypes, "posts");
    PerformAfter(Staffed, "posts", StaffTypes, [[]], WriterNode, {"posts"}, map[[] := RootOf("posts", "posts").value], "people");
    SnocOne([], WriterNode);
    PerformAfter(Staffed, "posts", StaffTypes, [[], WriterNode], EditorNode, {"posts", "people"},
                 map[[] := RootOf("posts", "posts").value][WriterNode := Entry("people", Left, WriterNode)], "editors_posts");
    SnocTwo([], WriterNode, EditorNode);
  }

  lemma EditorFirstAliases()
    ensures EmittedAs(Staffed, "posts", StaffTypes, [[], EditorNode, WriterNode], {"posts", "people", "writers_posts"},
                      map[[] := RootOf("posts", "posts").value][EditorNode := Entry("people", Left, EditorNode)]
                                                              [WriterNode := Entry("writers_posts", Left, WriterNode)])
  {
    RootEmitted(Staffed, "posts", StaffTypes, "posts");
    PerformAfter(Staffed, "posts", StaffTypes, [[]], EditorNode, {"posts"}, map[[] := RootOf("posts", "posts").value], "people");
    SnocOne([], EditorNode);
    PerformAfter(Staffed, "posts", StaffTypes, [[], EditorNode], WriterNode, {"posts", "people"},
                 map[[] := RootOf("posts", "posts").value][EditorNode := Entry("people", Left, EditorNode)], "writers_posts");
    SnocTwo([], EditorNode, WriterNode);
  }

  /**
   * Two one-hop nodes reaching the same table: whichever is emitted first takes
   * the table's name and the other its `<plural>_<owner>` name. Emission keeps
   * registration order within a depth, so the keys' order decides the aliases.
   */
  lemma AliasesFollowOrder()
    ensures WriterNode != EditorNode
    ensures var d := Perform(Staffed, "posts", StaffTypes, [[], WriterNode, EditorNode]).details;
            WriterNode in d && d[WriterNode].alias == "people"
    ensures var d := Perform(Staffed, "posts", StaffTypes, [[], EditorNode, WriterNode]).details;
            WriterNode in d && d[WriterNode].alias == "writers_posts"
  {
    assert WriterNode[0].relationship.name != EditorNode[0].relationship.name;
    WriterFirstAliases();
    EditorFirstAliases();
  }

  /** The filters of `RunCommentsFirst`, with no sort criteria or relationships, resolve. */
  lemma CommentsFirstResolves(keys: seq<string>)
    requires keys == [Dot("comments", "author"), Dot("comments", "tags"), "author"]
    ensures PathKeys(keys, [], []) == keys
    ensures ResolveAll(Fixture, "posts", None, PathKeys(keys, [], [])).Success?
  {
    assert PathKeys(keys, [], []) == keys;
    CommentsFirstPaths(keys);
  }

  /**
   * Builds a manager on posts with the filters `comments.author`,
   * `comments.tags` and `author`, joins it onto the posts table and looks
   * up the details of comments' author.
   */
  method RunCommentsFirst() returns (r: Result<Query, JoinError>, d: Option<JoinDetails>)
    ensures r.Success? && r.value.table == "posts"
    ensures d == Hop1("authors_comments", Left, CommentAuthor, "people")
  {
    var keys := [Dot("comments", "author"), Dot("comments", "tags"), "author"];
    CommentsFirstResolves(keys);
    var jm := new JoinManager(Fixture, "posts", None, keys, [], []);
    r := jm.Join(Query("posts", []));
    CommentsFirstJoin(jm);
    d := jm.JoinDetailsByRelationship(CommentAuthor);
  }

  /**
   * Builds a manager on posts with posts' comments as its source relationship
   * and no keys, joins it and looks up the source details.
   */
  method RunSourceOnly() returns (r: Result<Query, JoinError>, d: Option<JoinDetails>)
    ensures r.Success? && r.value.table == "posts"
    ensures d == Hop1("comments", Inner, PostComments, "comments")
  {
    assert PathKeys([], [], []) == [];
    var jm := new JoinManager(Fixture, "posts", Some(PostComments), [], [], []);
    r := jm.Join(Query("posts", []));
    SourceOnlyJoin(jm);
    d := jm.SourceJoinDetails(None);
  }

  /**
   * Builds a manager on pictures with the polymorphic imageable as its source
   * and no keys, joins it and looks up the source details for products.
   */
  method RunImageableSource() returns (r: Result<Query, JoinError>, d: Option<JoinDetails>)
    ensures r.Success? && r.value.table == "pictures"
    ensures d == Hop1("products", Left, PictureImageable, "products")
  {
    assert PathKeys([], [], []) == [];
    var jm := new JoinManager(Fixture, "pictures", Some(PictureImageable), [], [], []);
    r := jm.Join(Query("pictures", []));
    ImageableSourceJoin(jm);
    d := jm.SourceJoinDetails(Some("products"));
  }
}
