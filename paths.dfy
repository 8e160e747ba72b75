/**
 * Path resolution: a dotted relationship path such as `comments.author.name`
 * or `imageable#documents.name` becomes a sequence of relationship hops plus an
 * optional trailing field. Resolution is a pure function of the catalog and the
 * path string.
 */
module Paths {
  import opened Wrappers
  import opened Schema

  const PathSeparator: char := '.'
  const TypeSeparator: char := '#'

  // ---------------------------------------------------------------------------
  // Splitting strings
  // ---------------------------------------------------------------------------

  /** The pieces of `s` between occurrences of `sep`, empty pieces included. */
  function Split(s: string, sep: char): (parts: seq<string>)
    ensures |parts| > 0
    ensures forall i :: 0 <= i < |parts| ==> sep !in parts[i]
    decreases |s|
  {
    if |s| == 0 then [""]
    else
      var rest := Split(s[1..], sep);
      if s[0] == sep then [""] + rest else [[s[0]] + rest[0]] + rest[1..]
  }

  /** `parts` glued together with `sep` between neighbours: the inverse of Split. */
  function Joined(parts: seq<string>, sep: char): string
    requires |parts| > 0
    decreases |parts|
  {
    if |parts| == 1 then parts[0] else parts[0] + [sep] + Joined(parts[1..], sep)
  }

  lemma {:induction false} JoinedCons(c: char, parts: seq<string>, sep: char)
    requires |parts| > 0
    ensures Joined([[c] + parts[0]] + parts[1..], sep) == [c] + Joined(parts, sep)
  {
    var ps := [[c] + parts[0]] + parts[1..];
    assert ps[1..] == parts[1..];
  }

  /** Splitting loses nothing: gluing the pieces back gives the string. */
  lemma {:induction false} JoinedSplit(s: string, sep: char)
    ensures Joined(Split(s, sep), sep) == s
    decreases |s|
  {
    if |s| > 0 {
      var rest := Split(s[1..], sep);
      JoinedSplit(s[1..], sep);
      if s[0] == sep {
        assert ([""] + rest)[1..] == rest;
        assert [s[0]] + s[1..] == s;
      } else {
        JoinedCons(s[0], rest, sep);
        assert [s[0]] + s[1..] == s;
      }
    }
  }

  lemma {:induction false} SplitNoSeparator(a: string, sep: char)
    requires sep !in a
    ensures Split(a, sep) == [a]
    decreases |a|
  {
    if |a| > 0 {
      SplitNoSeparator(a[1..], sep);
      assert [a[0]] + a[1..] == a;
    }
  }

  lemma {:induction false} SplitCons(a: string, b: string, sep: char)
    requires sep !in a
    ensures Split(a + [sep] + b, sep) == [a] + Split(b, sep)
    decreases |a|
  {
    if |a| == 0 {
      assert a + [sep] + b == [sep] + b;
      assert ([sep] + b)[1..] == b;
    } else {
      SplitCons(a[1..], b, sep);
      assert (a + [sep] + b)[1..] == a[1..] + [sep] + b;
      assert [a[0]] + a[1..] == a;
    }
  }

  /** Gluing separator-free pieces and splitting again gives the pieces back. */
  lemma {:induction false} SplitJoined(parts: seq<string>, sep: char)
    requires |parts| > 0
    requires forall i :: 0 <= i < |parts| ==> sep !in parts[i]
    ensures Split(Joined(parts, sep), sep) == parts
    decreases |parts|
  {
    if |parts| == 1 {
      SplitNoSeparator(parts[0], sep);
    } else {
      SplitJoined(parts[1..], sep);
      SplitCons(parts[0], Joined(parts[1..], sep), sep);
    }
  }

  /** Ruby's String#split drops trailing empty pieces; so does this. */
  function DropTrailingEmpty(parts: seq<string>): (r: seq<string>)
    ensures r <= parts
    ensures |r| > 0 ==> r[|r| - 1] != ""
    ensures forall i :: |r| <= i < |parts| ==> parts[i] == ""
    decreases |parts|
  {
    if |parts| == 0 || parts[|parts| - 1] != "" then parts
    else DropTrailingEmpty(parts[..|parts| - 1])
  }

  /** A non-empty first piece is never dropped, nor does it change what is dropped after it. */
  lemma {:induction false} DropTrailingEmptyCons(a: string, parts: seq<string>)
    requires a != ""
    ensures DropTrailingEmpty([a] + parts) == [a] + DropTrailingEmpty(parts)
    decreases |parts|
  {
    if |parts| > 0 && parts[|parts| - 1] == "" {
      assert ([a] + parts)[..|parts|] == [a] + parts[..|parts| - 1];
      DropTrailingEmptyCons(a, parts[..|parts| - 1]);
    }
  }

  /** The dotted segments of a path string. */
  function Segments(path: string): (segments: seq<string>)
    ensures forall i :: 0 <= i < |segments| ==> PathSeparator !in segments[i]
    ensures |segments| > 0 ==> segments[|segments| - 1] != ""
  {
    DropTrailingEmpty(Split(path, PathSeparator))
  }

  /** The dotted segments of a path whose pieces are non-empty and dot-free are those pieces. */
  lemma SegmentsOfJoined(parts: seq<string>)
    requires |parts| > 0
    requires forall i :: 0 <= i < |parts| ==> PathSeparator !in parts[i] && parts[i] != ""
    ensures Segments(Joined(parts, PathSeparator)) == parts
  {
    SplitJoined(parts, PathSeparator);
  }

  /** The index of the first occurrence of `c` in `s`. */
  function IndexOf(s: string, c: char): (i: nat)
    requires c in s
    ensures i < |s| && s[i] == c && c !in s[..i]
    decreases |s|
  {
    if s[0] == c then 0 else 1 + IndexOf(s[1..], c)
  }

  /**
   * A segment split at its first `#`: the relationship (or field) name and,
   * when a `#` is present, the type disambiguator after it.
   */
  function SplitTag(segment: string): (r: (string, Option<string>))
    ensures TypeSeparator !in r.0
    ensures r.1.None? ==> r.0 == segment && TypeSeparator !in segment
    ensures r.1.Some? ==> r.0 + [TypeSeparator] + r.1.value == segment
  {
    if TypeSeparator in segment then
      var i := IndexOf(segment, TypeSeparator);
      assert segment[..i] + [TypeSeparator] + segment[i + 1..] == segment;
      (segment[..i], Some(segment[i + 1..]))
    else (segment, None)
  }

  /** The first `c` in `a + [c] + b` is the one after `a` when `a` holds none. */
  lemma {:induction false} IndexOfAfter(a: string, b: string, c: char)
    requires c !in a
    ensures IndexOf(a + [c] + b, c) == |a|
    decreases |a|
  {
    if |a| > 0 {
      assert (a + [c] + b)[1..] == a[1..] + [c] + b;
      IndexOfAfter(a[1..], b, c);
    }
  }

  /** Splitting `name#type` at its tag gives back the name and the type. */
  lemma SplitTagOf(name: string, t: string)
    requires TypeSeparator !in name
    ensures SplitTag(name + [TypeSeparator] + t) == (name, Some(t))
  {
    var segment := name + [TypeSeparator] + t;
    IndexOfAfter(name, t, TypeSeparator);
    assert segment[..|name|] == name && segment[|name| + 1..] == t;
  }

  // ---------------------------------------------------------------------------
  // Resolution
  // ---------------------------------------------------------------------------

  datatype PathError =
    | UnknownRelationship(resourceType: Option<ResourceType>, segment: string)
    | UnknownPolymorphicTarget(relationship: string, segment: string)

  /** One relationship hop; `only` is the `#type` disambiguator of a polymorphic hop. */
  datatype Hop = Hop(relationship: Relationship, only: Option<ResourceType>)

  /** The hops of a path and the trailing field name, if the path ends in one. */
  datatype ResolvedPath = ResolvedPath(hops: seq<Hop>, field: Option<string>)

  /**
   * The resource type a hop leads to: the disambiguated type, the single target
   * of a plain relationship, or none for a polymorphic hop that names no type.
   */
  function NextType(h: Hop): (t: Option<ResourceType>)
    ensures h.only.Some? ==> t == h.only
  {
    if h.only.Some? then h.only else DefaultTarget(h.relationship)
  }

  /**
   * The hops follow the catalog: each is a relationship declared on the type
   * the previous hop led to, and a disambiguator names a declared target of a
   * polymorphic relationship.
   */
  predicate Chain(catalog: Catalog, current: Option<ResourceType>, hops: seq<Hop>)
    decreases |hops|
  {
    hops == [] ||
    (&& current.Some? && current.value in catalog
     && hops[0].relationship in catalog[current.value].relationships.Values
     && (hops[0].only.Some? ==>
           hops[0].relationship.polymorphic && hops[0].only.value in hops[0].relationship.targets)
     && Chain(catalog, NextType(hops[0]), hops[1..]))
  }

  /** Resolves the segments of a path, starting at resource type `current`. */
  function ResolveSegments(catalog: Catalog, current: Option<ResourceType>, segments: seq<string>): (r: Result<ResolvedPath, PathError>)
    ensures r.Success? ==> Chain(catalog, current, r.value.hops)
    ensures r.Success? ==> |r.value.hops| <= |segments|
    ensures r.Success? ==> (r.value.field.Some? <==> |r.value.hops| < |segments|)
    ensures r.Success? && r.value.field.Some? ==>
              |r.value.hops| == |segments| - 1 && r.value.field.value == SplitTag(segments[|segments| - 1]).0
    ensures r.Failure? ==> r.error.segment in segments
    decreases |segments|
  {
    if segments == [] then Success(ResolvedPath([], None))
    else
      var (name, tag) := SplitTag(segments[0]);
      match FindRelationship(catalog, current, name)
      case Some(rel) =>
        if tag.Some? && !(rel.polymorphic && tag.value in rel.targets) then
          Failure(UnknownPolymorphicTarget(rel.name, segments[0]))
        else
          var hop := Hop(rel, tag);
          (match ResolveSegments(catalog, NextType(hop), segments[1..])
           case Success(rest) => Success(ResolvedPath([hop] + rest.hops, rest.field))
           case Failure(e) => Failure(e))
      case None =>
        if |segments| == 1 && (tag.None? || tag == Some("")) then Success(ResolvedPath([], Some(name)))
        else Failure(UnknownRelationship(current, segments[0]))
  }

  /**
   * Every hop of `p` is the relationship its segment names on the type the
   * hops before it reach, with that segment's `#type`; a trailing field names
   * no relationship on the type reached, and carries no type or an empty one.
   */
  ghost predicate HopsNamed(catalog: Catalog, current: Option<ResourceType>, segments: seq<string>, p: ResolvedPath)
  {
    && |p.hops| <= |segments|
    && (forall i :: 0 <= i < |p.hops| ==>
          && FindRelationship(catalog, EndType(current, p.hops[..i]), SplitTag(segments[i]).0) == Some(p.hops[i].relationship)
          && p.hops[i].only == SplitTag(segments[i]).1)
    && (p.field.Some? ==>
          && segments != []
          && FindRelationship(catalog, EndType(current, p.hops), SplitTag(segments[|segments| - 1]).0).None?
          && (SplitTag(segments[|segments| - 1]).1.None? || SplitTag(segments[|segments| - 1]).1 == Some("")))
  }

  /** A resolved path's hops and field are what its segments name. */
  lemma {:induction false} ResolvedHopsNamed(catalog: Catalog, current: Option<ResourceType>, segments: seq<string>)
    requires ResolveSegments(catalog, current, segments).Success?
    ensures HopsNamed(catalog, current, segments, ResolveSegments(catalog, current, segments).value)
    decreases |segments|
  {
    if segments != [] {
      match FindRelationship(catalog, current, SplitTag(segments[0]).0)
      case Some(rel) =>
        var hop := Hop(rel, SplitTag(segments[0]).1);
        var rest := ResolveSegments(catalog, NextType(hop), segments[1..]).value;
        ResolvedHopsNamed(catalog, NextType(hop), segments[1..]);
        HopsNamedCons(catalog, current, segments, hop, rest);
      case None =>
        assert ResolveSegments(catalog, current, segments).value.hops == [];
    }
  }

  /** Naming a first hop and then the rest names the whole path. */
  lemma HopsNamedCons(catalog: Catalog, current: Option<ResourceType>, segments: seq<string>, hop: Hop, rest: ResolvedPath)
    requires segments != []
    requires FindRelationship(catalog, current, SplitTag(segments[0]).0) == Some(hop.relationship)
    requires hop.only == SplitTag(segments[0]).1
    requires HopsNamed(catalog, NextType(hop), segments[1..], rest)
    ensures HopsNamed(catalog, current, segments, ResolvedPath([hop] + rest.hops, rest.field))
  {
    var hops := [hop] + rest.hops;
    EndTypeAfterHop(current, hop, rest.hops);
    forall i | 0 < i < |hops|
      ensures && FindRelationship(catalog, EndType(current, hops[..i]), SplitTag(segments[i]).0) == Some(hops[i].relationship)
              && hops[i].only == SplitTag(segments[i]).1
    {
      assert hops[i] == rest.hops[i - 1] && segments[i] == segments[1..][i - 1];
    }
    assert hops[..0] == [];
    if rest.field.Some? {
      assert segments[|segments| - 1] == segments[1..][|segments[1..]| - 1];
    }
  }

  /** Following `hop` then `hops` reaches, at every step, what `hops` reach from the hop's type. */
  lemma EndTypeAfterHop(current: Option<ResourceType>, hop: Hop, hops: seq<Hop>)
    ensures EndType(current, [hop] + hops) == EndType(NextType(hop), hops)
    ensures forall i :: 0 < i <= |hops| + 1 ==> EndType(current, ([hop] + hops)[..i]) == EndType(NextType(hop), hops[..i - 1])
  {
    assert ([hop] + hops)[1..] == hops;
    forall i | 0 < i <= |hops| + 1
      ensures EndType(current, ([hop] + hops)[..i]) == EndType(NextType(hop), hops[..i - 1])
    {
      assert ([hop] + hops)[..i][1..] == hops[..i - 1];
    }
  }

  /**
   * Resolution fails at segment `i` with error `e`: the segments before it
   * resolve to hops, and segment `i` names no relationship on the type they
   * reach and is not a trailing field, or names one with a `#type` that is
   * not among its targets.
   */
  ghost predicate FailsAt(catalog: Catalog, current: Option<ResourceType>, segments: seq<string>, i: nat, e: PathError)
    requires i < |segments|
  {
    var before := ResolveSegments(catalog, current, segments[..i]);
    && before.Success? && before.value.field.None? && |before.value.hops| == i
    && var t := EndType(current, before.value.hops);
       var name := SplitTag(segments[i]).0;
       var tag := SplitTag(segments[i]).1;
       match FindRelationship(catalog, t, name)
       case None =>
         && e == UnknownRelationship(t, segments[i])
         && !(i == |segments| - 1 && (tag.None? || tag == Some("")))
       case Some(rel) =>
         && tag.Some? && !(rel.polymorphic && tag.value in rel.targets)
         && e == UnknownPolymorphicTarget(rel.name, segments[i])
  }

  /** A failed resolution fails at some segment, and its error describes that segment. */
  lemma {:induction false} ResolveFailsAt(catalog: Catalog, current: Option<ResourceType>, segments: seq<string>)
    requires ResolveSegments(catalog, current, segments).Failure?
    ensures exists i :: 0 <= i < |segments| && FailsAt(catalog, current, segments, i, ResolveSegments(catalog, current, segments).error)
    decreases |segments|
  {
    var e := ResolveSegments(catalog, current, segments).error;
    var name := SplitTag(segments[0]).0;
    var tag := SplitTag(segments[0]).1;
    assert segments[..0] == [];
    match FindRelationship(catalog, current, name)
    case None =>
      assert FailsAt(catalog, current, segments, 0, e);
    case Some(rel) =>
      if tag.Some? && !(rel.polymorphic && tag.value in rel.targets) {
        assert FailsAt(catalog, current, segments, 0, e);
      } else {
        var hop := Hop(rel, tag);
        ResolveFailsAt(catalog, NextType(hop), segments[1..]);
        var j :| 0 <= j < |segments[1..]| && FailsAt(catalog, NextType(hop), segments[1..], j, e);
        FailsAtNext(catalog, current, segments, hop, j, e);
      }
  }

  /** Failing at segment `j` after a first hop is failing at segment `j + 1` of the whole path. */
  lemma FailsAtNext(catalog: Catalog, current: Option<ResourceType>, segments: seq<string>, hop: Hop, j: nat, e: PathError)
    requires |segments| > 0 && j < |segments| - 1
    requires FindRelationship(catalog, current, SplitTag(segments[0]).0) == Some(hop.relationship)
    requires hop.only == SplitTag(segments[0]).1
    requires hop.only.Some? ==> hop.relationship.polymorphic && hop.only.value in hop.relationship.targets
    requires FailsAt(catalog, NextType(hop), segments[1..], j, e)
    ensures FailsAt(catalog, current, segments, j + 1, e)
  {
    var pre := segments[..j + 1];
    assert pre[0] == segments[0] && pre[1..] == segments[1..][..j];
    var rest := ResolveSegments(catalog, NextType(hop), segments[1..][..j]).value;
    assert ResolveSegments(catalog, current, pre) == Success(ResolvedPath([hop] + rest.hops, None));
    EndTypeAfterHop(current, hop, rest.hops);
    assert segments[j + 1] == segments[1..][j];
  }

  /** Resolves a dotted path from resource type `from`. */
  function Resolve(catalog: Catalog, from: ResourceType, path: string): Result<ResolvedPath, PathError>
  {
    ResolveSegments(catalog, Some(from), Segments(path))
  }

  /** A trailing segment that names no relationship is a field: it adds no hop. */
  lemma {:induction false} TrailingFieldAddsNoHop(catalog: Catalog, current: Option<ResourceType>, segments: seq<string>, field: string)
    requires ResolveSegments(catalog, current, segments).Success?
    requires ResolveSegments(catalog, current, segments).value.field.None?
    requires TypeSeparator !in field
    requires FindRelationship(catalog, EndType(current, ResolveSegments(catalog, current, segments).value.hops), field).None?
    ensures ResolveSegments(catalog, current, segments + [field]) ==
            Success(ResolvedPath(ResolveSegments(catalog, current, segments).value.hops, Some(field)))
    decreases |segments|
  {
    if segments == [] {
      assert [] + [field] == [field];
    } else {
      assert (segments + [field])[0] == segments[0];
      assert (segments + [field])[1..] == segments[1..] + [field];
      var (name, tag) := SplitTag(segments[0]);
      var found := FindRelationship(catalog, current, name);
      assert found.Some?;
      var rel := found.value;
      var hop := Hop(rel, tag);
      var rest := ResolveSegments(catalog, NextType(hop), segments[1..]).value;
      assert EndType(current, [hop] + rest.hops) == EndType(NextType(hop), rest.hops);
      TrailingFieldAddsNoHop(catalog, NextType(hop), segments[1..], field);
    }
  }

  /** The resource type reached after following `hops` from `current`. */
  function EndType(current: Option<ResourceType>, hops: seq<Hop>): Option<ResourceType>
    decreases |hops|
  {
    if hops == [] then current else EndType(NextType(hops[0]), hops[1..])
  }

  /** A path through one relationship followed by more segments resolves hop by hop. */
  lemma ResolveStep(catalog: Catalog, current: Option<ResourceType>, name: string, rest: seq<string>, rel: Relationship)
    requires TypeSeparator !in name
    requires FindRelationship(catalog, current, name) == Some(rel)
    requires ResolveSegments(catalog, NextType(Hop(rel, None)), rest).Success?
    ensures ResolveSegments(catalog, current, [name] + rest) ==
            Success(ResolvedPath([Hop(rel, None)] + ResolveSegments(catalog, NextType(Hop(rel, None)), rest).value.hops,
                                 ResolveSegments(catalog, NextType(Hop(rel, None)), rest).value.field))
  {
    assert ([name] + rest)[1..] == rest;
  }

  // ---------------------------------------------------------------------------
  // Positions in the relationship tree
  // ---------------------------------------------------------------------------

  /** One edge of the relationship tree: a relationship and the concrete type it reaches. */
  datatype Segment = Segment(relationship: Relationship, target: ResourceType)

  /** A node of the relationship tree, named by the edges from the root; the root is []. */
  type Position = seq<Segment>

  /** The node directly above a non-root node. */
  function Parent(p: Position): (q: Position)
    requires |p| > 0
    ensures |q| == |p| - 1 && q <= p
  {
    p[..|p| - 1]
  }

  /** Every non-root node listed in `ps` has its parent listed too. */
  predicate PrefixClosed(ps: seq<Position>)
  {
    forall i :: 0 <= i < |ps| && |ps[i]| > 0 ==> Parent(ps[i]) in ps
  }

  /** The concrete types a hop reaches: the disambiguated one, or every declared target. */
  function Targets(h: Hop): (ts: seq<ResourceType>)
    ensures h.only.Some? ==> ts == [h.only.value]
    ensures h.only.None? ==> ts == h.relationship.targets
  {
    if h.only.Some? then [h.only.value] else h.relationship.targets
  }

  /** Position `p` is a node that the hops reach: a non-empty prefix of one concrete choice per hop. */
  predicate Instantiates(p: Position, hops: seq<Hop>)
  {
    && 0 < |p| <= |hops|
    && forall i :: 0 <= i < |p| ==> p[i].relationship == hops[i].relationship && p[i].target in Targets(hops[i])
  }

  /** Every position in `ps`, with `s` put in front. */
  function Prefixed(s: Segment, ps: seq<Position>): (r: seq<Position>)
    ensures |r| == |ps|
    ensures forall i :: 0 <= i < |ps| ==> r[i] == [s] + ps[i]
  {
    seq(|ps|, i requires 0 <= i < |ps| => [s] + ps[i])
  }

  /**
   * The tree nodes the hops create, in insertion order: each hop's node comes
   * before the nodes below it, and a polymorphic hop fans out into one node per
   * concrete target, in declaration order.
   */
  function Expand(hops: seq<Hop>): (ps: seq<Position>)
    decreases |hops|, 0
  {
    if hops == [] then [] else ExpandTargets(hops[0].relationship, Targets(hops[0]), hops[1..])
  }

  function ExpandTargets(rel: Relationship, targets: seq<ResourceType>, rest: seq<Hop>): (ps: seq<Position>)
    decreases |rest|, |targets|
  {
    if targets == [] then []
    else
      var s := Segment(rel, targets[0]);
      [[s]] + Prefixed(s, Expand(rest)) + ExpandTargets(rel, targets[1..], rest)
  }

  lemma {:induction false} ExpandTargetsMembers(rel: Relationship, targets: seq<ResourceType>, rest: seq<Hop>, p: Position)
    ensures p in ExpandTargets(rel, targets, rest) <==>
              && 0 < |p| && p[0].relationship == rel && p[0].target in targets
              && (|p| == 1 || Instantiates(p[1..], rest))
    decreases |rest|, |targets|
  {
    if targets != [] {
      var s := Segment(rel, targets[0]);
      var below := Expand(rest);
      var later := ExpandTargets(rel, targets[1..], rest);
      assert ExpandTargets(rel, targets, rest) == [[s]] + Prefixed(s, below) + later;
      ExpandTargetsMembers(rel, targets[1..], rest, p);
      assert p in Prefixed(s, below) <==> 0 < |p| && p[0] == s && p[1..] in below by {
        if p in Prefixed(s, below) {
          var k :| 0 <= k < |below| && Prefixed(s, below)[k] == p;
          assert p[1..] == below[k];
        }
        if 0 < |p| && p[0] == s && p[1..] in below {
          var k :| 0 <= k < |below| && below[k] == p[1..];
          assert Prefixed(s, below)[k] == p;
        }
      }
      if 0 < |p| {
        ExpandMembers(rest, p[1..]);
        assert p == [s] <==> |p| == 1 && p[0] == s;
        assert p[0].target in targets <==> p[0].target == targets[0] || p[0].target in targets[1..] by {
          assert targets == [targets[0]] + targets[1..];
        }
      }
    }
  }

  /** The nodes a path creates are exactly the positions its hops reach. */
  lemma {:induction false} ExpandMembers(hops: seq<Hop>, p: Position)
    ensures p in Expand(hops) <==> Instantiates(p, hops)
    decreases |hops|, 0
  {
    if hops != [] {
      ExpandTargetsMembers(hops[0].relationship, Targets(hops[0]), hops[1..], p);
      if 1 < |p| && |p| <= |hops| {
        assert Instantiates(p[1..], hops[1..]) <==>
               forall i :: 1 <= i < |p| ==> p[i].relationship == hops[i].relationship && p[i].target in Targets(hops[i]) by {
          forall i | 1 <= i < |p| ensures p[1..][i - 1] == p[i] && hops[1..][i - 1] == hops[i] { }
          if Instantiates(p[1..], hops[1..]) {
            forall i | 1 <= i < |p|
              ensures p[i].relationship == hops[i].relationship && p[i].target in Targets(hops[i])
            {
              assert p[1..][i - 1] == p[i] && hops[1..][i - 1] == hops[i];
            }
          }
        }
      }
    }
  }
}
