/**
 * The join registry as a value: the relationship tree flattened to its nodes
 * in registration order, with the join type of each node. Registering a node
 * twice keeps one entry; a node registered with two different join types
 * becomes an `inner` join.
 */
module Registry {
  import opened Paths

  datatype JoinType = Root | Inner | Left

  /** The join type of a node registered once with `a` and once more with `b`. */
  function Merge(a: JoinType, b: JoinType): JoinType
  {
    if a == b then a else Inner
  }

  /** One request to register a tree node with a default join type. */
  datatype Registration = Registration(position: Position, joinType: JoinType)

  datatype Registry = Registry(order: seq<Position>, types: map<Position, JoinType>)

  /** Registers one node: a new node is appended, a known one has its join type merged. */
  function Register(r: Registry, c: Registration): Registry
  {
    if c.position in r.types then Registry(r.order, r.types[c.position := Merge(r.types[c.position], c.joinType)])
    else Registry(r.order + [c.position], r.types[c.position := c.joinType])
  }

  /** The registry after registering `cs` in order, starting empty. */
  function RegisterAll(cs: seq<Registration>): Registry
    decreases |cs|
  {
    if cs == [] then Registry([], map[]) else Register(RegisterAll(cs[..|cs| - 1]), cs[|cs| - 1])
  }

  predicate Distinct<T(==)>(s: seq<T>)
  {
    forall i, j :: 0 <= i < j < |s| ==> s[i] != s[j]
  }

  /** Whether some registration in `cs` is for node `p`. */
  predicate Mentions(cs: seq<Registration>, p: Position)
  {
    exists i :: 0 <= i < |cs| && cs[i].position == p
  }

  /** The join types requested for node `p`, in registration order. */
  function TypesAt(cs: seq<Registration>, p: Position): (ts: seq<JoinType>)
    ensures |ts| > 0 <==> Mentions(cs, p)
    decreases |cs|
  {
    if cs == [] then []
    else
      var before := TypesAt(cs[..|cs| - 1], p);
      assert forall i :: 0 <= i < |cs| - 1 ==> cs[..|cs| - 1][i] == cs[i];
      if cs[|cs| - 1].position == p then before + [cs[|cs| - 1].joinType] else before
  }

  predicate AllAre(ts: seq<JoinType>, t: JoinType)
  {
    forall i :: 0 <= i < |ts| ==> ts[i] == t
  }

  /**
   * The join type a node ends up with, stated without folding: the common type
   * when all requests agree, `inner` otherwise.
   */
  function Agreed(ts: seq<JoinType>): JoinType
    requires |ts| > 0
  {
    if AllAre(ts, ts[0]) then ts[0] else Inner
  }

  lemma MergeAgreed(ts: seq<JoinType>, t: JoinType)
    requires |ts| > 0
    ensures Merge(Agreed(ts), t) == Agreed(ts + [t])
  {
    var us := ts + [t];
    if !AllAre(ts, ts[0]) {
      var i :| 0 <= i < |ts| && ts[i] != ts[0];
      assert us[i] != us[0];
    } else if t != ts[0] {
      assert us[|ts|] != us[0];
    }
  }

  /**
   * Registration deduplicates: every node is listed once, the listed nodes are
   * exactly the registered ones, and each node's join type is the agreed type of
   * all requests for it, whatever their order.
   */
  lemma {:induction false} RegisterAllFacts(cs: seq<Registration>)
    ensures Distinct(RegisterAll(cs).order)
    ensures forall p :: p in RegisterAll(cs).order <==> p in RegisterAll(cs).types
    ensures forall p :: p in RegisterAll(cs).types <==> Mentions(cs, p)
    ensures forall p :: p in RegisterAll(cs).types ==> RegisterAll(cs).types[p] == Agreed(TypesAt(cs, p))
    decreases |cs|
  {
    if cs != [] {
      var init := cs[..|cs| - 1];
      var c := cs[|cs| - 1];
      RegisterAllFacts(init);
      assert init + [c] == cs;
      assert Facts(init, RegisterAll(init));
      if c.position in RegisterAll(init).types {
        KnownFacts(init, RegisterAll(init), c);
      } else {
        NewFacts(init, RegisterAll(init), c);
      }
      assert Facts(cs, RegisterAll(cs));
    }
  }

  /** The facts of `RegisterAllFacts` about registry `r` built from requests `cs`. */
  ghost predicate Facts(cs: seq<Registration>, r: Registry)
  {
    && Distinct(r.order)
    && (forall p :: p in r.order <==> p in r.types)
    && (forall p :: p in r.types <==> Mentions(cs, p))
    && (forall p :: p in r.types ==> r.types[p] == Agreed(TypesAt(cs, p)))
  }

  /** A request for a known node keeps the facts. */
  lemma KnownFacts(init: seq<Registration>, r: Registry, c: Registration)
    requires Facts(init, r) && c.position in r.types
    ensures Facts(init + [c], Register(r, c))
  {
    var cs := init + [c];
    var q := c.position;
    var r' := Register(r, c);
    forall p ensures p in r'.types <==> Mentions(cs, p) {
      MentionsSnoc(init, c, p);
    }
    forall p | p in r'.types ensures r'.types[p] == Agreed(TypesAt(cs, p)) {
      TypesAtSnoc(init, c, p);
      if p == q { MergeAgreed(TypesAt(init, q), c.joinType); }
    }
  }

  /** A request for a new node keeps the facts. */
  lemma NewFacts(init: seq<Registration>, r: Registry, c: Registration)
    requires Facts(init, r) && c.position !in r.types
    ensures Facts(init + [c], Register(r, c))
  {
    var cs := init + [c];
    var q := c.position;
    var r' := Register(r, c);
    DistinctSnoc(r.order, q);
    forall p ensures p in r'.types <==> Mentions(cs, p) {
      MentionsSnoc(init, c, p);
    }
    forall p | p in r'.types ensures r'.types[p] == Agreed(TypesAt(cs, p)) {
      TypesAtSnoc(init, c, p);
      if p == q { assert TypesAt(init, q) == []; }
    }
  }

  lemma TypesAtSnoc(init: seq<Registration>, c: Registration, p: Position)
    ensures TypesAt(init + [c], p) == TypesAt(init, p) + (if c.position == p then [c.joinType] else [])
  {
    var cs := init + [c];
    assert cs[..|cs| - 1] == init && cs[|cs| - 1] == c;
  }

  lemma MentionsSnoc(init: seq<Registration>, c: Registration, p: Position)
    ensures Mentions(init + [c], p) <==> Mentions(init, p) || c.position == p
  {
    var cs := init + [c];
    if Mentions(cs, p) {
      var i :| 0 <= i < |cs| && cs[i].position == p;
      if i < |init| { assert init[i].position == p; }
    }
    if Mentions(init, p) {
      var i :| 0 <= i < |init| && init[i].position == p;
      assert cs[i].position == p;
    }
    assert cs[|init|] == c;
  }

  lemma DistinctSnoc<T>(s: seq<T>, x: T)
    requires Distinct(s) && x !in s
    ensures Distinct(s + [x])
  {
    var t := s + [x];
    forall i, j | 0 <= i < j < |t| ensures t[i] != t[j] {
      if j < |s| { assert t[i] == s[i] && t[j] == s[j]; }
      else { assert t[i] == s[i] && t[j] == x; }
    }
  }

  /** Registering one more request is one more Register step on the registry built so far. */
  lemma RegisterAllAppend(cs: seq<Registration>, c: Registration)
    ensures RegisterAll(cs + [c]) == Register(RegisterAll(cs), c)
  {
    assert (cs + [c])[..|cs|] == cs;
  }

  /**
   * Registering nodes that are already registered, each with a join type that
   * merges into the one it has, leaves the registry as it was: a node is
   * registered once however many paths name it.
   */
  lemma {:induction false} RegisterAllKnown(cs: seq<Registration>, extra: seq<Registration>)
    requires forall i :: 0 <= i < |extra| ==>
               && extra[i].position in RegisterAll(cs).types
               && Merge(RegisterAll(cs).types[extra[i].position], extra[i].joinType) == RegisterAll(cs).types[extra[i].position]
    ensures RegisterAll(cs + extra) == RegisterAll(cs)
    decreases |extra|
  {
    if extra == [] {
      assert cs + extra == cs;
    } else {
      var init := extra[..|extra| - 1];
      var c := extra[|extra| - 1];
      assert forall i :: 0 <= i < |init| ==> init[i] == extra[i];
      RegisterAllKnown(cs, init);
      assert cs + extra == (cs + init) + [c];
      RegisterAllAppend(cs + init, c);
      var r := RegisterAll(cs);
      assert r.types[c.position := Merge(r.types[c.position], c.joinType)] == r.types;
    }
  }

  lemma {:induction false} TypesAtAppend(a: seq<Registration>, b: seq<Registration>, p: Position)
    ensures TypesAt(a + b, p) == TypesAt(a, p) + TypesAt(b, p)
    decreases |b|
  {
    if b == [] {
      assert a + b == a;
    } else {
      var b' := b[..|b| - 1];
      var c := b[|b| - 1];
      TypesAtAppend(a, b', p);
      assert (a + b)[..|a + b| - 1] == a + b';
      assert (a + b)[|a + b| - 1] == c;
      var t := if c.position == p then [c.joinType] else [];
      assert TypesAt(b, p) == TypesAt(b', p) + t;
      assert TypesAt(a + b, p) == TypesAt(a + b', p) + t;
      assert TypesAt(a, p) + TypesAt(b', p) + t == TypesAt(a, p) + (TypesAt(b', p) + t);
    }
  }
}
