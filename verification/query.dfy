/** `QueryHandler.get_relations`: the relations between two elements of a
    store, the direct labels followed by what each undirected path between
    them contributes once inheritance hops are stripped from its ends. */
module Query {
  import opened Seqs
  import opened Graph
  import opened PathSearch
  import opened Rules

  /** A query handler: the store it queries and the store kept for
      relations between relation types, which is the first one unless
      another is given. */
  datatype Handler = Handler(database: Ontology, relationDb: Ontology)

  function NewHandler(database: Ontology, relationDb: Option<Ontology>): (h: Handler)
    ensures h.database == database
    ensures relationDb.None? ==> h.relationDb == database
    ensures relationDb.Some? ==> h.relationDb == relationDb.value
  {
    Handler(database, if relationDb.Some? then relationDb.value else database)
  }

  /** The store `get_relations` searches. */
  function Target(h: Handler, isRelation: bool): Ontology
  {
    if isRelation then h.relationDb else h.database
  }

  /** `set(rule.get_types('inherit'))`: the labels the reduction strips. */
  function InheritTypes(): set<string>
  {
    Elems(GetTypes("inherit"))
  }

  /** Some label of the list is in `inh`. */
  predicate Inherits(inh: set<string>, labels: seq<string>)
  {
    exists l :: l in labels && l in inh
  }

  /** The hop from `cur[k]` to `cur[k + 1]` carries a label of `inh`. */
  predicate FrontHop(o: Ontology, inh: set<string>, cur: seq<string>, k: nat)
    requires k + 1 < |cur|
  {
    Inherits(inh, GetEdges(o, cur[k], cur[k + 1]))
  }

  /** The hop from `cur[k]` back to `cur[k - 1]` carries a label of `inh`. */
  predicate BackHop(o: Ontology, inh: set<string>, cur: seq<string>, k: nat)
    requires 0 < k < |cur|
  {
    Inherits(inh, GetEdges(o, cur[k], cur[k - 1]))
  }

  /** The first reduction loop: drop the front node while its hop to the
      next one carries a label of `inh`. The result is a suffix that
      keeps at least one node, and the hop that stopped the loop does not
      carry such a label. */
  function StripFront(o: Ontology, inh: set<string>, cur: seq<string>): (r: seq<string>)
    ensures |r| <= |cur| && r == cur[|cur| - |r|..]
    ensures |cur| >= 1 ==> |r| >= 1
    ensures |r| >= 2 ==> !FrontHop(o, inh, r, 0)
    decreases |cur|
  {
    if |cur| >= 2 && FrontHop(o, inh, cur, 0) then
      var r := StripFront(o, inh, cur[1..]);
      assert r == cur[|cur| - |r|..] by {
        SuffixOfTail(cur, r);
      }
      r
    else
      assert cur[0..] == cur;
      cur
  }

  /** Every hop the first loop drops carries a label of `inh`. */
  lemma {:induction false} StripFrontDropped(o: Ontology, inh: set<string>, cur: seq<string>)
    ensures forall k: nat :: k < |cur| - |StripFront(o, inh, cur)| ==> FrontHop(o, inh, cur, k)
    decreases |cur|
  {
    if |cur| >= 2 && FrontHop(o, inh, cur, 0) {
      var tail := cur[1..];
      var r := StripFront(o, inh, tail);
      StripFrontDropped(o, inh, tail);
      forall k: nat | k < |cur| - |r| ensures FrontHop(o, inh, cur, k) {
        if k > 0 {
          assert FrontHop(o, inh, tail, k - 1);
          assert cur[k] == tail[k - 1] && cur[k + 1] == tail[k];
        }
      }
    }
  }

  /** The second reduction loop: drop the back node while its hop to the
      node before it carries a label of `inh`. The result is a prefix that
      keeps at least one node, and the hop that stopped the loop does not
      carry such a label. */
  function StripBack(o: Ontology, inh: set<string>, cur: seq<string>): (r: seq<string>)
    ensures |r| <= |cur| && r == cur[..|r|]
    ensures |cur| >= 1 ==> |r| >= 1
    ensures |r| >= 2 ==> !BackHop(o, inh, r, |r| - 1)
    decreases |cur|
  {
    if |cur| >= 2 && BackHop(o, inh, cur, |cur| - 1) then
      var r := StripBack(o, inh, cur[..|cur| - 1]);
      assert r == cur[..|r|] by {
        PrefixOfInit(cur, r);
      }
      r
    else
      assert cur[..|cur|] == cur;
      cur
  }

  /** Every hop the second loop drops carries a label of `inh`. */
  lemma {:induction false} StripBackDropped(o: Ontology, inh: set<string>, cur: seq<string>)
    ensures forall k: nat :: |StripBack(o, inh, cur)| <= k < |cur| && 0 < k ==> BackHop(o, inh, cur, k)
    decreases |cur|
  {
    if |cur| >= 2 && BackHop(o, inh, cur, |cur| - 1) {
      var init := cur[..|cur| - 1];
      var r := StripBack(o, inh, init);
      StripBackDropped(o, inh, init);
      forall k: nat | |r| <= k < |cur| && 0 < k ensures BackHop(o, inh, cur, k) {
        if k < |cur| - 1 {
          assert BackHop(o, inh, init, k);
          assert cur[k] == init[k] && cur[k - 1] == init[k - 1];
        }
      }
    }
  }

  /** A path reduced from both ends. */
  function Reduce(o: Ontology, inh: set<string>, p: seq<string>): (r: seq<string>)
    ensures |p| >= 1 ==> |r| >= 1
    ensures |r| >= 2 ==> !FrontHop(o, inh, r, 0) && !BackHop(o, inh, r, |r| - 1)
  {
    var f := StripFront(o, inh, p);
    var r := StripBack(o, inh, f);
    assert |r| >= 2 ==> r[0] == f[0] && r[1] == f[1];
    r
  }

  /** The reduced path is a contiguous piece of the path, and a path keeps
      at least one node. */
  lemma ReduceIsSlice(o: Ontology, inh: set<string>, p: seq<string>)
    ensures |p| >= 1 ==> |Reduce(o, inh, p)| >= 1
    ensures exists a, b :: 0 <= a <= b <= |p| && Reduce(o, inh, p) == p[a..b]
  {
    var f := StripFront(o, inh, p);
    var r := StripBack(o, inh, f);
    SliceOfSuffix(p, f, r);
  }

  /** What one path adds to the result: nothing for a direct hop; the
      direct labels again when the path reduces to two nodes; the inner
      relation of the category when it reduces to one node, which raises
      `KeyError` (`None`) for a node without attributes; nothing
      otherwise. */
  function Contribution(o: Ontology, inh: set<string>, uid1: string, uid2: string, p: seq<string>): (r: Option<seq<string>>)
    ensures r.None? <==> |p| != 2 && |Reduce(o, inh, p)| == 1 && Reduce(o, inh, p)[0] !in o.node
    ensures r.Some? ==> forall l :: l in r.value ==> l in GetEdges(o, uid1, uid2) || l == "exclude"
    ensures |p| == 2 ==> r == Some([])
    ensures |p| != 2 && |Reduce(o, inh, p)| == 2 ==> r == Some(GetEdges(o, uid1, uid2))
    ensures |p| != 2 && |Reduce(o, inh, p)| == 1 && Reduce(o, inh, p)[0] in o.node ==>
              r == Some(InnerRelation(o.node[Reduce(o, inh, p)[0]]))
    ensures |p| != 2 && |Reduce(o, inh, p)| != 1 && |Reduce(o, inh, p)| != 2 ==> r == Some([])
  {
    if |p| == 2 then Some([])
    else
      var cur := Reduce(o, inh, p);
      if |cur| == 2 then Some(GetEdges(o, uid1, uid2))
      else if |cur| == 1 then
        if cur[0] in o.node then Some(InnerRelation(o.node[cur[0]])) else None
      else Some([])
  }

  /** The loop over the paths: each contribution appended in turn, the
      first `KeyError` ending the whole query. */
  function Collect(f: seq<string> -> Option<seq<string>>, ps: seq<seq<string>>): (r: Option<seq<string>>)
    ensures r.None? <==> exists p :: p in ps && f(p).None?
    ensures r.Some? ==> forall l :: l in r.value <==> exists p :: p in ps && f(p).Some? && l in f(p).value
  {
    if ps == [] then Some([])
    else
      var init := ps[..|ps| - 1];
      var last := ps[|ps| - 1];
      assert ps == init + [last];
      match Collect(f, init)
      case None => None
      case Some(acc) =>
        match f(last)
        case None => None
        case Some(c) => Some(acc + c)
  }

  /** `get_relations(uid1, uid2, strict, is_relation)`. `None` is a
      `KeyError`, from the path search or from a category without
      attributes; `ps` is the list of paths the search returned. The result
      starts with the direct labels from `uid1` to `uid2`, and what follows
      them is collected from exactly the paths of the undirected search
      under its default bound. `strict` is accepted and ignored, as in the
      source. */
  method GetRelations(h: Handler, uid1: string, uid2: string, strict: bool, isRelation: bool)
    returns (r: Option<seq<string>>, ghost ps: seq<seq<string>>)
    ensures var o := Target(h, isRelation);
      r.Some? ==> |GetEdges(o, uid1, uid2)| <= |r.value|
                  && r.value[..|GetEdges(o, uid1, uid2)|] == GetEdges(o, uid1, uid2)
    ensures var o := Target(h, isRelation);
      r.Some? ==> Collect(p => Contribution(o, InheritTypes(), uid1, uid2, p), ps) == Some(r.value[|GetEdges(o, uid1, uid2)|..])
    ensures var o := Target(h, isRelation);
      forall p :: p in ps ==> PathOK(SearchOf(o, false, None, uid2, None), uid1, p)
    ensures var o := Target(h, isRelation);
      InGraph(o, false, uid1) && InGraph(o, false, uid2) && r.Some? ==>
        (forall p :: PathOK(SearchOf(o, false, None, uid2, None), uid1, p) ==> p in ps)
    ensures var o := Target(h, isRelation);
      !InGraph(o, false, uid1) || !InGraph(o, false, uid2) ==> r == Some(GetEdges(o, uid1, uid2))
    ensures var o := Target(h, isRelation);
      Valid(o) && (forall x :: x in o.skeleton ==> x in o.node) ==> r.Some?
    ensures var o := Target(h, isRelation);
      r.None? ==> !Closed(o, false) || exists p :: p in ps && Contribution(o, InheritTypes(), uid1, uid2, p).None?
    ensures r.Some? ==> NoDup(ps)
  {
    var o := Target(h, isRelation);
    var found := Paths(o, uid1, uid2, false, None, None);
    ps := [];
    if found.None? {
      r := None;
      return;
    }
    var paths := found.value;
    ps := paths;
    var direct := GetEdges(o, uid1, uid2);
    if Valid(o) && (forall x :: x in o.skeleton ==> x in o.node) {
      SkeletonClosed(o);
      forall p | p in paths ensures |p| >= 1 && forall x :: x in p ==> x in o.node {
        forall x | x in p ensures x in o.node {
          var k :| 0 <= k < |p| && p[k] == x;
          PathNodesInGraph(SearchOf(o, false, None, uid2, None), uid1, p, k);
        }
      }
      CollectSafe(o, InheritTypes(), uid1, uid2, paths);
    }
    var more := Collect(p => Contribution(o, InheritTypes(), uid1, uid2, p), paths);
    if more.None? {
      r := None;
      return;
    }
    r := Some(direct + more.value);
    if !InGraph(o, false, uid1) || !InGraph(o, false, uid2) {
      assert paths == [];
      assert more == Some([]);
      assert direct + [] == direct;
    }
    assert r.value[..|direct|] == direct;
    assert r.value[|direct|..] == more.value;
  }

  /** Every label the query returns is a direct label from `uid1` to
      `uid2`, or `exclude`. */
  lemma LabelsAreDirectOrExclude(o: Ontology, inh: set<string>, uid1: string, uid2: string, ps: seq<seq<string>>)
    requires Collect(p => Contribution(o, inh, uid1, uid2, p), ps).Some?
    ensures forall l :: l in Collect(p => Contribution(o, inh, uid1, uid2, p), ps).value
              ==> l in GetEdges(o, uid1, uid2) || l == "exclude"
  {
  }

  /** `exclude` is added exactly when some path longer than a direct hop
      reduces to one exclusive category, or reduces to two nodes while
      `exclude` is among the direct labels. */
  lemma ExcludeFromExclusiveCategory(o: Ontology, inh: set<string>, uid1: string, uid2: string, ps: seq<seq<string>>)
    requires Collect(p => Contribution(o, inh, uid1, uid2, p), ps).Some?
    ensures "exclude" in Collect(p => Contribution(o, inh, uid1, uid2, p), ps).value
        <==> exists p :: p in ps && |p| != 2
               && ((|Reduce(o, inh, p)| == 1 && "exclusive" in o.node[Reduce(o, inh, p)[0]])
                   || (|Reduce(o, inh, p)| == 2 && "exclude" in GetEdges(o, uid1, uid2)))
  {
    var f := p => Contribution(o, inh, uid1, uid2, p);
    var cs := Collect(f, ps).value;
    if "exclude" in cs {
      var p :| p in ps && f(p).Some? && "exclude" in f(p).value;
      assert |p| != 2;
    } else {
      forall p | p in ps && |p| != 2
        ensures !(|Reduce(o, inh, p)| == 1 && "exclusive" in o.node[Reduce(o, inh, p)[0]])
        ensures !(|Reduce(o, inh, p)| == 2 && "exclude" in GetEdges(o, uid1, uid2))
      {
        assert f(p).Some?;
      }
    }
  }

  /** No `KeyError` is raised when every node of every path has
      attributes. */
  lemma CollectSafe(o: Ontology, inh: set<string>, uid1: string, uid2: string, ps: seq<seq<string>>)
    requires forall p :: p in ps ==> |p| >= 1 && forall x :: x in p ==> x in o.node
    ensures Collect(p => Contribution(o, inh, uid1, uid2, p), ps).Some?
  {
    forall p | p in ps ensures Contribution(o, inh, uid1, uid2, p).Some? {
      ReduceHeadInPath(o, inh, p);
    }
  }

  /** The first node left by the reduction is a node of the path. */
  lemma ReduceHeadInPath(o: Ontology, inh: set<string>, p: seq<string>)
    requires |p| >= 1
    ensures |Reduce(o, inh, p)| >= 1 && Reduce(o, inh, p)[0] in p
  {
    var f := StripFront(o, inh, p);
    var r := StripBack(o, inh, f);
    assert r[0] == f[0] == p[|p| - |f|];
  }

  // ---------------------------------------------------------------------
  // The reduction to two categories, as evidently intended

  /** The contribution of a path reduced to two nodes as the comment
      "relation between parent categories" describes it: the labels from
      the first category to the second. Everywhere else it is the
      contribution as written. */
  function ContributionIntended(o: Ontology, inh: set<string>, uid1: string, uid2: string, p: seq<string>): (r: Option<seq<string>>)
    ensures |p| != 2 && |Reduce(o, inh, p)| == 2 ==>
      r == Some(GetEdges(o, Reduce(o, inh, p)[0], Reduce(o, inh, p)[1]))
    ensures |p| == 2 || |Reduce(o, inh, p)| != 2 ==> r == Contribution(o, inh, uid1, uid2, p)
  {
    if |p| == 2 then Some([])
    else
      var cur := Reduce(o, inh, p);
      if |cur| == 2 then Some(GetEdges(o, cur[0], cur[1]))
      else Contribution(o, inh, uid1, uid2, p)
  }

  /** `get_relations` with both corrections: paths are searched under the
      bound `len(nodes)`, and a path reduced to two categories contributes
      the labels between those categories. */
  method GetRelationsIntended(h: Handler, uid1: string, uid2: string, isRelation: bool)
    returns (r: Option<seq<string>>, ghost ps: seq<seq<string>>)
    ensures var o := Target(h, isRelation);
      r.Some? ==> |GetEdges(o, uid1, uid2)| <= |r.value|
                  && r.value[..|GetEdges(o, uid1, uid2)|] == GetEdges(o, uid1, uid2)
    ensures var o := Target(h, isRelation);
      r.Some? ==> Collect(p => ContributionIntended(o, InheritTypes(), uid1, uid2, p), ps) == Some(r.value[|GetEdges(o, uid1, uid2)|..])
    ensures var o := Target(h, isRelation);
      forall p :: p in ps ==> PathOK(SearchOf(o, false, None, uid2, Some(IntendedMaxLen(o))), uid1, p)
    ensures var o := Target(h, isRelation);
      InGraph(o, false, uid1) && InGraph(o, false, uid2) && r.Some? ==>
        (forall p :: PathOK(SearchOf(o, false, None, uid2, Some(IntendedMaxLen(o))), uid1, p) ==> p in ps)
  {
    var o := Target(h, isRelation);
    var found := Paths(o, uid1, uid2, false, None, Some(IntendedMaxLen(o)));
    ps := [];
    if found.None? {
      r := None;
      return;
    }
    var paths := found.value;
    ps := paths;
    var direct := GetEdges(o, uid1, uid2);
    var more := Collect(p => ContributionIntended(o, InheritTypes(), uid1, uid2, p), paths);
    if more.None? {
      r := None;
      return;
    }
    r := Some(direct + more.value);
    assert r.value[..|direct|] == direct;
    assert r.value[|direct|..] == more.value;
  }

  lemma InheritTypesValue()
    ensures InheritTypes() == {"inherit", "is"}
  {
    GetTypesOfInherit();
  }

  /** Four distinct node names. */
  predicate Distinct4(a: string, b: string, c: string, d: string)
  {
    a != b && a != c && a != d && b != c && b != d && c != d
  }

  /** Two tokens of two categories: `a` inherits from category `b`, `d`
      from category `c`, and `b likes c`. */
  function CatNodes(a: string, b: string, c: string, d: string): Ontology
  {
    AddNodes(Empty("node"), [a, b, c, d])
  }

  function CatTriples(a: string, b: string, c: string, d: string): seq<Triple>
  {
    [Triple(a, b, "inherit"), Triple(b, c, "likes"), Triple(d, c, "inherit")]
  }

  function Categories(a: string, b: string, c: string, d: string): Ontology
  {
    AddEdges(CatNodes(a, b, c, d), CatTriples(a, b, c, d))
  }

  lemma CatNodesShape(a: string, b: string, c: string, d: string)
    requires Distinct4(a, b, c, d)
    ensures |CatNodes(a, b, c, d).nodes| == 4
    ensures CatNodes(a, b, c, d).edges == [] && CatNodes(a, b, c, d).skeleton == map[]
  {
    var ns := [a, b, c, d];
    NoDupFour(a, b, c, d);
    assert [] + ns == ns;
    AddNodesFresh(Empty("node"), ns, a, b);
  }

  lemma CatNodesNoLabels(a: string, b: string, c: string, d: string, x: string, y: string)
    requires Distinct4(a, b, c, d)
    ensures GetEdges(CatNodes(a, b, c, d), x, y) == []
  {
    var ns := [a, b, c, d];
    NoDupFour(a, b, c, d);
    assert [] + ns == ns;
    AddNodesFresh(Empty("node"), ns, x, y);
  }

  /** The label lists of the pairs the example is queried at. */
  lemma CatLabels(a: string, b: string, c: string, d: string)
    requires Distinct4(a, b, c, d)
    ensures LabelsOf(CatTriples(a, b, c, d), a, b) == ["inherit"]
    ensures LabelsOf(CatTriples(a, b, c, d), b, c) == ["likes"]
    ensures LabelsOf(CatTriples(a, b, c, d), d, c) == ["inherit"]
    ensures LabelsOf(CatTriples(a, b, c, d), c, b) == [] && LabelsOf(CatTriples(a, b, c, d), a, d) == []
  {
    var t1, t2, t3 := Triple(a, b, "inherit"), Triple(b, c, "likes"), Triple(d, c, "inherit");
    LabelsOfThree(t1, t2, t3, a, b);
    LabelsOfThree(t1, t2, t3, b, c);
    LabelsOfThree(t1, t2, t3, d, c);
    LabelsOfThree(t1, t2, t3, c, b);
    LabelsOfThree(t1, t2, t3, a, d);
  }

  /** The facts about the example store that the reduction and the search
      rely on. */
  ghost predicate CategoriesLike(o: Ontology, a: string, b: string, c: string, d: string)
  {
    && Distinct4(a, b, c, d)
    && |o.nodes| == 4
    && Adjacent(o, a, b) && Adjacent(o, b, c) && Adjacent(o, c, d)
    && GetEdges(o, a, b) == ["inherit"]
    && GetEdges(o, b, c) == ["likes"]
    && GetEdges(o, d, c) == ["inherit"]
    && GetEdges(o, c, b) == [] && GetEdges(o, a, d) == []
  }

  lemma CatTriplesFresh(a: string, b: string, c: string, d: string)
    requires Distinct4(a, b, c, d)
    ensures NoDup(CatNodes(a, b, c, d).edges + CatTriples(a, b, c, d))
  {
    var ts := CatTriples(a, b, c, d);
    assert CatNodes(a, b, c, d).edges + ts == ts;
    NoDupThree(ts[0], ts[1], ts[2]);
  }

  lemma CategoriesLabels(a: string, b: string, c: string, d: string)
    requires Distinct4(a, b, c, d)
    ensures GetEdges(Categories(a, b, c, d), a, b) == ["inherit"]
    ensures GetEdges(Categories(a, b, c, d), b, c) == ["likes"]
    ensures GetEdges(Categories(a, b, c, d), d, c) == ["inherit"]
    ensures GetEdges(Categories(a, b, c, d), c, b) == [] && GetEdges(Categories(a, b, c, d), a, d) == []
  {
    var o := CatNodes(a, b, c, d);
    var ts := CatTriples(a, b, c, d);
    CatLabels(a, b, c, d);
    CatTriplesFresh(a, b, c, d);
    CatNodesNoLabels(a, b, c, d, a, b);
    CatNodesNoLabels(a, b, c, d, b, c);
    CatNodesNoLabels(a, b, c, d, d, c);
    CatNodesNoLabels(a, b, c, d, c, b);
    CatNodesNoLabels(a, b, c, d, a, d);
    AddEdgesGet(o, ts, a, b);
    AddEdgesGet(o, ts, b, c);
    AddEdgesGet(o, ts, d, c);
    AddEdgesGet(o, ts, c, b);
    AddEdgesGet(o, ts, a, d);
  }

  lemma CategoriesAdjacent(a: string, b: string, c: string, d: string)
    requires Distinct4(a, b, c, d)
    ensures Adjacent(Categories(a, b, c, d), a, b)
    ensures Adjacent(Categories(a, b, c, d), b, c)
    ensures Adjacent(Categories(a, b, c, d), c, d)
  {
    var o := CatNodes(a, b, c, d);
    var ts := CatTriples(a, b, c, d);
    CatLabels(a, b, c, d);
    CatTriplesFresh(a, b, c, d);
    assert Linked(ts, a, b) && Linked(ts, b, c) && Linked(ts, c, d);
    AddEdgesAdjacent(o, ts, a, b);
    AddEdgesAdjacent(o, ts, b, c);
    AddEdgesAdjacent(o, ts, c, d);
  }

  lemma CategoriesShape(a: string, b: string, c: string, d: string)
    requires Distinct4(a, b, c, d)
    ensures CategoriesLike(Categories(a, b, c, d), a, b, c, d)
  {
    CatNodesShape(a, b, c, d);
    CategoriesLabels(a, b, c, d);
    CategoriesAdjacent(a, b, c, d);
  }

  lemma CategoriesStripFront(o: Ontology, inh: set<string>, a: string, b: string, c: string, d: string)
    requires CategoriesLike(o, a, b, c, d) && inh == {"inherit", "is"}
    ensures StripFront(o, inh, [a, b, c, d]) == [b, c, d]
  {
    assert FrontHop(o, inh, [a, b, c, d], 0) by {
      assert "inherit" in GetEdges(o, a, b);
    }
    assert !FrontHop(o, inh, [b, c, d], 0);
    assert [a, b, c, d][1..] == [b, c, d];
  }

  lemma CategoriesStripBack(o: Ontology, inh: set<string>, a: string, b: string, c: string, d: string)
    requires CategoriesLike(o, a, b, c, d) && inh == {"inherit", "is"}
    ensures StripBack(o, inh, [b, c, d]) == [b, c]
  {
    assert BackHop(o, inh, [b, c, d], 2) by {
      assert "inherit" in GetEdges(o, d, c);
    }
    assert !BackHop(o, inh, [b, c], 1);
    assert [b, c, d][..2] == [b, c];
  }

  /** The path `a b c d` reduces to the two categories `b c`. As written
      it then contributes the labels from `a` to `d` again, and there are
      none; as intended it contributes the relation `likes` between the
      two categories. */
  lemma CategoriesContribution(o: Ontology, a: string, b: string, c: string, d: string)
    requires CategoriesLike(o, a, b, c, d)
    ensures Reduce(o, InheritTypes(), [a, b, c, d]) == [b, c]
    ensures Contribution(o, InheritTypes(), a, d, [a, b, c, d]) == Some([])
    ensures ContributionIntended(o, InheritTypes(), a, d, [a, b, c, d]) == Some(["likes"])
  {
    InheritTypesValue();
    CategoriesStripFront(o, InheritTypes(), a, b, c, d);
    CategoriesStripBack(o, InheritTypes(), a, b, c, d);
  }

  /** `a b c d` is a path from `a` to `d` under the bound `len(nodes)`. */
  lemma CategoriesPath(o: Ontology, a: string, b: string, c: string, d: string)
    requires CategoriesLike(o, a, b, c, d)
    ensures PathOK(SearchOf(o, false, None, d, Some(IntendedMaxLen(o))), a, [a, b, c, d])
  {
    var s := SearchOf(o, false, None, d, Some(IntendedMaxLen(o)));
    var p := [a, b, c, d];
    assert Step(s, a, b) && Step(s, b, c) && Step(s, c, d);
    assert p[..3] == [a, b, c];
    assert NoDup(p[..3]);
  }

  lemma RelationFoundIn(o: Ontology, a: string, b: string, c: string, d: string, ps: seq<seq<string>>, cs: seq<string>)
    requires CategoriesLike(o, a, b, c, d)
    requires forall p :: PathOK(SearchOf(o, false, None, d, Some(IntendedMaxLen(o))), a, p) ==> p in ps
    requires Collect(p => ContributionIntended(o, InheritTypes(), a, d, p), ps) == Some(cs)
    ensures "likes" in cs
  {
    var f := p => ContributionIntended(o, InheritTypes(), a, d, p);
    var p := [a, b, c, d];
    CategoriesPath(o, a, b, c, d);
    CategoriesContribution(o, a, b, c, d);
    assert p in ps;
    assert f(p) == Some(["likes"]);
    assert Collect(f, ps) == Some(cs);
    assert "likes" in f(p).value;
  }

  /** With both corrections the category relation reaches the query:
      `likes` is among the relations found between `a` and `d` in the
      example store, whatever its four distinct node names. */
  lemma CategoryRelationFound(a: string, b: string, c: string, d: string, ps: seq<seq<string>>, cs: seq<string>)
    requires Distinct4(a, b, c, d)
    requires forall p :: PathOK(SearchOf(Categories(a, b, c, d), false, None, d, Some(IntendedMaxLen(Categories(a, b, c, d)))), a, p) ==> p in ps
    requires Collect(p => ContributionIntended(Categories(a, b, c, d), InheritTypes(), a, d, p), ps) == Some(cs)
    ensures "likes" in cs
  {
    CategoriesShape(a, b, c, d);
    RelationFoundIn(Categories(a, b, c, d), a, b, c, d, ps, cs);
  }
}
