/** `Ontology.paths`: a depth-first enumeration of the paths from `src` to
    `tgt`, over the directed label map or the undirected skeleton,
    optionally restricted to hops carrying an allowed label and bounded by
    a maximum number of nodes. */
module PathSearch {
  import opened Seqs
  import opened Graph

  /** The fixed arguments of one search. `maxlen` bounds the number of
      nodes on a returned path. */
  datatype Search = Search(
    o: Ontology,
    directed: bool,
    relations: Option<set<string>>,
    tgt: string,
    maxlen: int)

  /** `src in graph`: a key of `edge` (directed) or of `skeleton`. */
  predicate InGraph(o: Ontology, directed: bool, x: string)
  {
    if directed then x in o.edge else x in o.skeleton
  }

  /** `y in graph[x]`. */
  predicate Edge(o: Ontology, directed: bool, x: string, y: string)
  {
    if directed then HasPair(o, x, y) else Adjacent(o, x, y)
  }

  /** The graph `paths` walks, as a map from node to neighbour set. */
  function GraphMap(o: Ontology, directed: bool): (g: map<string, set<string>>)
    ensures forall x :: x in g <==> InGraph(o, directed, x)
    ensures forall x, y :: x in g ==> (y in g[x] <==> Edge(o, directed, x, y))
  {
    if directed then map x | x in o.edge :: o.edge[x].Keys else o.skeleton
  }

  /** The labels checked for a hop `a -> b`: `get_edges(a, b)`, and also
      `get_edges(b, a)` in an undirected search. */
  function HopLabels(o: Ontology, directed: bool, a: string, b: string): seq<string>
  {
    GetEdges(o, a, b) + (if directed then [] else GetEdges(o, b, a))
  }

  /** In a consistent store the labels checked for a hop are those of the
      triples joining its ends, in either direction when undirected. */
  lemma HopLabelsAreTriples(o: Ontology, directed: bool, a: string, b: string)
    requires Valid(o)
    ensures forall l :: l in HopLabels(o, directed, a, b) <==>
              Triple(a, b, l) in o.edges || (!directed && Triple(b, a, l) in o.edges)
  {
    assert GetEdges(o, a, b) == LabelsOf(o.edges, a, b);
    assert GetEdges(o, b, a) == LabelsOf(o.edges, b, a);
  }

  /** The store after the label check of an undirected hop `a -> b` as
      written: `rels` is the very list stored under `edge[a][b]`, so
      `rels += get_edges(b, a)` extends the stored list. When no such list
      exists a fresh empty one is extended and the store is untouched. */
  function FilterAsWritten(o: Ontology, a: string, b: string): (r: Ontology)
    ensures r.edges == o.edges && r.nodes == o.nodes && r.skeleton == o.skeleton
    ensures HasPair(o, a, b) ==> GetEdges(r, a, b) == HopLabels(o, false, a, b)
    ensures forall i, j :: (i, j) != (a, b) ==> GetEdges(r, i, j) == GetEdges(o, i, j)
  {
    if HasPair(o, a, b) then o.(edge := o.edge[a := o.edge[a][b := HopLabels(o, false, a, b)]])
    else o
  }

  /** As written, checking a hop whose reverse carries a label the hop
      lacks leaves `edge[a][b]` listing a label no triple `a -> b` has. */
  lemma FilterAsWrittenCorrupts(o: Ontology, a: string, b: string, l: string)
    requires Valid(o) && HasPair(o, a, b)
    requires l in GetEdges(o, b, a) && l !in GetEdges(o, a, b)
    ensures !Valid(FilterAsWritten(o, a, b))
  {
    var r := FilterAsWritten(o, a, b);
    assert l in GetEdges(r, a, b);
    assert Triple(a, b, l) !in r.edges by {
      assert GetEdges(o, a, b) == LabelsOf(o.edges, a, b);
    }
    assert GetEdges(r, a, b) != LabelsOf(r.edges, a, b);
  }

  /** A hop passes the label filter: no filter is given, or one of its
      labels is among the allowed ones. */
  predicate HopAllowed(s: Search, a: string, b: string)
  {
    s.relations.None? || exists l :: l in HopLabels(s.o, s.directed, a, b) && l in s.relations.value
  }

  /** One hop of a returned path: an edge of the walked graph that passes
      the label filter. */
  predicate Step(s: Search, a: string, b: string)
  {
    Edge(s.o, s.directed, a, b) && HopAllowed(s, a, b)
  }

  /** A simple path from `src` to the target: at least two nodes, no node
      repeated before the target, the target met only at the end, and every
      hop a `Step`. When `src` is the target the path is a cycle through
      it. The bound `maxlen` plays no part here. */
  ghost predicate SimplePath(s: Search, src: string, p: seq<string>)
  {
    && 2 <= |p|
    && p[0] == src && p[|p| - 1] == s.tgt
    && NoDup(p[..|p| - 1])
    && (forall k :: 0 < k < |p| - 1 ==> p[k] != s.tgt)
    && (forall k :: 0 <= k < |p| - 1 ==> Step(s, p[k], p[k + 1]))
  }

  /** What a returned path is: a simple path of at most `maxlen` nodes. */
  ghost predicate PathOK(s: Search, src: string, p: seq<string>)
  {
    SimplePath(s, src, p) && |p| <= s.maxlen
  }

  /** `adj` lists, for every node of the walked graph, its neighbours in
      some order. */
  ghost predicate Lists(s: Search, adj: map<string, seq<string>>)
  {
    && (forall x :: x in adj <==> InGraph(s.o, s.directed, x))
    && (forall x, y :: x in adj ==> (y in adj[x] <==> Edge(s.o, s.directed, x, y)))
  }

  function Listed(adj: map<string, seq<string>>, x: string): seq<string>
  {
    if x in adj then adj[x] else []
  }

  /** The search loop of `paths`, as a recursion over the stack it keeps:
      `visited` is the current path and `pocket` the neighbours of its last
      node still to try, taken from the end. A full path is recorded when
      the target is met; a node not yet on the path is descended into; the
      whole pocket is dropped once the path holds `maxlen` nodes. */
  function Explore(s: Search, adj: map<string, seq<string>>, visited: seq<string>, pocket: seq<string>): (r: seq<seq<string>>)
    requires |visited| >= 1
    ensures forall p :: p in r ==> |visited| < |p| <= s.maxlen && p[|p| - 1] == s.tgt
    decreases if s.maxlen > |visited| then s.maxlen - |visited| else 0, |pocket|
  {
    if pocket == [] || |visited| >= s.maxlen then []
    else
      var nxt := pocket[|pocket| - 1];
      var later := Explore(s, adj, visited, pocket[..|pocket| - 1]);
      if !HopAllowed(s, visited[|visited| - 1], nxt) then later
      else if nxt == s.tgt then [visited + [nxt]] + later
      else if nxt in visited then later
      else Explore(s, adj, visited + [nxt], Listed(adj, nxt)) + later
  }

  /** The same search raises `KeyError` when it descends into a node that
      has no entry in the walked graph (`graph[nxt]`). This can only happen
      in a directed search, through a node that has incoming but no
      outgoing edges and was never added. */
  predicate Crashes(s: Search, adj: map<string, seq<string>>, visited: seq<string>, pocket: seq<string>)
    requires |visited| >= 1
    ensures Crashes(s, adj, visited, pocket) ==> pocket != [] && |visited| < s.maxlen
    decreases if s.maxlen > |visited| then s.maxlen - |visited| else 0, |pocket|
  {
    if pocket == [] || |visited| >= s.maxlen then false
    else
      var nxt := pocket[|pocket| - 1];
      var later := Crashes(s, adj, visited, pocket[..|pocket| - 1]);
      if !HopAllowed(s, visited[|visited| - 1], nxt) || nxt == s.tgt || nxt in visited then later
      else nxt !in adj || Crashes(s, adj, visited + [nxt], adj[nxt]) || later
  }

  /** Every neighbour of a node of the walked graph is itself a node of
      it. */
  ghost predicate Closed(o: Ontology, directed: bool)
  {
    forall x, y :: Edge(o, directed, x, y) ==> InGraph(o, directed, y)
  }

  /** Every hop of `visited` is a `Step`. */
  ghost predicate Steps(s: Search, visited: seq<string>)
  {
    forall k :: 0 <= k < |visited| - 1 ==> Step(s, visited[k], visited[k + 1])
  }

  lemma StepsSnoc(s: Search, visited: seq<string>, nxt: string)
    requires |visited| >= 1 && Steps(s, visited)
    requires Step(s, visited[|visited| - 1], nxt)
    ensures Steps(s, visited + [nxt])
  {
    var v := visited + [nxt];
    forall k | 0 <= k < |v| - 1 ensures Step(s, v[k], v[k + 1]) {
      if k < |visited| - 1 {
        assert v[k] == visited[k] && v[k + 1] == visited[k + 1];
      }
    }
  }

  /** Meeting the target from a simple stack that is short enough
      completes a path `PathOK` accepts. */
  lemma ReachTarget(s: Search, src: string, visited: seq<string>)
    requires |visited| >= 1 && visited[0] == src && NoDup(visited)
    requires forall k :: 0 < k < |visited| ==> visited[k] != s.tgt
    requires Steps(s, visited + [s.tgt]) && |visited| < s.maxlen
    ensures PathOK(s, src, visited + [s.tgt])
  {
    var v := visited + [s.tgt];
    assert v[..|v| - 1] == visited;
  }

  lemma {:induction false} ExploreSound(s: Search, adj: map<string, seq<string>>, src: string, visited: seq<string>, pocket: seq<string>)
    requires Lists(s, adj)
    requires |visited| >= 1 && visited[0] == src && NoDup(visited)
    requires forall k :: 0 < k < |visited| ==> visited[k] != s.tgt
    requires Steps(s, visited)
    requires forall y :: y in pocket ==> Edge(s.o, s.directed, visited[|visited| - 1], y)
    ensures forall p :: p in Explore(s, adj, visited, pocket) ==> PathOK(s, src, p)
    decreases if s.maxlen > |visited| then s.maxlen - |visited| else 0, |pocket|
  {
    if pocket != [] && |visited| < s.maxlen {
      var nxt := pocket[|pocket| - 1];
      var rest := pocket[..|pocket| - 1];
      assert pocket == rest + [nxt];
      assert nxt in pocket;
      assert forall y :: y in rest ==> y in pocket;
      ExploreSound(s, adj, src, visited, rest);
      if HopAllowed(s, visited[|visited| - 1], nxt) {
        StepsSnoc(s, visited, nxt);
        if nxt == s.tgt {
          ReachTarget(s, src, visited);
        } else if nxt !in visited {
          var v := visited + [nxt];
          NoDupSnoc(visited, nxt);
          assert forall k :: 0 < k < |v| ==> v[k] != s.tgt by {
            forall k | 0 < k < |v| ensures v[k] != s.tgt {
              if k < |visited| {
                assert v[k] == visited[k];
              }
            }
          }
          ExploreSound(s, adj, src, v, Listed(adj, nxt));
        }
      }
    }
  }

  lemma {:induction false} ExploreComplete(s: Search, adj: map<string, seq<string>>, src: string, p: seq<string>, visited: seq<string>, pocket: seq<string>)
    requires Lists(s, adj) && PathOK(s, src, p)
    requires 1 <= |visited| < |p| && visited == p[..|visited|]
    requires p[|visited|] in pocket
    ensures p in Explore(s, adj, visited, pocket)
    decreases if s.maxlen > |visited| then s.maxlen - |visited| else 0, |pocket|
  {
    var n := |visited|;
    var y := p[n];
    var nxt := pocket[|pocket| - 1];
    var rest := pocket[..|pocket| - 1];
    assert visited[n - 1] == p[n - 1];
    if nxt != y || !HopAllowed(s, visited[n - 1], nxt) {
      assert Step(s, p[n - 1], p[n]);
      assert y in rest by {
        assert pocket == rest + [nxt];
      }
      ExploreComplete(s, adj, src, p, visited, rest);
    } else if y == s.tgt {
      assert n == |p| - 1;
      assert p == visited + [y];
    } else {
      assert n < |p| - 1;
      assert y !in visited by {
        assert forall k :: 0 <= k < n ==> p[..|p| - 1][k] == p[k];
        assert p[..|p| - 1][n] == y;
      }
      assert Step(s, p[n], p[n + 1]);
      assert y in adj;
      assert p[..n + 1] == visited + [y];
      ExploreComplete(s, adj, src, p, visited + [y], adj[y]);
    }
  }

  /** Every path the search records from a stack extends the stack by
      one of the pocket's nodes. */
  lemma {:induction false} ExploreExtends(s: Search, adj: map<string, seq<string>>, visited: seq<string>, pocket: seq<string>)
    requires |visited| >= 1
    ensures forall p :: p in Explore(s, adj, visited, pocket) ==>
              |visited| < |p| && p[..|visited|] == visited && p[|visited|] in pocket
    decreases if s.maxlen > |visited| then s.maxlen - |visited| else 0, |pocket|
  {
    if pocket != [] && |visited| < s.maxlen {
      var nxt := pocket[|pocket| - 1];
      var rest := pocket[..|pocket| - 1];
      assert pocket == rest + [nxt];
      ExploreExtends(s, adj, visited, rest);
      assert forall y :: y in rest ==> y in pocket;
      var v := visited + [nxt];
      assert v[..|visited|] == visited;
      ExploreExtends(s, adj, v, Listed(adj, nxt));
      forall p | p in Explore(s, adj, v, Listed(adj, nxt))
        ensures p[..|visited|] == visited && p[|visited|] == nxt
      {
        assert p[..|v|][..|visited|] == p[..|visited|];
        assert p[..|v|][|visited|] == p[|visited|];
      }
    }
  }

  /** Each path is recorded once, when the neighbour lists repeat no
      node. */
  lemma {:induction false} ExploreNoDup(s: Search, adj: map<string, seq<string>>, visited: seq<string>, pocket: seq<string>)
    requires |visited| >= 1
    requires forall x :: x in adj ==> NoDup(adj[x])
    requires NoDup(pocket)
    ensures NoDup(Explore(s, adj, visited, pocket))
    decreases if s.maxlen > |visited| then s.maxlen - |visited| else 0, |pocket|
  {
    if pocket != [] && |visited| < s.maxlen {
      var nxt := pocket[|pocket| - 1];
      var rest := pocket[..|pocket| - 1];
      assert pocket == rest + [nxt];
      NoDupSnoc(rest, nxt);
      ExploreNoDup(s, adj, visited, rest);
      ExploreExtends(s, adj, visited, rest);
      var later := Explore(s, adj, visited, rest);
      var v := visited + [nxt];
      ExploreNoDup(s, adj, v, Listed(adj, nxt));
      ExploreExtends(s, adj, v, Listed(adj, nxt));
      var deeper := Explore(s, adj, v, Listed(adj, nxt));
      forall p | p in deeper ensures p !in later {
        assert p[..|v|][|visited|] == p[|visited|];
      }
      NoDupAppend(deeper, later);
      NoDupAppend([v], later);
    }
  }

  lemma {:induction false} ExploreNoCrash(s: Search, adj: map<string, seq<string>>, visited: seq<string>, pocket: seq<string>)
    requires Lists(s, adj) && Closed(s.o, s.directed)
    requires |visited| >= 1
    requires forall y :: y in pocket ==> Edge(s.o, s.directed, visited[|visited| - 1], y)
    ensures !Crashes(s, adj, visited, pocket)
    decreases if s.maxlen > |visited| then s.maxlen - |visited| else 0, |pocket|
  {
    if pocket != [] && |visited| < s.maxlen {
      var nxt := pocket[|pocket| - 1];
      var rest := pocket[..|pocket| - 1];
      assert pocket == rest + [nxt];
      assert nxt in pocket;
      assert forall y :: y in rest ==> y in pocket;
      ExploreNoCrash(s, adj, visited, rest);
      assert Edge(s.o, s.directed, visited[|visited| - 1], nxt);
      assert InGraph(s.o, s.directed, nxt);
      assert nxt in adj;
      ExploreNoCrash(s, adj, visited + [nxt], adj[nxt]);
    }
  }

  /** A consistent store's skeleton is closed: the undirected search never
      raises. */
  lemma {:induction false} SkeletonClosed(o: Ontology)
    requires Valid(o)
    ensures Closed(o, false)
  {
    forall x, y | Edge(o, false, x, y) ensures InGraph(o, false, y) {
      assert Adjacent(o, x, y) <==> Linked(o.edges, x, y);
      assert Adjacent(o, y, x) <==> Linked(o.edges, y, x);
    }
  }

  /** In a closed graph every node of a returned path is a node of the
      walked graph. */
  lemma {:induction false} PathNodesInGraph(s: Search, src: string, p: seq<string>, k: nat)
    requires Closed(s.o, s.directed) && InGraph(s.o, s.directed, src)
    requires PathOK(s, src, p) && k < |p|
    ensures InGraph(s.o, s.directed, p[k])
  {
    if k > 0 {
      PathNodesInGraph(s, src, p, k - 1);
      assert Step(s, p[k - 1], p[k]);
    }
  }

  // ---------------------------------------------------------------------
  // The method

  /** `list(s)`: the elements of a set, in an order the set does not fix. */
  method ListSet(s: set<string>) returns (xs: seq<string>)
    ensures NoDup(xs)
    ensures forall y :: y in xs <==> y in s
  {
    xs := [];
    var rest := s;
    while rest != {}
      invariant rest <= s
      invariant NoDup(xs)
      invariant forall y :: y in xs <==> y in s && y !in rest
      decreases |rest|
    {
      var y :| y in rest;
      xs := xs + [y];
      rest := rest - {y};
    }
  }

  /** The neighbour lists the search pops from, one per node of the walked
      graph. */
  method ListGraph(o: Ontology, directed: bool) returns (adj: map<string, seq<string>>)
    ensures forall x :: x in adj <==> InGraph(o, directed, x)
    ensures forall x, y :: x in adj ==> (y in adj[x] <==> Edge(o, directed, x, y))
    ensures forall x :: x in adj ==> NoDup(adj[x])
  {
    var g := GraphMap(o, directed);
    var keys := g.Keys;
    adj := map[];
    while keys != {}
      invariant keys <= g.Keys
      invariant forall x :: x in adj <==> x in g && x !in keys
      invariant forall x, y :: x in adj ==> (y in adj[x] <==> y in g[x])
      invariant forall x :: x in adj ==> NoDup(adj[x])
      decreases |keys|
    {
      var x :| x in keys;
      var xs := ListSet(g[x]);
      adj := adj[x := xs];
      keys := keys - {x};
    }
  }

  /** The default bound of `paths`: `len(nodes) - 1`. */
  function DefaultMaxLen(o: Ontology): int
  {
    |o.nodes| - 1
  }

  /** The default the bound evidently means: a simple path between two
      distinct nodes visits each node once, so `len(nodes)` nodes at most. */
  function IntendedMaxLen(o: Ontology): int
  {
    |o.nodes|
  }

  /** Under the intended default no simple path between two distinct
      nodes of the store is cut off. */
  lemma IntendedBoundKeepsSimplePaths(s: Search, src: string, p: seq<string>)
    requires s.maxlen == IntendedMaxLen(s.o)
    requires src != s.tgt && SimplePath(s, src, p)
    requires forall k :: 0 <= k < |p| ==> p[k] in s.o.nodes
    ensures PathOK(s, src, p)
  {
    var init := p[..|p| - 1];
    assert p == init + [s.tgt];
    forall k | 0 <= k < |init| ensures init[k] != s.tgt {
      if k == 0 {
        assert init[0] == src;
      } else {
        assert init[k] == p[k];
      }
    }
    assert NoDup(p);
    NoDupBound(p, s.o.nodes);
  }

  /** Three nodes in a chain, `a -x-> b -y-> c`, built in steps. */
  function ChainNodes(): Ontology
  {
    Add(Add(Add(Empty("node"), "a", NoAttr), "b", NoAttr), "c", NoAttr)
  }

  function ChainFirst(): Ontology
  {
    AddEdge(ChainNodes(), "a", "b", "x", false)
  }

  function Chain(): Ontology
  {
    AddEdge(ChainFirst(), "b", "c", "y", false)
  }

  lemma ChainNodesShape()
    ensures ChainNodes().nodes == ["a", "b", "c"]
    ensures ChainNodes().edges == [] && ChainNodes().skeleton == map[]
  {
  }

  lemma ChainFirstShape()
    ensures ChainFirst().edges == [Triple("a", "b", "x")]
    ensures Adjacent(ChainFirst(), "a", "b")
    ensures ChainFirst().nodes == ["a", "b", "c"]
  {
    ChainNodesShape();
  }

  lemma ChainShape()
    ensures Chain().nodes == ["a", "b", "c"]
    ensures Adjacent(Chain(), "a", "b") && Adjacent(Chain(), "b", "c")
  {
    ChainFirstShape();
    assert Triple("b", "c", "y") !in ChainFirst().edges;
  }

  /** The path `a, b, c` through a store shaped like `Chain()`. */
  lemma ChainPath(o: Ontology)
    requires o.nodes == ["a", "b", "c"]
    requires Adjacent(o, "a", "b") && Adjacent(o, "b", "c")
    ensures SimplePath(SearchOf(o, false, None, "c", None), "a", ["a", "b", "c"])
    ensures !PathOK(SearchOf(o, false, None, "c", None), "a", ["a", "b", "c"])
    ensures PathOK(SearchOf(o, false, None, "c", Some(IntendedMaxLen(o))), "a", ["a", "b", "c"])
  {
    var p := ["a", "b", "c"];
    var s := SearchOf(o, false, None, "c", None);
    var s' := SearchOf(o, false, None, "c", Some(IntendedMaxLen(o)));
    assert s.maxlen == 2 && s'.maxlen == 3;
    assert p[..2] == ["a", "b"];
    assert Step(s, p[0], p[1]) && Step(s, p[1], p[2]);
    assert Step(s', p[0], p[1]) && Step(s', p[1], p[2]);
  }

  /** The default `len(nodes) - 1` loses the one path from `a` to `c` in
      `Chain()`: it is a simple path of three nodes, the bound is two, so
      `paths("a", "c")` never returns it; with the intended bound it is
      kept. */
  lemma DefaultBoundMissesChain()
    ensures SimplePath(SearchOf(Chain(), false, None, "c", None), "a", ["a", "b", "c"])
    ensures !PathOK(SearchOf(Chain(), false, None, "c", None), "a", ["a", "b", "c"])
    ensures PathOK(SearchOf(Chain(), false, None, "c", Some(IntendedMaxLen(Chain()))), "a", ["a", "b", "c"])
  {
    ChainShape();
    ChainPath(Chain());
  }

  /** The bound in force: the one given, else the default. */
  function MaxLen(o: Ontology, maxlen: Option<int>): (r: int)
    ensures maxlen.Some? ==> r == maxlen.value
    ensures maxlen.None? ==> r == |o.nodes| - 1
  {
    match maxlen
    case Some(m) => m
    case None => DefaultMaxLen(o)
  }

  /** The search `paths` runs for these arguments. */
  function SearchOf(o: Ontology, directed: bool, relations: Option<set<string>>, tgt: string, maxlen: Option<int>): Search
  {
    Search(o, directed, relations, tgt, MaxLen(o, maxlen))
  }

  /** `paths(src, tgt, directed, relations, maxlen)`. `None` is the
      `KeyError` a directed search can raise. Otherwise the result holds
      exactly the paths `PathOK` describes, and none at all when `src` or
      `tgt` is not a node of the walked graph. */
  method Paths(o: Ontology, src: string, tgt: string, directed: bool, relations: Option<set<string>>, maxlen: Option<int>)
    returns (r: Option<seq<seq<string>>>)
    ensures !InGraph(o, directed, src) || !InGraph(o, directed, tgt) ==> r == Some([])
    ensures r.Some? ==> (forall p :: p in r.value ==> PathOK(SearchOf(o, directed, relations, tgt, maxlen), src, p))
    ensures r.Some? && InGraph(o, directed, src) && InGraph(o, directed, tgt) ==>
      (forall p :: PathOK(SearchOf(o, directed, relations, tgt, maxlen), src, p) ==> p in r.value)
    ensures Closed(o, directed) ==> r.Some?
    ensures !directed && Valid(o) ==> r.Some?
    ensures r.Some? ==> NoDup(r.value)
  {
    if !InGraph(o, directed, src) || !InGraph(o, directed, tgt) {
      return Some([]);
    }
    var s := SearchOf(o, directed, relations, tgt, maxlen);
    var adj := ListGraph(o, directed);
    if !directed && Valid(o) {
      SkeletonClosed(o);
    }
    if Closed(o, directed) {
      ExploreNoCrash(s, adj, [src], adj[src]);
    }
    if Crashes(s, adj, [src], adj[src]) {
      return None;
    }
    var ps := Explore(s, adj, [src], adj[src]);
    ExploreNoDup(s, adj, [src], adj[src]);
    ExploreSound(s, adj, src, [src], adj[src]);
    forall p | PathOK(s, src, p) ensures p in ps {
      assert Step(s, p[0], p[1]);
      assert p[..1] == [src];
      ExploreComplete(s, adj, src, p, [src], adj[src]);
    }
    r := Some(ps);
  }
}
