/** The ontology graph store of `ontology.py`: a directed, labelled
    multigraph kept in three views of the same edges -- the triple list
    `edges`, the nested label map `edge[i][j]`, and the undirected
    `skeleton` of neighbour sets -- plus the node list and the per-node
    attribute lists. */
module Graph {
  import opened Seqs

  /** One labelled edge `(i, j, label)` of the triple view. */
  datatype Triple = Triple(src: string, dst: string, rel: string)

  /** The optional attribute argument of `add`: none, one string (appended),
      or a collection of strings (concatenated). */
  datatype Attr = NoAttr | One(s: string) | Many(xs: seq<string>)

  datatype Ontology = Ontology(
    typ: string,
    nodes: seq<string>,
    node: map<string, seq<string>>,
    edge: map<string, map<string, seq<string>>>,
    edges: seq<Triple>,
    skeleton: map<string, set<string>>)

  /** A freshly constructed store of the given declared type. */
  function Empty(typ: string): (o: Ontology)
    ensures Valid(o)
    ensures o.nodes == [] && o.edges == []
  {
    Ontology(typ, [], map[], map[], [], map[])
  }

  // ---------------------------------------------------------------------
  // Views

  /** The labels of the triples from `i` to `j`, in list order. */
  function LabelsOf(ts: seq<Triple>, i: string, j: string): (r: seq<string>)
    ensures forall e :: e in r <==> Triple(i, j, e) in ts
  {
    if ts == [] then []
    else
      var t := ts[|ts| - 1];
      assert ts == ts[..|ts| - 1] + [t];
      LabelsOf(ts[..|ts| - 1], i, j) + (if t.src == i && t.dst == j then [t.rel] else [])
  }

  /** `get_edges(i, j)`: the label list stored under `edge[i][j]`, or `[]`. */
  function GetEdges(o: Ontology, i: string, j: string): seq<string>
  {
    if i in o.edge && j in o.edge[i] then o.edge[i][j] else []
  }

  /** `get_edges(i)`: the outgoing label map of `i`, empty when `i` has none. */
  function OutEdges(o: Ontology, i: string): map<string, seq<string>>
  {
    if i in o.edge then o.edge[i] else map[]
  }

  /** In a consistent store `get_edges(i, j)` holds each label of a triple
      from `i` to `j` once, and nothing else. */
  lemma GetEdgesAreTriples(o: Ontology, i: string, j: string)
    requires Valid(o)
    ensures forall e :: e in GetEdges(o, i, j) <==> Triple(i, j, e) in o.edges
    ensures NoDup(GetEdges(o, i, j))
  {
    assert GetEdges(o, i, j) == LabelsOf(o.edges, i, j);
    LabelsOfNoDup(o.edges, i, j);
  }

  /** The two forms of `get_edges` agree: the keys of `get_edges(i)` are
      the stored pairs from `i`, and each maps to `get_edges(i, j)`. */
  lemma OutEdgesPairs(o: Ontology, i: string)
    ensures forall j :: j in OutEdges(o, i) <==> HasPair(o, i, j)
    ensures forall j :: j in OutEdges(o, i) ==> OutEdges(o, i)[j] == GetEdges(o, i, j)
  {
  }

  /** `j` is a key of `edge[i]` (possibly with an emptied label list). */
  predicate HasPair(o: Ontology, i: string, j: string)
  {
    i in o.edge && j in o.edge[i]
  }

  /** `b` is in the skeleton neighbour set of `a`. */
  predicate Adjacent(o: Ontology, a: string, b: string)
  {
    a in o.skeleton && b in o.skeleton[a]
  }

  /** Some triple joins `a` and `b`, in either direction. */
  predicate Linked(ts: seq<Triple>, a: string, b: string)
  {
    LabelsOf(ts, a, b) != [] || LabelsOf(ts, b, a) != []
  }

  /** The attribute list of `n` (`node[n]`), `[]` if `n` has none. */
  function AttrsOf(o: Ontology, n: string): seq<string>
  {
    if n in o.node then o.node[n] else []
  }

  function SkelAt(sk: map<string, set<string>>, a: string): set<string>
  {
    if a in sk then sk[a] else {}
  }

  /** The consistency the operations of the store maintain between its
      views: the label map is exactly the triple list grouped by pair, no
      triple is listed twice, the skeleton links exactly the pairs joined
      by a triple in either direction, every pair key of the label map has
      skeleton entries, and the node list is duplicate-free and matches the
      attribute map. */
  ghost predicate Valid(o: Ontology)
  {
    && NoDup(o.edges)
    && EdgeViewsAgree(o)
    && SkeletonAgrees(o)
    && PairKeysLinked(o)
    && NodesAgree(o)
  }

  /** `edge[i][j]` lists exactly the labels of the triples from `i` to `j`. */
  ghost predicate EdgeViewsAgree(o: Ontology)
  {
    forall i, j :: GetEdges(o, i, j) == LabelsOf(o.edges, i, j)
  }

  /** `j` is a skeleton neighbour of `i` exactly when a triple joins them. */
  ghost predicate SkeletonAgrees(o: Ontology)
  {
    forall a, b :: Adjacent(o, a, b) <==> Linked(o.edges, a, b)
  }

  /** Both ends of every pair key of `edge` have a skeleton entry. */
  ghost predicate PairKeysLinked(o: Ontology)
  {
    forall i, j :: HasPair(o, i, j) ==> i in o.skeleton && j in o.skeleton
  }

  /** The node list is duplicate-free, matches the attribute map, and every
      node has an outgoing label map. */
  ghost predicate NodesAgree(o: Ontology)
  {
    && NoDup(o.nodes)
    && (forall n :: n in o.nodes <==> n in o.node)
    && (forall n :: n in o.nodes ==> n in o.edge)
  }

  lemma {:induction false} LabelsOfNoDup(ts: seq<Triple>, i: string, j: string)
    requires NoDup(ts)
    ensures NoDup(LabelsOf(ts, i, j))
  {
    if ts != [] {
      var ts' := ts[..|ts| - 1];
      LabelsOfNoDup(ts', i, j);
      var t := ts[|ts| - 1];
      if t.src == i && t.dst == j {
        assert t !in ts';
        assert t.rel !in LabelsOf(ts', i, j);
      }
    }
  }

  lemma {:induction false} LabelsOfRemoveAll(ts: seq<Triple>, t: Triple, i: string, j: string)
    ensures LabelsOf(RemoveAll(ts, t), i, j)
         == if t.src == i && t.dst == j then RemoveAll(LabelsOf(ts, i, j), t.rel)
            else LabelsOf(ts, i, j)
  {
    if ts != [] {
      var ts' := ts[..|ts| - 1];
      var u := ts[|ts| - 1];
      LabelsOfRemoveAll(ts', t, i, j);
      var rest := if u == t then [] else [u];
      assert RemoveAll(ts, t) == RemoveAll(ts', t) + rest;
      LabelsOfConcat(RemoveAll(ts', t), rest, i, j);
      if t.src == i && t.dst == j {
        var ls := LabelsOf(ts', i, j);
        var tail := if u.src == i && u.dst == j then [u.rel] else [];
        assert LabelsOf(ts, i, j) == ls + tail;
        RemoveAllConcat(ls, tail, t.rel);
        if u.src == i && u.dst == j {
          assert RemoveAll(tail, t.rel) == RemoveAll([], t.rel) + (if u.rel == t.rel then [] else [u.rel]);
        } else {
          assert tail == [];
        }
      }
    }
  }

  lemma {:induction false} LabelsOfConcat(a: seq<Triple>, b: seq<Triple>, i: string, j: string)
    ensures LabelsOf(a + b, i, j) == LabelsOf(a, i, j) + LabelsOf(b, i, j)
    decreases |b|
  {
    if b == [] {
      assert a + b == a;
    } else {
      var b' := b[..|b| - 1];
      assert (a + b)[..|a + b| - 1] == a + b';
      LabelsOfConcat(a, b', i, j);
    }
  }

  // ---------------------------------------------------------------------
  // add

  function AttrList(attr: Attr): seq<string>
  {
    match attr
    case NoAttr => []
    case One(s) => [s]
    case Many(xs) => xs
  }

  /** `add(i, attr)`: a node already listed changes nothing; otherwise the
      node is appended, gets an (empty) outgoing label map, and its
      attribute list is extended by the string or collection given. */
  function Add(o: Ontology, i: string, attr: Attr): (r: Ontology)
    ensures i in r.nodes
    ensures i in o.nodes ==> r == o
    ensures i !in o.nodes ==> i in r.edge
    ensures i !in o.nodes ==> r.nodes == o.nodes + [i] && i in r.node && r.node[i] == AttrsOf(o, i) + AttrList(attr)
    ensures forall n :: n != i ==> AttrsOf(r, n) == AttrsOf(o, n)
    ensures r.edges == o.edges && r.skeleton == o.skeleton
    ensures forall a, b :: GetEdges(r, a, b) == GetEdges(o, a, b)
  {
    if i in o.nodes then o
    else
      o.(edge := if i in o.edge then o.edge else o.edge[i := map[]],
         node := o.node[i := AttrsOf(o, i) + AttrList(attr)],
         nodes := o.nodes + [i])
  }

  /** `add` keeps the store consistent; in particular the node list
      never holds a duplicate. */
  lemma {:induction false} AddValid(o: Ontology, i: string, attr: Attr)
    requires Valid(o)
    ensures Valid(Add(o, i, attr))
    ensures NoDup(Add(o, i, attr).nodes)
  {
    var r := Add(o, i, attr);
    if i !in o.nodes {
      assert EdgeViewsAgree(r) by {
        forall a, b ensures GetEdges(r, a, b) == LabelsOf(r.edges, a, b) {
          assert GetEdges(o, a, b) == LabelsOf(o.edges, a, b);
        }
      }
      assert SkeletonAgrees(r) by {
        forall a, b ensures Adjacent(r, a, b) <==> Linked(r.edges, a, b) {
          assert Adjacent(o, a, b) <==> Linked(o.edges, a, b);
        }
      }
      assert PairKeysLinked(r) by {
        forall a, b | HasPair(r, a, b) ensures a in r.skeleton && b in r.skeleton {
          assert HasPair(o, a, b);
        }
      }
    }
  }

  // ---------------------------------------------------------------------
  // add_edge

  /** `add_edge(i, j, e)` without `reciprocal`: a triple already listed is
      left alone; otherwise `e` is appended to `edge[i][j]`, the triple to
      `edges`, and `i`, `j` are linked both ways in the skeleton. */
  function AddEdge1(o: Ontology, i: string, j: string, e: string): (r: Ontology)
    ensures Triple(i, j, e) in r.edges
    ensures r.nodes == o.nodes && r.node == o.node && r.typ == o.typ
    ensures Triple(i, j, e) in o.edges ==> r == o
  {
    if Triple(i, j, e) in o.edges then o
    else
      var inner := OutEdges(o, i);
      var sk := o.skeleton[i := SkelAt(o.skeleton, i) + {j}];
      o.(edge := o.edge[i := inner[j := GetEdges(o, i, j) + [e]]],
         edges := o.edges + [Triple(i, j, e)],
         skeleton := sk[j := SkelAt(sk, j) + {i}])
  }

  /** `add_edge(i, j, e, reciprocal)`. */
  function AddEdge(o: Ontology, i: string, j: string, e: string, reciprocal: bool): (r: Ontology)
    ensures Triple(i, j, e) in r.edges
    ensures reciprocal ==> Triple(j, i, e) in r.edges
    ensures Triple(i, j, e) in o.edges && (reciprocal ==> Triple(j, i, e) in o.edges) ==> r == o
    ensures r.nodes == o.nodes && r.node == o.node && r.typ == o.typ
  {
    var o1 := AddEdge1(o, i, j, e);
    if reciprocal then AddEdge1(o1, j, i, e) else o1
  }

  lemma AddEdge1Labels(o: Ontology, i: string, j: string, e: string, a: string, b: string)
    requires Triple(i, j, e) !in o.edges
    ensures LabelsOf(AddEdge1(o, i, j, e).edges, a, b)
         == LabelsOf(o.edges, a, b) + (if a == i && b == j then [e] else [])
    ensures GetEdges(AddEdge1(o, i, j, e), a, b)
         == GetEdges(o, a, b) + (if a == i && b == j then [e] else [])
  {
    var r := AddEdge1(o, i, j, e);
    assert r.edges == o.edges + [Triple(i, j, e)];
    assert r.edges[..|r.edges| - 1] == o.edges;
  }

  lemma AddEdge1Links(o: Ontology, i: string, j: string, e: string, a: string, b: string)
    requires Triple(i, j, e) !in o.edges
    ensures Adjacent(AddEdge1(o, i, j, e), a, b)
        <==> Adjacent(o, a, b) || (a == i && b == j) || (a == j && b == i)
    ensures HasPair(AddEdge1(o, i, j, e), a, b) <==> HasPair(o, a, b) || (a == i && b == j)
  {
  }

  /** The effect of one new triple on the label and skeleton views of one
      pair `(a, b)`. */
  lemma AddEdge1At(o: Ontology, i: string, j: string, e: string, a: string, b: string)
    requires Triple(i, j, e) !in o.edges
    ensures LabelsOf(AddEdge1(o, i, j, e).edges, a, b)
         == LabelsOf(o.edges, a, b) + (if a == i && b == j then [e] else [])
    ensures GetEdges(AddEdge1(o, i, j, e), a, b)
         == GetEdges(o, a, b) + (if a == i && b == j then [e] else [])
    ensures Adjacent(AddEdge1(o, i, j, e), a, b)
        <==> Adjacent(o, a, b) || (a == i && b == j) || (a == j && b == i)
    ensures HasPair(AddEdge1(o, i, j, e), a, b) <==> HasPair(o, a, b) || (a == i && b == j)
  {
    AddEdge1Labels(o, i, j, e, a, b);
    AddEdge1Links(o, i, j, e, a, b);
  }

  lemma {:induction false} AddEdge1Views(o: Ontology, i: string, j: string, e: string)
    requires EdgeViewsAgree(o) && Triple(i, j, e) !in o.edges
    ensures EdgeViewsAgree(AddEdge1(o, i, j, e))
    ensures forall a, b ::
              GetEdges(AddEdge1(o, i, j, e), a, b)
              == GetEdges(o, a, b) + (if a == i && b == j then [e] else [])
  {
    var r := AddEdge1(o, i, j, e);
    forall a, b
      ensures GetEdges(r, a, b) == LabelsOf(r.edges, a, b)
      ensures GetEdges(r, a, b) == GetEdges(o, a, b) + (if a == i && b == j then [e] else [])
    {
      AddEdge1Labels(o, i, j, e, a, b);
      assert GetEdges(o, a, b) == LabelsOf(o.edges, a, b);
    }
  }

  lemma {:induction false} AddEdge1Skeleton(o: Ontology, i: string, j: string, e: string)
    requires SkeletonAgrees(o) && Triple(i, j, e) !in o.edges
    ensures SkeletonAgrees(AddEdge1(o, i, j, e))
  {
    var r := AddEdge1(o, i, j, e);
    assert r.edges == o.edges + [Triple(i, j, e)];
    forall a, b
      ensures Adjacent(r, a, b) <==> Linked(r.edges, a, b)
    {
      AddEdge1Links(o, i, j, e, a, b);
      assert Adjacent(o, a, b) <==> Linked(o.edges, a, b);
    }
  }

  lemma {:induction false} AddEdge1Keys(o: Ontology, i: string, j: string, e: string)
    requires PairKeysLinked(o) && Triple(i, j, e) !in o.edges
    ensures PairKeysLinked(AddEdge1(o, i, j, e))
  {
    var r := AddEdge1(o, i, j, e);
    forall a, b | HasPair(r, a, b)
      ensures a in r.skeleton && b in r.skeleton
    {
      AddEdge1Links(o, i, j, e, a, b);
      AddEdge1Links(o, i, j, e, i, j);
    }
  }

  lemma {:induction false} AddEdge1Valid(o: Ontology, i: string, j: string, e: string)
    requires Valid(o)
    ensures Valid(AddEdge1(o, i, j, e))
    ensures forall a, b ::
              GetEdges(AddEdge1(o, i, j, e), a, b)
              == GetEdges(o, a, b) + (if a == i && b == j && e !in GetEdges(o, i, j) then [e] else [])
  {
    var r := AddEdge1(o, i, j, e);
    var t := Triple(i, j, e);
    assert GetEdges(o, i, j) == LabelsOf(o.edges, i, j);
    if t !in o.edges {
      assert e !in GetEdges(o, i, j);
      AddEdge1Views(o, i, j, e);
      AddEdge1Skeleton(o, i, j, e);
      AddEdge1Keys(o, i, j, e);
      NoDupSnoc(o.edges, t);
      assert r.edges == o.edges + [t];
      assert NodesAgree(r);
    }
  }

  /** The label list of one pair after one direction of `add_edge`. */
  lemma {:induction false} AddEdge1Get(o: Ontology, i: string, j: string, e: string, a: string, b: string)
    ensures GetEdges(AddEdge1(o, i, j, e), a, b)
         == GetEdges(o, a, b) + (if a == i && b == j && Triple(i, j, e) !in o.edges then [e] else [])
    ensures Triple(a, b, e) in AddEdge1(o, i, j, e).edges <==> Triple(a, b, e) in o.edges || (a == i && b == j)
  {
    if Triple(i, j, e) !in o.edges {
      AddEdge1At(o, i, j, e, a, b);
    }
  }

  /** The label list of one pair after `add_edge`. */
  lemma {:induction false} AddEdgeAt(o: Ontology, i: string, j: string, e: string, reciprocal: bool, a: string, b: string)
    requires EdgeViewsAgree(o)
    ensures GetEdges(AddEdge(o, i, j, e, reciprocal), a, b)
         == if (a == i && b == j) || (reciprocal && a == j && b == i)
            then GetEdges(o, a, b) + (if e in GetEdges(o, a, b) then [] else [e])
            else GetEdges(o, a, b)
  {
    var o1 := AddEdge1(o, i, j, e);
    AddEdge1Get(o, i, j, e, a, b);
    assert GetEdges(o, a, b) == LabelsOf(o.edges, a, b);
    assert GetEdges(o, i, j) == LabelsOf(o.edges, i, j);
    if reciprocal {
      AddEdge1Get(o1, j, i, e, a, b);
      AddEdge1Get(o, i, j, e, j, i);
      assert GetEdges(o, j, i) == LabelsOf(o.edges, j, i);
    }
  }

  /** A new triple added without `reciprocal`: it is appended to the
      triple list, its label to the one pair `(i, j)`, and the two ends
      become neighbours. */
  lemma AddEdgeFresh(o: Ontology, i: string, j: string, e: string, a: string, b: string)
    requires Triple(i, j, e) !in o.edges
    ensures AddEdge(o, i, j, e, false).edges == o.edges + [Triple(i, j, e)]
    ensures GetEdges(AddEdge(o, i, j, e, false), a, b)
         == GetEdges(o, a, b) + (if a == i && b == j then [e] else [])
    ensures Adjacent(AddEdge(o, i, j, e, false), a, b)
        <==> Adjacent(o, a, b) || (a == i && b == j) || (a == j && b == i)
  {
    AddEdge1At(o, i, j, e, a, b);
  }

  /** Nodes added one after another, without attributes. */
  function AddNodes(o: Ontology, ns: seq<string>): (r: Ontology)
    ensures r.edges == o.edges && r.skeleton == o.skeleton
    decreases |ns|
  {
    if ns == [] then o else AddNodes(Add(o, ns[0], NoAttr), ns[1..])
  }

  /** Adding nodes not yet listed appends them in order and changes no
      label list. */
  lemma {:induction false} AddNodesFresh(o: Ontology, ns: seq<string>, a: string, b: string)
    requires NoDup(o.nodes + ns)
    ensures AddNodes(o, ns).nodes == o.nodes + ns
    ensures GetEdges(AddNodes(o, ns), a, b) == GetEdges(o, a, b)
    decreases |ns|
  {
    if ns != [] {
      var o1 := Add(o, ns[0], NoAttr);
      assert ns[0] !in o.nodes by {
        assert (o.nodes + ns)[|o.nodes|] == ns[0];
        forall k | 0 <= k < |o.nodes| ensures o.nodes[k] != ns[0] {
          assert (o.nodes + ns)[k] == o.nodes[k];
        }
      }
      assert o1.nodes + ns[1..] == o.nodes + ns;
      AddNodesFresh(o1, ns[1..], a, b);
    }
  }

  /** Edges added one after another, each without `reciprocal`. */
  function AddEdges(o: Ontology, ts: seq<Triple>): (r: Ontology)
    ensures r.nodes == o.nodes
    decreases |ts|
  {
    if ts == [] then o else AddEdges(AddEdge(o, ts[0].src, ts[0].dst, ts[0].rel, false), ts[1..])
  }

  /** The label a single triple contributes to the pair `(a, b)`. */
  function LabelAt(t: Triple, a: string, b: string): seq<string>
  {
    if t.src == a && t.dst == b then [t.rel] else []
  }

  lemma LabelsOfCons(t: Triple, ts: seq<Triple>, a: string, b: string)
    ensures LabelsOf([t] + ts, a, b) == LabelAt(t, a, b) + LabelsOf(ts, a, b)
  {
    LabelsOfConcat([t], ts, a, b);
    assert [t][..0] == [];
  }

  lemma LabelsOfThree(t1: Triple, t2: Triple, t3: Triple, a: string, b: string)
    ensures LabelsOf([t1, t2, t3], a, b) == LabelAt(t1, a, b) + LabelAt(t2, a, b) + LabelAt(t3, a, b)
  {
    var x1, x2, x3 := LabelAt(t1, a, b), LabelAt(t2, a, b), LabelAt(t3, a, b);
    assert LabelsOf([t3], a, b) == x3 by {
      LabelsOfCons(t3, [], a, b);
      assert [t3] + [] == [t3];
    }
    assert LabelsOf([t2, t3], a, b) == x2 + x3 by {
      LabelsOfCons(t2, [t3], a, b);
      assert [t2] + [t3] == [t2, t3];
    }
    assert LabelsOf([t1, t2, t3], a, b) == x1 + (x2 + x3) by {
      LabelsOfCons(t1, [t2, t3], a, b);
      assert [t1] + [t2, t3] == [t1, t2, t3];
    }
    SeqAssoc(x1, x2, x3);
  }

  /** The first of several new triples is new, and so are the rest after
      it is added. */
  lemma AddEdgesHead(o: Ontology, ts: seq<Triple>)
    requires ts != [] && NoDup(o.edges + ts)
    ensures ts[0] !in o.edges
    ensures AddEdge(o, ts[0].src, ts[0].dst, ts[0].rel, false).edges + ts[1..] == o.edges + ts
  {
    NoDupConcat(o.edges, ts);
    assert ts[0] in ts;
    AddEdgeFresh(o, ts[0].src, ts[0].dst, ts[0].rel, "", "");
    assert ts == [ts[0]] + ts[1..];
  }

  /** Adding triples not yet listed appends them to the triple list. */
  lemma {:induction false} AddEdgesList(o: Ontology, ts: seq<Triple>)
    requires NoDup(o.edges + ts)
    ensures AddEdges(o, ts).edges == o.edges + ts
    decreases |ts|
  {
    if ts == [] {
      assert o.edges + ts == o.edges;
    } else {
      AddEdgesHead(o, ts);
      AddEdgesList(AddEdge(o, ts[0].src, ts[0].dst, ts[0].rel, false), ts[1..]);
    }
  }

  /** Adding triples not yet listed extends each label list by the labels
      of the new triples for that pair. */
  lemma {:induction false} AddEdgesGet(o: Ontology, ts: seq<Triple>, a: string, b: string)
    requires NoDup(o.edges + ts)
    ensures GetEdges(AddEdges(o, ts), a, b) == GetEdges(o, a, b) + LabelsOf(ts, a, b)
    decreases |ts|
  {
    if ts == [] {
      assert GetEdges(o, a, b) + [] == GetEdges(o, a, b);
    } else {
      var t, rest := ts[0], ts[1..];
      var o1 := AddEdge(o, t.src, t.dst, t.rel, false);
      AddEdgesHead(o, ts);
      var g0, x, l := GetEdges(o, a, b), LabelAt(t, a, b), LabelsOf(rest, a, b);
      assert GetEdges(o1, a, b) == g0 + x by {
        AddEdgeFresh(o, t.src, t.dst, t.rel, a, b);
      }
      assert GetEdges(AddEdges(o, ts), a, b) == GetEdges(o1, a, b) + l by {
        AddEdgesGet(o1, rest, a, b);
      }
      assert LabelsOf(ts, a, b) == x + l by {
        LabelsOfCons(t, rest, a, b);
        assert ts == [t] + rest;
      }
      SeqAssoc(g0, x, l);
    }
  }

  /** Adding triples not yet listed makes the ends of every new triple
      neighbours, and no other pair. */
  lemma {:induction false} AddEdgesAdjacent(o: Ontology, ts: seq<Triple>, a: string, b: string)
    requires NoDup(o.edges + ts)
    ensures Adjacent(AddEdges(o, ts), a, b) <==> Adjacent(o, a, b) || Linked(ts, a, b)
    decreases |ts|
  {
    if ts != [] {
      var t, rest := ts[0], ts[1..];
      var o1 := AddEdge(o, t.src, t.dst, t.rel, false);
      AddEdgesHead(o, ts);
      assert Adjacent(o1, a, b) <==> Adjacent(o, a, b) || LabelAt(t, a, b) != [] || LabelAt(t, b, a) != [] by {
        AddEdgeFresh(o, t.src, t.dst, t.rel, a, b);
      }
      assert Adjacent(AddEdges(o, ts), a, b) <==> Adjacent(o1, a, b) || Linked(rest, a, b) by {
        AddEdgesAdjacent(o1, rest, a, b);
      }
      assert Linked(ts, a, b) <==> LabelAt(t, a, b) != [] || LabelAt(t, b, a) != [] || Linked(rest, a, b) by {
        LabelsOfCons(t, rest, a, b);
        LabelsOfCons(t, rest, b, a);
        assert ts == [t] + rest;
      }
    }
  }

  /** `add_edge` keeps the three views consistent, and adds `e` to the
      label list of `(i, j)` (and of `(j, i)` when reciprocal) unless it is
      already there; no other label list changes. */
  lemma {:induction false} AddEdgeValid(o: Ontology, i: string, j: string, e: string, reciprocal: bool)
    requires Valid(o)
    ensures Valid(AddEdge(o, i, j, e, reciprocal))
    ensures e in GetEdges(AddEdge(o, i, j, e, reciprocal), i, j)
    ensures reciprocal ==> e in GetEdges(AddEdge(o, i, j, e, reciprocal), j, i)
    ensures forall a, b ::
              GetEdges(AddEdge(o, i, j, e, reciprocal), a, b)
              == if (a == i && b == j) || (reciprocal && a == j && b == i)
                 then GetEdges(o, a, b) + (if e in GetEdges(o, a, b) then [] else [e])
                 else GetEdges(o, a, b)
  {
    assert Valid(AddEdge(o, i, j, e, reciprocal)) by {
      var o1 := AddEdge1(o, i, j, e);
      AddEdge1Valid(o, i, j, e);
      if reciprocal {
        AddEdge1Valid(o1, j, i, e);
      }
    }
    AddEdgeGetAll(o, i, j, e, reciprocal);
  }

  lemma AddEdgeGetAll(o: Ontology, i: string, j: string, e: string, reciprocal: bool)
    requires Valid(o)
    ensures forall a, b ::
              GetEdges(AddEdge(o, i, j, e, reciprocal), a, b)
              == if (a == i && b == j) || (reciprocal && a == j && b == i)
                 then GetEdges(o, a, b) + (if e in GetEdges(o, a, b) then [] else [e])
                 else GetEdges(o, a, b)
  {
    forall a, b
      ensures GetEdges(AddEdge(o, i, j, e, reciprocal), a, b)
           == if (a == i && b == j) || (reciprocal && a == j && b == i)
              then GetEdges(o, a, b) + (if e in GetEdges(o, a, b) then [] else [e])
              else GetEdges(o, a, b)
    {
      AddEdgeAt(o, i, j, e, reciprocal, a, b);
    }
  }

  // ---------------------------------------------------------------------
  // rem_edge

  /** The skeleton update of `rem_edge`: `j` leaves the neighbour set of
      `i` and `i` that of `j`. (The source looks both sets up directly and
      would raise on a missing one, which `Valid` rules out.) */
  function Unlink(sk: map<string, set<string>>, i: string, j: string): (r: map<string, set<string>>)
    ensures r.Keys == sk.Keys
  {
    var sk1 := if i in sk then sk[i := sk[i] - {j}] else sk;
    if j in sk1 then sk1[j := sk1[j] - {i}] else sk1
  }

  /** One direction of `rem_edge(i, j, e)`: when `edge[i][j]` exists, `e`
      is removed from it (by the list comprehension that removes while it
      iterates), every `(i, j, e)` leaves `edges`, and the skeleton link is
      dropped when neither `edge[i][j]` nor `edge[j][i]` holds a label. */
  function RemEdge1(o: Ontology, i: string, j: string, e: string): (r: Ontology)
    ensures Triple(i, j, e) !in r.edges || !HasPair(o, i, j)
    ensures !HasPair(o, i, j) ==> r == o
    ensures r.nodes == o.nodes && r.node == o.node && r.typ == o.typ
  {
    if !HasPair(o, i, j) then o
    else
      var lst := RemoveScanning(o.edge[i][j], e, 0);
      var edge' := o.edge[i := o.edge[i][j := lst]];
      var back := if j in edge' && i in edge'[j] then edge'[j][i] else [];
      o.(edge := edge',
         edges := RemoveAll(o.edges, Triple(i, j, e)),
         skeleton := if lst == [] && back == [] then Unlink(o.skeleton, i, j) else o.skeleton)
  }

  /** `rem_edge(i, j, e, reciprocal)`; the source's default is
      `reciprocal = true`. */
  function RemEdge(o: Ontology, i: string, j: string, e: string, reciprocal: bool): (r: Ontology)
    ensures r.nodes == o.nodes && r.node == o.node && r.typ == o.typ
    ensures !HasPair(o, i, j) && (!reciprocal || !HasPair(o, j, i)) ==> r == o
  {
    var o1 := RemEdge1(o, i, j, e);
    if reciprocal then RemEdge1(o1, j, i, e) else o1
  }

  /** The label list of one pair after one direction of `rem_edge`. */
  lemma {:induction false} RemEdge1Get(o: Ontology, i: string, j: string, e: string, a: string, b: string)
    requires EdgeViewsAgree(o) && NoDup(o.edges)
    ensures RemEdge1(o, i, j, e).edges == RemoveAll(o.edges, Triple(i, j, e))
    ensures GetEdges(RemEdge1(o, i, j, e), a, b)
         == if a == i && b == j then RemoveAll(GetEdges(o, a, b), e) else GetEdges(o, a, b)
    ensures GetEdges(RemEdge1(o, i, j, e), a, b) == LabelsOf(RemEdge1(o, i, j, e).edges, a, b)
    ensures HasPair(RemEdge1(o, i, j, e), a, b) <==> HasPair(o, a, b)
  {
    var t := Triple(i, j, e);
    assert GetEdges(o, i, j) == LabelsOf(o.edges, i, j);
    assert GetEdges(o, a, b) == LabelsOf(o.edges, a, b);
    LabelsOfRemoveAll(o.edges, t, a, b);
    if !HasPair(o, i, j) {
      assert t !in o.edges;
      RemoveAllAbsent(o.edges, t);
      RemoveAllAbsent(GetEdges(o, i, j), e);
    } else {
      LabelsOfNoDup(o.edges, i, j);
      RemoveScanningNoDup(o.edge[i][j], e);
    }
  }

  /** The skeleton link of one pair after one direction of `rem_edge`: it
      is dropped exactly for the pair `{i, j}` once neither direction holds
      a label. */
  lemma {:induction false} RemEdge1Adj(o: Ontology, i: string, j: string, e: string, a: string, b: string)
    requires EdgeViewsAgree(o) && NoDup(o.edges)
    ensures Adjacent(RemEdge1(o, i, j, e), a, b)
        <==> Adjacent(o, a, b)
             && !(HasPair(o, i, j) && ((a == i && b == j) || (a == j && b == i))
                  && GetEdges(RemEdge1(o, i, j, e), i, j) == [] && GetEdges(RemEdge1(o, i, j, e), j, i) == [])
  {
    var r := RemEdge1(o, i, j, e);
    if HasPair(o, i, j) {
      var lst := RemoveScanning(o.edge[i][j], e, 0);
      var edge' := o.edge[i := o.edge[i][j := lst]];
      var back := if j in edge' && i in edge'[j] then edge'[j][i] else [];
      assert r.edge == edge';
      assert GetEdges(r, i, j) == lst;
      assert GetEdges(r, j, i) == back;
      if lst == [] && back == [] {
        assert r.skeleton == Unlink(o.skeleton, i, j);
        UnlinkAt(o.skeleton, i, j, a, b);
      } else {
        assert r.skeleton == o.skeleton;
      }
    }
  }

  lemma UnlinkAt(sk: map<string, set<string>>, i: string, j: string, a: string, b: string)
    ensures (a in Unlink(sk, i, j) && b in Unlink(sk, i, j)[a])
        <==> (a in sk && b in sk[a] && !((a == i && b == j) || (a == j && b == i)))
  {
  }

  lemma {:induction false} RemEdge1Views(o: Ontology, i: string, j: string, e: string)
    requires EdgeViewsAgree(o) && NoDup(o.edges)
    ensures EdgeViewsAgree(RemEdge1(o, i, j, e)) && NoDup(RemEdge1(o, i, j, e).edges)
    ensures forall a, b ::
              GetEdges(RemEdge1(o, i, j, e), a, b)
              == if a == i && b == j then RemoveAll(GetEdges(o, a, b), e) else GetEdges(o, a, b)
  {
    var r := RemEdge1(o, i, j, e);
    RemEdge1Get(o, i, j, e, i, j);
    forall a, b
      ensures GetEdges(r, a, b) == if a == i && b == j then RemoveAll(GetEdges(o, a, b), e) else GetEdges(o, a, b)
      ensures GetEdges(r, a, b) == LabelsOf(r.edges, a, b)
    {
      RemEdge1Get(o, i, j, e, a, b);
    }
    RemoveAllNoDup(o.edges, Triple(i, j, e));
  }

  lemma {:induction false} RemEdge1SkeletonAt(o: Ontology, i: string, j: string, e: string, a: string, b: string)
    requires EdgeViewsAgree(o) && NoDup(o.edges) && SkeletonAgrees(o)
    ensures Adjacent(RemEdge1(o, i, j, e), a, b) <==> Linked(RemEdge1(o, i, j, e).edges, a, b)
  {
    var r := RemEdge1(o, i, j, e);
    RemEdge1Adj(o, i, j, e, a, b);
    RemEdge1Get(o, i, j, e, a, b);
    RemEdge1Get(o, i, j, e, b, a);
    assert Adjacent(o, a, b) <==> Linked(o.edges, a, b);
    if (a == i && b == j) || (a == j && b == i) {
      RemEdge1Get(o, i, j, e, i, j);
      RemEdge1Get(o, i, j, e, j, i);
      if GetEdges(r, i, j) != [] {
        assert GetEdges(r, i, j)[0] in GetEdges(o, i, j);
      }
      if GetEdges(r, j, i) != [] {
        assert GetEdges(r, j, i)[0] in GetEdges(o, j, i);
      }
    }
  }

  lemma {:induction false} RemEdge1Skeleton(o: Ontology, i: string, j: string, e: string)
    requires Valid(o)
    ensures SkeletonAgrees(RemEdge1(o, i, j, e))
  {
    var r := RemEdge1(o, i, j, e);
    forall a, b
      ensures Adjacent(r, a, b) <==> Linked(r.edges, a, b)
    {
      RemEdge1SkeletonAt(o, i, j, e, a, b);
    }
  }

  lemma {:induction false} RemEdge1Keys(o: Ontology, i: string, j: string, e: string)
    requires Valid(o)
    ensures PairKeysLinked(RemEdge1(o, i, j, e)) && NodesAgree(RemEdge1(o, i, j, e))
  {
    var r := RemEdge1(o, i, j, e);
    assert r.skeleton.Keys == o.skeleton.Keys;
    forall a, b | HasPair(r, a, b)
      ensures a in r.skeleton && b in r.skeleton
    {
      RemEdge1Get(o, i, j, e, a, b);
    }
    assert r.edge.Keys == o.edge.Keys;
  }

  lemma {:induction false} RemEdge1Valid(o: Ontology, i: string, j: string, e: string)
    requires Valid(o)
    ensures Valid(RemEdge1(o, i, j, e))
    ensures RemEdge1(o, i, j, e).edges == RemoveAll(o.edges, Triple(i, j, e))
    ensures forall a, b ::
              GetEdges(RemEdge1(o, i, j, e), a, b)
              == if a == i && b == j then RemoveAll(GetEdges(o, a, b), e) else GetEdges(o, a, b)
  {
    RemEdge1Views(o, i, j, e);
    RemEdge1Skeleton(o, i, j, e);
    RemEdge1Keys(o, i, j, e);
    RemEdge1Get(o, i, j, e, i, j);
  }

  /** `rem_edge` keeps the three views consistent; afterwards `e` is gone
      between `i` and `j` (in both directions when reciprocal), every other
      label and every other pair is untouched, and `i`, `j` stay linked in
      the skeleton exactly when a label remains in one direction. */
  lemma {:induction false} RemEdgeValid(o: Ontology, i: string, j: string, e: string, reciprocal: bool)
    requires Valid(o)
    ensures Valid(RemEdge(o, i, j, e, reciprocal))
    ensures Triple(i, j, e) !in RemEdge(o, i, j, e, reciprocal).edges
    ensures reciprocal ==> Triple(j, i, e) !in RemEdge(o, i, j, e, reciprocal).edges
    ensures e !in GetEdges(RemEdge(o, i, j, e, reciprocal), i, j)
    ensures reciprocal ==> e !in GetEdges(RemEdge(o, i, j, e, reciprocal), j, i)
    ensures forall a, b :: (a == i && b == j) || (reciprocal && a == j && b == i)
              ==> GetEdges(RemEdge(o, i, j, e, reciprocal), a, b) == RemoveAll(GetEdges(o, a, b), e)
    ensures forall a, b :: !(a == i && b == j) && !(reciprocal && a == j && b == i)
              ==> GetEdges(RemEdge(o, i, j, e, reciprocal), a, b) == GetEdges(o, a, b)
    ensures Adjacent(RemEdge(o, i, j, e, reciprocal), i, j)
        <==> GetEdges(RemEdge(o, i, j, e, reciprocal), i, j) != []
             || GetEdges(RemEdge(o, i, j, e, reciprocal), j, i) != []
  {
    var o1 := RemEdge1(o, i, j, e);
    RemEdge1Valid(o, i, j, e);
    var r := RemEdge(o, i, j, e, reciprocal);
    if reciprocal {
      RemEdge1Valid(o1, j, i, e);
      if i == j {
        RemoveAllAbsent(GetEdges(o1, i, i), e);
      }
      assert Triple(i, j, e) !in r.edges by {
        assert r.edges == RemoveAll(o1.edges, Triple(j, i, e));
      }
    }
    assert GetEdges(r, i, j) == LabelsOf(r.edges, i, j);
    assert GetEdges(r, j, i) == LabelsOf(r.edges, j, i);
  }

  // ---------------------------------------------------------------------
  // pairs, nei

  /** The distinct `(i, j)` pairs of a triple list, in order of first
      occurrence (the loop of `pairs`). */
  function PairsOf(ts: seq<Triple>): (r: seq<(string, string)>)
    ensures NoDup(r)
    ensures forall i, j :: (i, j) in r <==> LabelsOf(ts, i, j) != []
  {
    if ts == [] then []
    else
      var p := PairsOf(ts[..|ts| - 1]);
      var t := ts[|ts| - 1];
      if (t.src, t.dst) in p then p else p + [(t.src, t.dst)]
  }

  /** `pairs()`. */
  function Pairs(o: Ontology): (r: seq<(string, string)>)
    ensures NoDup(r)
    ensures forall i, j :: (i, j) in r <==> exists e :: Triple(i, j, e) in o.edges
  {
    assert forall i, j :: LabelsOf(o.edges, i, j) != [] <==> exists e :: Triple(i, j, e) in o.edges by {
      forall i, j ensures LabelsOf(o.edges, i, j) != [] <==> exists e :: Triple(i, j, e) in o.edges {
        var ls := LabelsOf(o.edges, i, j);
        if ls != [] {
          assert ls[0] in ls;
        }
      }
    }
    PairsOf(o.edges)
  }

  /** A pair is listed by `pairs` exactly when it carries a label. */
  lemma {:induction false} PairsCarryLabels(o: Ontology, i: string, j: string)
    requires Valid(o)
    ensures (i, j) in Pairs(o) <==> GetEdges(o, i, j) != []
    ensures NoDup(Pairs(o))
  {
  }

  /** `nei(uid, relation)`: the keys `x` of `edge[uid]` whose label list
      holds `relation` (or any label, when `relation` is `None`). The source
      yields each `x` once per matching label; the model keeps the set. */
  function Nei(o: Ontology, uid: string, relation: Option<string>): (r: set<string>)
    ensures forall x :: x in r ==> HasPair(o, uid, x)
  {
    set x | x in OutEdges(o, uid)
          && exists l :: l in OutEdges(o, uid)[x] && (relation.None? || l == relation.value)
  }

  /** The neighbours `nei` reports are exactly the targets of the matching
      triples. */
  lemma {:induction false} NeiIsTargets(o: Ontology, uid: string, x: string, e: string)
    requires Valid(o)
    ensures x in Nei(o, uid, Some(e)) <==> Triple(uid, x, e) in o.edges
    ensures x in Nei(o, uid, None) <==> LabelsOf(o.edges, uid, x) != []
  {
    assert GetEdges(o, uid, x) == LabelsOf(o.edges, uid, x);
    if LabelsOf(o.edges, uid, x) != [] {
      assert LabelsOf(o.edges, uid, x)[0] in OutEdges(o, uid)[x];
    }
  }

  // ---------------------------------------------------------------------
  // copy

  /** The assignment `node[n] = attrs`. */
  function SetAttrs(o: Ontology, n: string, attrs: seq<string>): (r: Ontology)
    ensures AttrsOf(r, n) == attrs
    ensures forall m :: m != n ==> AttrsOf(r, m) == AttrsOf(o, m)
  {
    o.(node := o.node[n := attrs])
  }

  /** Replacing the attribute list of a listed node keeps the store
      consistent. */
  lemma {:induction false} SetAttrsValid(o: Ontology, n: string, attrs: seq<string>)
    requires Valid(o) && n in o.nodes
    ensures Valid(SetAttrs(o, n, attrs))
  {
    var r := SetAttrs(o, n, attrs);
    assert forall a, b :: GetEdges(r, a, b) == GetEdges(o, a, b);
    assert forall a, b :: HasPair(r, a, b) == HasPair(o, a, b);
    assert forall a, b :: Adjacent(r, a, b) == Adjacent(o, a, b);
  }

  /** Two consistent stores with the same triple list have the same label
      lists and the same skeleton links. */
  lemma {:induction false} SameTriplesSameViews(o1: Ontology, o2: Ontology)
    requires Valid(o1) && Valid(o2) && o1.edges == o2.edges
    ensures forall i, j :: GetEdges(o1, i, j) == GetEdges(o2, i, j)
    ensures forall a, b :: Adjacent(o1, a, b) <==> Adjacent(o2, a, b)
  {
    forall i, j ensures GetEdges(o1, i, j) == GetEdges(o2, i, j) {
      assert GetEdges(o1, i, j) == LabelsOf(o1.edges, i, j);
      assert GetEdges(o2, i, j) == LabelsOf(o2.edges, i, j);
    }
    forall a, b ensures Adjacent(o1, a, b) <==> Adjacent(o2, a, b) {
      assert Adjacent(o1, a, b) <==> Linked(o1.edges, a, b);
      assert Adjacent(o2, a, b) <==> Linked(o2.edges, a, b);
    }
  }

  /** The node loop of `copy`: each node is added, then its attribute list
      is replaced by a fresh copy of the original's. */
  function CopyNodes(o: Ontology, ns: seq<string>, acc: Ontology): (r: Ontology)
    ensures r.typ == acc.typ
  {
    if ns == [] then acc
    else CopyNodes(o, ns[1..], SetAttrs(Add(acc, ns[0], NoAttr), ns[0], AttrsOf(o, ns[0])))
  }

  /** The edge loop of `copy`: every triple re-added in list order. */
  function CopyEdges(ts: seq<Triple>, acc: Ontology): (r: Ontology)
    ensures r.typ == acc.typ && r.nodes == acc.nodes && r.node == acc.node
  {
    if ts == [] then acc
    else CopyEdges(ts[1..], AddEdge1(acc, ts[0].src, ts[0].dst, ts[0].rel))
  }

  /** `copy()`: a new store of the same type rebuilt from the node list,
      the attribute lists and the triple list. */
  function Copy(o: Ontology): (c: Ontology)
    ensures c.typ == o.typ
  {
    CopyEdges(o.edges, CopyNodes(o, o.nodes, Empty(o.typ)))
  }

  lemma {:induction false} CopyNodesSpec(o: Ontology, ns: seq<string>, acc: Ontology)
    requires Valid(acc) && acc.edges == []
    requires NoDup(acc.nodes + ns)
    ensures Valid(CopyNodes(o, ns, acc))
    ensures CopyNodes(o, ns, acc).nodes == acc.nodes + ns
    ensures CopyNodes(o, ns, acc).edges == []
  {
    if ns != [] {
      var n := ns[0];
      assert acc.nodes + ns == (acc.nodes + [n]) + ns[1..];
      NoDupConcat(acc.nodes + [n], ns[1..]);
      NoDupConcat(acc.nodes, [n]);
      var a := Add(acc, n, NoAttr);
      AddValid(acc, n, NoAttr);
      var a' := SetAttrs(a, n, AttrsOf(o, n));
      SetAttrsValid(a, n, AttrsOf(o, n));
      CopyNodesSpec(o, ns[1..], a');
    } else {
      assert acc.nodes + ns == acc.nodes;
    }
  }

  lemma {:induction false} CopyNodesAttrs(o: Ontology, ns: seq<string>, acc: Ontology)
    ensures forall n :: n !in ns ==> AttrsOf(CopyNodes(o, ns, acc), n) == AttrsOf(acc, n)
    ensures forall n :: n in ns ==> AttrsOf(CopyNodes(o, ns, acc), n) == AttrsOf(o, n)
  {
    if ns != [] {
      var n := ns[0];
      var a' := SetAttrs(Add(acc, n, NoAttr), n, AttrsOf(o, n));
      CopyNodesAttrs(o, ns[1..], a');
      forall m | m in ns ensures AttrsOf(CopyNodes(o, ns, acc), m) == AttrsOf(o, m) {
        if m !in ns[1..] {
          assert m == n;
        }
      }
    }
  }

  lemma {:induction false} CopyEdgesSpec(ts: seq<Triple>, acc: Ontology)
    requires Valid(acc) && NoDup(acc.edges + ts)
    ensures Valid(CopyEdges(ts, acc))
    ensures CopyEdges(ts, acc).edges == acc.edges + ts
  {
    if ts != [] {
      var t := ts[0];
      NoDupConcat(acc.edges, ts);
      var a := AddEdge1(acc, t.src, t.dst, t.rel);
      AddEdge1Valid(acc, t.src, t.dst, t.rel);
      assert a.edges == acc.edges + [t];
      assert a.edges + ts[1..] == acc.edges + ts;
      CopyEdgesSpec(ts[1..], a);
    } else {
      assert acc.edges + ts == acc.edges;
    }
  }

  /** The copy's attribute map is the original's. */
  lemma {:induction false} CopyNodeMap(o: Ontology)
    requires Valid(o)
    ensures Copy(o).node == o.node
  {
    var n0 := CopyNodes(o, o.nodes, Empty(o.typ));
    assert n0.nodes == o.nodes && NodesAgree(n0) by {
      assert [] + o.nodes == o.nodes;
      CopyNodesSpec(o, o.nodes, Empty(o.typ));
    }
    assert forall n :: n in o.nodes ==> AttrsOf(n0, n) == AttrsOf(o, n) by {
      CopyNodesAttrs(o, o.nodes, Empty(o.typ));
    }
    var c := Copy(o);
    assert c.node == n0.node;
    assert c.node.Keys == o.node.Keys by {
      forall n ensures n in c.node <==> n in o.node {
        assert n in n0.node <==> n in o.nodes;
        assert n in o.node <==> n in o.nodes;
      }
    }
    forall n | n in c.node ensures c.node[n] == o.node[n] {
      assert n in o.nodes;
      assert AttrsOf(n0, n) == AttrsOf(o, n);
    }
    MapsEqual(c.node, o.node);
  }

  /** The copy has the same node list, attribute lists, triple list, label
      lists and skeleton links as the original; its views are rebuilt from
      the triples, so nothing of the original is shared with it. */
  lemma {:induction false} CopyFaithful(o: Ontology)
    requires Valid(o)
    ensures Valid(Copy(o))
    ensures Copy(o).nodes == o.nodes && Copy(o).node == o.node && Copy(o).edges == o.edges
    ensures forall i, j :: GetEdges(Copy(o), i, j) == GetEdges(o, i, j)
    ensures forall a, b :: Adjacent(Copy(o), a, b) <==> Adjacent(o, a, b)
  {
    assert Valid(Copy(o)) && Copy(o).nodes == o.nodes && Copy(o).edges == o.edges by {
      var n0 := CopyNodes(o, o.nodes, Empty(o.typ));
      assert [] + o.nodes == o.nodes;
      CopyNodesSpec(o, o.nodes, Empty(o.typ));
      assert [] + o.edges == o.edges;
      CopyEdgesSpec(o.edges, n0);
    }
    CopyNodeMap(o);
    SameTriplesSameViews(Copy(o), o);
  }
}
