/** `Database`: a store that also keeps the object behind each uid and the
    locations where objects occur. An argument is either a plain uid or an
    object carrying one. */
module Db {
  import opened Seqs
  import opened Graph
  import opened PathSearch

  /** An argument of the database operations: a bare uid, or an object
      with a `uid` attribute. */
  datatype Item<T> = Key(uid: string) | Obj(uid: string, value: T)

  /** `objects` (the source's `object`) maps uids to the objects added
      under them; `instances` maps the uid of an object to the set of
      locations where it occurs. */
  datatype Database<T, L> = Database(store: Ontology, objects: map<string, T>, instances: map<string, set<L>>)

  /** The consistency every operation keeps: the store is consistent, and
      every uid that has an object, instances, skeleton entries or outgoing
      labels is a node of the store. */
  ghost predicate DbValid<T, L>(d: Database<T, L>)
  {
    && Valid(d.store)
    && (forall u :: u in d.objects ==> u in d.store.node)
    && (forall u :: u in d.instances ==> u in d.objects)
    && Rooted(d.store)
  }

  /** Every skeleton and label-map key is a node with attributes. */
  ghost predicate Rooted(o: Ontology)
  {
    && (forall x :: x in o.skeleton ==> x in o.node)
    && (forall x :: x in o.edge ==> x in o.node)
  }

  lemma {:induction false} AddRooted(o: Ontology, i: string, attr: Attr)
    requires Valid(o) && Rooted(o)
    ensures Valid(Add(o, i, attr)) && Rooted(Add(o, i, attr))
    ensures i in Add(o, i, attr).node
    ensures forall x :: x in o.node ==> x in Add(o, i, attr).node
  {
    AddValid(o, i, attr);
    var r := Add(o, i, attr);
    assert i in r.nodes;
    forall u | u in o.node ensures u in r.node {
      assert u in o.nodes;
    }
  }

  lemma {:induction false} AddEdgeRooted(o: Ontology, i: string, j: string, e: string, reciprocal: bool)
    requires Valid(o) && Rooted(o) && i in o.node && j in o.node
    ensures Valid(AddEdge(o, i, j, e, reciprocal)) && Rooted(AddEdge(o, i, j, e, reciprocal))
  {
    AddEdgeValid(o, i, j, e, reciprocal);
    AddEdgeKeys(o, i, j, e, reciprocal);
  }

  function DbEmpty<T, L>(typ: string): (d: Database<T, L>)
    ensures DbValid(d)
    ensures d.store.nodes == [] && d.objects == map[] && d.instances == map[]
  {
    Database(Empty(typ), map[], map[])
  }

  /** `add(obj, attr)`: an object is stored under its uid, replacing any
      object stored there, and the uid is added to the store. */
  function DbAdd<T, L>(d: Database<T, L>, item: Item<T>, attr: Attr): (r: Database<T, L>)
    ensures item.Obj? ==> r.objects == d.objects[item.uid := item.value]
    ensures item.Key? ==> r.objects == d.objects
    ensures r.store == Add(d.store, item.uid, attr)
    ensures r.instances == d.instances
  {
    var objects := if item.Obj? then d.objects[item.uid := item.value] else d.objects;
    Database(Add(d.store, item.uid, attr), objects, d.instances)
  }

  lemma {:induction false} DbAddValid<T, L>(d: Database<T, L>, item: Item<T>, attr: Attr)
    requires DbValid(d)
    ensures DbValid(DbAdd(d, item, attr))
    ensures item.uid in DbAdd(d, item, attr).store.node
  {
    AddRooted(d.store, item.uid, attr);
  }

  /** The skeleton and label-map keys `add_edge` can create are its two
      endpoints. */
  lemma AddEdgeKeys(o: Ontology, i: string, j: string, e: string, reciprocal: bool)
    ensures forall x :: x in AddEdge(o, i, j, e, reciprocal).skeleton ==> x in o.skeleton || x == i || x == j
    ensures forall x :: x in AddEdge(o, i, j, e, reciprocal).edge ==> x in o.edge || x == i || x == j
  {
  }

  /** `add_edge(obj1, obj2, e, reciprocal)`: both ends are added first (as
      objects when they are objects), then the labelled edge. */
  function DbAddEdge<T, L>(d: Database<T, L>, a: Item<T>, b: Item<T>, e: string, reciprocal: bool): (r: Database<T, L>)
    ensures a.uid in r.store.nodes && b.uid in r.store.nodes
    ensures Triple(a.uid, b.uid, e) in r.store.edges
    ensures reciprocal ==> Triple(b.uid, a.uid, e) in r.store.edges
    ensures b.Obj? ==> b.uid in r.objects && r.objects[b.uid] == b.value
    ensures a.Obj? && (b.Obj? ==> a.uid != b.uid) ==> a.uid in r.objects && r.objects[a.uid] == a.value
    ensures forall u :: u != a.uid && u != b.uid ==> (u in r.objects <==> u in d.objects)
    ensures r.instances == d.instances
  {
    var d2 := DbAdd(DbAdd(d, a, NoAttr), b, NoAttr);
    d2.(store := AddEdge(d2.store, a.uid, b.uid, e, reciprocal))
  }

  lemma {:induction false} DbAddEdgeValid<T, L>(d: Database<T, L>, a: Item<T>, b: Item<T>, e: string, reciprocal: bool)
    requires DbValid(d)
    ensures DbValid(DbAddEdge(d, a, b, e, reciprocal))
  {
    var d1 := DbAdd(d, a, NoAttr);
    DbAddValid(d, a, NoAttr);
    var d2 := DbAdd(d1, b, NoAttr);
    AddRooted(d1.store, b.uid, NoAttr);
    AddEdgeRooted(d2.store, a.uid, b.uid, e, reciprocal);
  }

  /** `add_instance(obj, location)`: the location joins the object's
      instance set, then the object is added. */
  function DbAddInstance<T, L>(d: Database<T, L>, uid: string, value: T, location: L): (r: Database<T, L>)
    ensures uid in r.instances && r.instances[uid] == (if uid in d.instances then d.instances[uid] else {}) + {location}
    ensures forall u :: u != uid ==> (u in r.instances <==> u in d.instances)
    ensures forall u :: u != uid && u in d.instances ==> r.instances[u] == d.instances[u]
    ensures uid in r.objects && r.objects[uid] == value
    ensures uid in r.store.nodes
  {
    var seen := if uid in d.instances then d.instances[uid] else {};
    DbAdd(d.(instances := d.instances[uid := seen + {location}]), Obj(uid, value), NoAttr)
  }

  lemma {:induction false} DbAddInstanceValid<T, L>(d: Database<T, L>, uid: string, value: T, location: L)
    requires DbValid(d)
    ensures DbValid(DbAddInstance(d, uid, value, location))
  {
    AddRooted(d.store, uid, NoAttr);
  }

  /** `uid in database`: an object is stored under the uid. */
  predicate Contains<T, L>(d: Database<T, L>, item: Item<T>)
  {
    item.uid in d.objects
  }

  /** `__contains__` accepts an object or a bare uid and asks only about
      the uid; in a consistent database a contained uid is a node of the
      store. */
  lemma ContainsByUid<T, L>(d: Database<T, L>, item: Item<T>)
    requires DbValid(d)
    ensures Contains(d, item) <==> Contains(d, Key(item.uid))
    ensures Contains(d, item) ==> item.uid in d.store.nodes
  {
  }

  /** `database[uid]`, a `KeyError` (`None`) when no object is stored. */
  function Get<T, L>(d: Database<T, L>, uid: string): (r: Option<T>)
    ensures r.Some? <==> Contains(d, Key(uid))
  {
    if uid in d.objects then Some(d.objects[uid]) else None
  }

  /** `get(uid, default)`. */
  function GetOr<T, L>(d: Database<T, L>, uid: string, default: T): (r: T)
    ensures Contains(d, Key(uid)) ==> Get(d, uid) == Some(r)
    ensures !Contains(d, Key(uid)) ==> r == default
  {
    if uid in d.objects then d.objects[uid] else default
  }

  /** An object added is the object read back, and the uid becomes a
      member; other uids read as before. */
  lemma AddThenGet<T, L>(d: Database<T, L>, uid: string, value: T, attr: Attr, other: string)
    ensures Get(DbAdd(d, Obj(uid, value), attr), uid) == Some(value)
    ensures Contains(DbAdd(d, Obj(uid, value), attr), Key(uid))
    ensures other != uid ==> Get(DbAdd(d, Obj(uid, value), attr), other) == Get(d, other)
  {
  }

  /** In a consistent database neither search can raise: both the label
      map and the skeleton are closed. */
  lemma {:induction false} DbSearchesClosed<T, L>(d: Database<T, L>)
    requires DbValid(d)
    ensures Closed(d.store, true) && Closed(d.store, false)
  {
    SkeletonClosed(d.store);
    forall x, y | Edge(d.store, true, x, y) ensures InGraph(d.store, true, y) {
      assert HasPair(d.store, x, y);
      assert y in d.store.skeleton;
      assert y in d.store.nodes;
    }
  }
}
