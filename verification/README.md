# rituallogic core in Dafny

This project models the core of *rituallogic*, a library for describing rituals
as sequences of frames. A frame is a set of simultaneous actions, in which
nodes take roles. The model covers two halves:

- **The knowledge store** (`ontology.py`). It covers:
  - the `Ontology` graph, which keeps three synchronised views of its labelled
    edges: the triple list `edges`, the nested label map `edge[i][j]` and the
    undirected `skeleton`;
  - its depth-first `paths` search;
  - the `Database` that also keeps objects and instance locations;
  - the default ruleset (`get_types`, `inner_relation`);
  - the `QueryHandler.get_relations` inference. It reduces every path between
    two nodes through `inherit`/`is` links to find category-level relations.
- **The ritual entities** (`classes.py`). It covers:
  - parsing an `AtomChange` expression such as `"-raw +cooked"`;
  - nodes and their atoms, and `apply_change`;
  - the role check of `Action`;
  - `Frame.nodes`;
  - the frame list and node index of a `Sequence` (`add_frame`, `set_frames`,
    `clear_frames`, `append`).

Every operation is a pure function on immutable values. An in-place update
becomes a function returning the updated value. A Python exception becomes
`None` in an `Option` result, or `Refused` for the action constructor.

Modules:

| file | module | models |
|---|---|---|
| `seqs.dfy` | `Seqs` | sequence helpers and the Python list primitives the source relies on: `list.insert`, `list.remove`, removal while iterating |
| `graph.dfy` | `Graph` | `Ontology`: `add`, `add_edge`, `rem_edge`, `get_edges`, `pairs`, `nei`, `copy`, and the consistency invariant `Valid` |
| `paths.dfy` | `PathSearch` | `Ontology.paths` |
| `rules.dfy` | `Rules` | `DefaultOntologyRuleset` |
| `query.dfy` | `Query` | `QueryHandler` and `get_relations` |
| `database.dfy` | `Db` | `Database` |
| `changes.dfy` | `Changes` | `AtomChange` parsing: `str.split(' ')`, `str.strip()`, `str.replace` |
| `ritual.dfy` | `Ritual` | `Node`, `Action`, `Frame`, `Sequence` |

`Graph.Valid` is the invariant the store operations keep. It says:
- the triple list has no repeats;
- `edge[i][j]` lists exactly the labels of the triples from `i` to `j`;
- `b` is a skeleton neighbour of `a` exactly when a triple joins them in either direction;
- every pair key of `edge` has skeleton entries;
- `nodes` has no repeats and agrees with the keys of `node`.

Some properties are proved about every input:
- `add_edge` and `rem_edge` keep `Valid`;
- `copy` reproduces the store;
- `paths` returns exactly the simple paths within the bound;
- `get_relations` collects the contribution of every such path.

Where the source has evident bugs, both the code as written and the evidently
intended code are modelled; see "## Findings".

The source explains the two-node case of path reduction only by the comment
"Relation between parent categories" (`ontology.py:335`). The model
illustrates that comment with its own example: the chain
A –inherit→ B –likes→ C with D –inherit→ C, built from any four distinct
node names (`Query.Categories`). The path A–B–C–D reduces to the two
categories B–C, and one would expect `get_relations(A, D)` to find `likes`
between them. Two points about the code:
- It strips the back end of a path only through a link from the later node
  to the earlier, which is why the example has D –inherit→ C.
- As written it still does not find `likes` (findings 2 and 3). The model
  follows the code.

## Model

| member | source | states |
|---|---|---|
| Seqs.RemoveAll | ontology.py:140-141 | `while (i,j,e) in edges: edges.remove(...)` leaves no occurrence of the value and keeps every other element |
| Seqs.RemoveFirst | ontology.py:141 | `list.remove` drops exactly one occurrence: the multiset loses one copy of the value |
| Seqs.RemoveScanningNoDup | ontology.py:139 | removing matching labels while iterating over the same list removes all of them when the list has no repeats |
| Seqs.RemoveScanningSkipsRepeat | ontology.py:139 | removing while iterating skips the element after each removal: `["x","x"]` keeps one `"x"` |
| Seqs.Insert | classes.py:161 | `list.insert(position, x)` grows the list by one, with `x` at the clamped index and the rest shifted |
| Seqs.InsertIndex | classes.py:161 | the index `list.insert` uses: negative positions count from the end, and out-of-range positions clamp to the ends |
| Graph.Empty | ontology.py:81-87 | a new ontology has no nodes and no triples and is consistent |
| Graph.GetEdgesAreTriples | ontology.py:151-156 | in a consistent store `get_edges(i, j)` holds exactly the labels of the triples from `i` to `j`, each once |
| Graph.OutEdgesPairs | ontology.py:151-156 | the keys of `get_edges(i)` are exactly the stored pairs from `i`, each mapped to `get_edges(i, j)` |
| Graph.Add | ontology.py:106-117 | a present node is a no-op; a new node is appended, with an empty label map and its attribute appended (string) or concatenated (collection); no edge view changes |
| Graph.AddValid | ontology.py:106-117 | `add` keeps the store consistent |
| Graph.AddEdge | ontology.py:123-132 | the triple is present afterwards, and its mirror too when reciprocal; adding a present triple changes nothing (idempotent); nodes are untouched |
| Graph.AddEdgeAt | ontology.py:123-132 | the label lands in `edge[i][j]` (and `edge[j][i]` when reciprocal) unless already there, and no other pair changes |
| Graph.AddEdge1 | ontology.py:125-130 | one direction of `add_edge`: the triple is present afterwards, a triple already listed changes nothing, and nodes and attributes are untouched |
| Graph.AddEdgeValid | ontology.py:123-132 | `add_edge` keeps the three views consistent and the skeleton symmetric, and gives the label-map formula for every pair |
| Graph.AddEdge1Valid | ontology.py:125-130 | one directed insertion keeps the store consistent |
| Graph.RemEdge1 | ontology.py:138-146 | one direction of `rem_edge`: when `edge[i][j]` exists no `(i, j, e)` triple remains; an unknown pair is a no-op; nodes and attributes are untouched |
| Graph.RemEdge | ontology.py:135-148 | nodes are untouched; an unknown pair (in both directions when reciprocal) is a no-op |
| Graph.RemEdge1Get | ontology.py:138-141 | one directed removal drops every triple `(i,j,e)` and the label `e` from `edge[i][j]`, and only there |
| Graph.RemEdge1Adj | ontology.py:142-146 | the skeleton link `i–j` is dropped exactly when neither `edge[i][j]` nor `edge[j][i]` is left with a label |
| Graph.RemEdge1Valid | ontology.py:138-146 | one directed removal keeps the store consistent |
| Graph.RemEdgeValid | ontology.py:135-148 | `rem_edge` keeps the store consistent, removes the label in both directions by default and only in `i→j` otherwise, leaves every other pair untouched, and keeps the `i–j` link exactly while a label remains either way |
| Graph.Pairs | ontology.py:89-94 | `pairs()` lists each ordered pair joined by some triple once, and no other pair |
| Graph.PairsOf | ontology.py:89-94 | the distinct ordered pairs joined by some triple, without repeats |
| Graph.PairsCarryLabels | ontology.py:89-94 | in a consistent store `(i,j)` is a pair exactly when `edge[i][j]` is nonempty |
| Graph.Nei | ontology.py:158-163 | every neighbour has a label-map entry from `uid` |
| Graph.NeiIsTargets | ontology.py:158-163 | `x` is a neighbour through label `e` exactly when the triple `(uid,x,e)` exists; with no label, when any triple `uid→x` exists |
| Graph.SetAttrs | ontology.py:100 | replaces the attribute list of one node and no other |
| Graph.SetAttrsValid | ontology.py:100 | replacing the attributes of a present node keeps the store consistent |
| Graph.SameTriplesSameViews | ontology.py:96-103 | two consistent stores with the same triples have the same label map and skeleton |
| Graph.CopyNodesSpec | ontology.py:98-100 | the node loop of `copy` yields a consistent store with the same node list and no triples |
| Graph.CopyNodesAttrs | ontology.py:98-100 | after the node loop every copied node carries the original's attribute list |
| Graph.CopyEdgesSpec | ontology.py:101-102 | replaying the triples with `add_edge` yields the same triple list and keeps consistency |
| Graph.AddEdgesGet | ontology.py:123-132 | adding new triples one by one extends each label list by exactly the labels of the new triples for that pair |
| Graph.AddEdgesAdjacent | ontology.py:123-132 | adding new triples one by one links exactly the pairs already linked or joined by a new triple |
| Graph.Copy | ontology.py:97 | the copy is a store of the same type |
| Graph.CopyFaithful | ontology.py:96-103 | `copy` of a consistent store has the same nodes, attributes, triples, label map and skeleton |
| PathSearch.GraphMap | ontology.py:172-176 | the graph walked is the label map (directed) or the skeleton (undirected), as neighbour sets |
| PathSearch.HopLabelsAreTriples | ontology.py:193-199 | the labels the filter checks for a hop are those of the triples joining its ends, both ways when undirected |
| PathSearch.FilterAsWritten | ontology.py:195-197 | the label check as written extends the stored list `edge[a][b]` with the labels of `b→a` |
| PathSearch.FilterAsWrittenCorrupts | ontology.py:195-197 | as written, the label check breaks the store's consistency whenever the reverse hop has a label the hop lacks |
| PathSearch.ExploreSound | ontology.py:183-206 | every path the depth-first loop records starts at `src`, ends at the target, repeats no node, passes only through allowed hops and respects `maxlen` |
| PathSearch.Explore | ontology.py:186-206 | every recorded path is longer than the stack it grew from, has at most `maxlen` nodes and ends at the target |
| PathSearch.ExploreExtends | ontology.py:192-206 | every path recorded from a stack extends that stack by one node of its pocket |
| PathSearch.ExploreNoDup | ontology.py:186-206 | with duplicate-free neighbour lists, no path is recorded twice |
| PathSearch.Crashes | ontology.py:188-192 | a search with an empty pocket, or a stack already at `maxlen` nodes, does not raise: it only pops |
| PathSearch.ExploreComplete | ontology.py:183-206 | every such path whose prefix is on the stack and whose next node is still in the pocket is recorded |
| PathSearch.ExploreNoCrash | ontology.py:185-206 | when every neighbour is itself a key of the graph, `graph[nxt]` never raises |
| PathSearch.SkeletonClosed | ontology.py:129-130 | in a consistent store the skeleton is closed: every neighbour has its own entry |
| PathSearch.PathNodesInGraph | ontology.py:204-206 | every node of an accepted path from a graph node is a graph node |
| PathSearch.ListSet | ontology.py:185 | `list(graph[x])` lists each neighbour exactly once |
| PathSearch.ListGraph | ontology.py:172-175 | one listing of the walked graph, with a duplicate-free neighbour list per node |
| PathSearch.Paths | ontology.py:165-207 | empty when `src` or `tgt` is not in the walked graph; otherwise exactly the simple paths with allowed hops and at most `maxlen` nodes (default `len(nodes)-1`), each returned once; raises only when a neighbour has no entry, which a consistent undirected store rules out |
| PathSearch.MaxLen | ontology.py:181-182 | the bound is the given `maxlen`, or `len(nodes) - 1` when none is given |
| PathSearch.DefaultBoundMissesChain | ontology.py:181-182 | with the default bound, the simple path a–b–c through all three nodes of a chain is not returned |
| PathSearch.IntendedBoundKeepsSimplePaths | ontology.py:181-182 | with a bound of `len(nodes)`, every simple path between distinct stored nodes passes the length check |
| Rules.GetTypes | ontology.py:33-51 | `()` for a non-rule; otherwise the rule first and only rule names after it |
| Rules.Expand | ontology.py:51 | the flattened expansion contains only rule names and includes every listed type that is a rule |
| Rules.GetTypesTable | ontology.py:33-51 | `inherit` gives `('inherit','is')`; `is`, `replace` and `block` give themselves alone; any other name gives `()` |
| Rules.GetTypesOfInherit | ontology.py:45-46 | `get_types('inherit') == ('inherit','is')` |
| Rules.GetTypesOfIs | ontology.py:43-44 | `get_types('is') == ('is',)`: none of its listed types is a rule |
| Rules.InnerRelation | ontology.py:54-61 | `['exclude']` exactly when `'exclusive'` is among the attributes, otherwise `[]` |
| Query.NewHandler | ontology.py:271-281 | relations between relations are looked up in the main database unless a separate one is given |
| Query.InheritTypesValue | ontology.py:321 | the inheritance labels are `{'inherit','is'}` |
| Query.StripFront | ontology.py:329-330 | the front reduction leaves a nonempty suffix of the path, and stops at a hop that is not an inheritance link or at one node |
| Query.StripFrontDropped | ontology.py:329-330 | every hop the front reduction drops is an inheritance link from the earlier node to the later |
| Query.StripBack | ontology.py:331-332 | the back reduction leaves a nonempty prefix, and stops at a hop whose link from the later node to the earlier is not an inheritance link, or at one node |
| Query.StripBackDropped | ontology.py:331-332 | every hop the back reduction drops is an inheritance link from the later node to the earlier |
| Query.ReduceIsSlice | ontology.py:328-332 | the reduced path is a contiguous nonempty piece of the path |
| Query.Reduce | ontology.py:328-332 | a non-empty path reduces to a non-empty one, and when two or more nodes remain, the front hop is not an inheritance link forward and the back hop not one backward |
| Query.Contribution | ontology.py:325-340 | a two-node path adds nothing; otherwise a path reduced to two nodes adds exactly `get_edges(uid1, uid2)`, one reduced to a node with attributes adds exactly its `inner_relation`, any other adds nothing; it raises exactly when it reduces to one node without attributes |
| Query.Collect | ontology.py:324-340 | the path loop raises iff some path raises, and otherwise collects exactly the labels contributed by some path |
| Query.GetRelations | ontology.py:311-342 | the result is the direct labels followed by the contributions of exactly the simple paths found by the undirected default search; direct labels only when an endpoint is not in the skeleton; each path is counted once; it raises only when the undirected search graph is not closed or some path reduces to a category without attributes, and never on a consistent store whose skeleton nodes have attributes |
| Query.LabelsAreDirectOrExclude | ontology.py:333-340 | as written, every inferred label is a direct `uid1→uid2` label or `exclude` |
| Query.ExcludeFromExclusiveCategory | ontology.py:337-339 | `exclude` is inferred exactly when some longer path reduces to one `exclusive` node (or to two, when `exclude` is already direct) |
| Query.CollectSafe | ontology.py:339 | the loop cannot raise when every path node has attributes |
| Query.CategoriesContribution | ontology.py:326-340 | as written, the path a–b–c–d of any store shaped like the category example reduces to b–c and contributes nothing, where the intended reading contributes `likes` |
| Query.CategoriesShape | ontology.py:106-132 | the category example built with `add` and `add_edge` from any four distinct names has the links and label lists the reduction relies on |
| Query.ContributionIntended | ontology.py:334-336 | a path reduced to two category nodes contributes the labels between those categories; otherwise as written |
| Query.GetRelationsIntended | ontology.py:311-342 | with both corrections, the direct labels followed by the category contributions of exactly the simple paths within `len(nodes)` nodes |
| Query.CategoryRelationFound | ontology.py:311-342 | with both corrections, `get_relations(a, d)` on the category example finds `likes`, whatever its four distinct node names |
| Db.DbEmpty | ontology.py:213-216 | a new database is empty and consistent |
| Db.DbAdd | ontology.py:218-223 | an object is stored under its uid, replacing any earlier one; a bare uid stores nothing; the uid is added to the store |
| Db.DbAddValid | ontology.py:218-223 | `add` keeps the database consistent and the uid becomes a node |
| Db.AddEdgeKeys | ontology.py:126-130 | `add_edge` creates graph keys only for its two endpoints |
| Db.DbAddEdge | ontology.py:225-236 | both ends become nodes (objects stored when given), and the triple (and mirror) is present; other objects untouched |
| Db.DbAddEdgeValid | ontology.py:225-236 | `add_edge` keeps the database consistent |
| Db.DbAddInstance | ontology.py:238-240 | the location joins the object's instance set, the object is stored, and other instance sets are unchanged |
| Db.DbAddInstanceValid | ontology.py:238-240 | `add_instance` keeps the database consistent |
| Db.ContainsByUid | ontology.py:242-245 | `obj in database` and `obj.uid in database` agree, and in a consistent database a contained uid is a node of the store |
| Db.Get | ontology.py:247-248 | `database[uid]` yields a value exactly when an object is stored, raising otherwise |
| Db.GetOr | ontology.py:250-254 | `get` yields the stored object, or the default when none is stored |
| Db.AddThenGet | ontology.py:218-254 | an object added is the object read back, and other uids read as before |
| Db.DbSearchesClosed | ontology.py:172-206 | in a consistent database neither the directed nor the undirected search can raise |
| Changes.Split | classes.py:44 | `split(' ')`: at least one piece, none containing a space, joined back by spaces to the input |
| Changes.SplitJoin | classes.py:44 | splitting a space-joined list of space-free words gives back the words, empty ones included |
| Changes.Lead | classes.py:45-46 | the leading whitespace is counted up to the first non-space character |
| Changes.Trail | classes.py:45-46 | the trailing whitespace is counted likewise from the end |
| Changes.Strip | classes.py:45-46 | `strip()`: the middle of the word between leading and trailing whitespace, neither end of it whitespace |
| Changes.StripTrimmed | classes.py:45-46 | a word with no whitespace at either end strips to itself |
| Changes.Marked | classes.py:45-46 | the kept words, with every mark removed and stripped: none contains the mark, empty exactly when no word has the mark |
| Changes.ParseChange | classes.py:42-46 | `add` and `rem` hold no `+` resp. `-`, are empty exactly when the sign does not occur in the expression, and have at most one entry per token |
| Changes.RenderParse | classes.py:42-46 | parsing `"+a1 ... -r1 ..."` written from plain atom names gives back exactly `add` and `rem`, in order, the empty expression included |
| Changes.MarkedWords | classes.py:45-46 | the words read under one sign are exactly the atoms written under that sign, in order; atoms under the other sign and unsigned words are skipped |
| Changes.ParseTokens | classes.py:42-46 | any expression of signed plain atoms and unsigned plain words, in any order, parses to the `+` atoms as `add` and the `-` atoms as `rem`, each in the order written |
| Changes.BothSigns | classes.py:45-46 | a token carrying both signs is entered in both lists, each with its own sign removed |
| Ritual.NewNode | classes.py:62-64 | a node holds the set of the atoms given |
| Ritual.AddAtom | classes.py:66-67 | the atom is present afterwards and no other atom changes |
| Ritual.RemAtom | classes.py:69-70 | removing an absent atom raises; otherwise only that atom goes |
| Ritual.AddThenRemove | classes.py:66-70 | removing a newly added atom restores the node |
| Ritual.AddAll | classes.py:73-74 | the add loop leaves the old atoms and the added ones |
| Ritual.RemoveEach | classes.py:75-76 | the removal loop succeeds iff every atom is present and none is listed twice, and leaves the atoms not listed |
| Ritual.ApplyChange | classes.py:72-76 | adds then removes: raises iff a removed atom is neither held nor added, or is listed twice; otherwise an atom ends present iff it was held or added and is not removed |
| Ritual.ApplyRendered | classes.py:42-76 | applying a parsed `"+... -..."` expression has the effect of its atom lists, the empty expression (a no-op) included |
| Ritual.MakeAction | classes.py:100-110 | as written, an action is built iff its roles are a strict subset of the keywords; otherwise it refuses, naming the non-keyword roles |
| Ritual.EveryRoleFilledIsRefused | classes.py:106-110 | as written, an action filling every keyword is refused, naming no role |
| Ritual.MakeActionIntended | classes.py:106-110 | corrected: built iff every role is a keyword, and a refusal always names a role |
| Ritual.IntendedRefusalNamesARole | classes.py:106-110 | the corrected check refuses iff some role is not a keyword, and agrees wherever the check as written builds |
| Ritual.ActionNodes | classes.py:130-134 | a node is collected iff it fills a role of one of the actions |
| Ritual.FrameNodes | classes.py:129-134 | `Frame.nodes` is the union of the role fillers of the frame's actions |
| Ritual.Dedup | classes.py:157-158 | keeping the first frame of each uid keeps exactly the uids present, and only frames of the input |
| Ritual.Rotate | classes.py:161 | moving the first frame to the end keeps the length and the uids |
| Ritual.NodesOf | classes.py:159-160 | the nodes of some frame of the list |
| Ritual.FramesWith | classes.py:159-160 | the frames involving a node, in order: empty iff no frame involves it |
| Ritual.NodeIndex | classes.py:159-160 | the index keys are the nodes of some frame, each mapped to the nonempty list of frames involving it |
| Ritual.IndexSnoc | classes.py:159-160 | recording one more frame in the index of a list gives the index of the longer list |
| Ritual.AddFrame | classes.py:155-161 | a frame whose uid is present changes nothing; otherwise the frame sits at the index `list.insert(position)` picks, the old frames keep their order before and after it, nothing else enters, and the frame is recorded under each of its nodes, with other nodes' entries unchanged |
| Ritual.AddFrameBeforeLast | classes.py:155-161 | with the default position a new frame goes just before the last frame |
| Ritual.InsertBeforeLastRotates | classes.py:161 | inserting before the last frame of a rotated list gives the rotation of the extended list |
| Ritual.ClearFrames | classes.py:169-172 | no frames and an empty index; uid and atoms kept |
| Ritual.SetFrames | classes.py:163-167 | `set_frames(fs)` keeps uid and atoms and leaves at most `|fs|` frames, all taken from `fs` |
| Ritual.SetFramesSpec | classes.py:163-167 | `set_frames(fs)` leaves the distinct-by-uid frames of `fs` with the first moved to the end, and their node index |
| Ritual.SetFramesSwapsTwo | classes.py:163-167 | two frames with distinct uids come out of `set_frames` reversed |
| Ritual.SetFramesInOrderSpec | classes.py:163-167 | corrected: `set_frames(fs)` leaves exactly the distinct-by-uid frames in the given order, and their index |
| Ritual.DedupDistinct | classes.py:157-158 | the kept frames have pairwise distinct uids |
| Ritual.DedupDistinctKeeps | classes.py:157-158 | frames with distinct uids are all kept, in order |
| Ritual.NewSequence | classes.py:148-153 | a new sequence keeps the given uid and atoms |
| Ritual.Append | classes.py:174-180 | the uid defaults to `"<a>+<b>"`, and the atoms are the union |
| Ritual.AppendRotates | classes.py:174-180 | as written, the joined frames come out distinct-by-uid but rotated |
| Ritual.AppendInOrder | classes.py:174-180 | corrected `append`: same uid and atoms |
| Ritual.AppendInOrderFrames | classes.py:174-180 | corrected, frames with distinct uids come out as `a.frames + b.frames` |

## Left out

- `ui.py`, `qtext.py`, `visu.py`, `analysis.py` and the package `__init__.py` are not part of this model. They are the interface, the text parser and exporter, and plotting.
- `QueryHandler.get_neighbors`, `get_equivalents` and `get_parents` are not modelled. They call members that do not exist (`get_nei`, a `get_types` keyword argument), so they cannot run.
- `QueryHandler.filter` returns the edge list unchanged and is not modelled. The diagnostic `print` in `get_relations` is also left out.
- `Atom.match` (a regular-expression search) is not modelled.
- Python object identity and hashing are not modelled. `Atom` defines `__eq__` without `__hash__`, so identity hashing would make `rem_atom` of an equal but distinct `Atom` raise. The model treats atoms, frames and actions as values compared by uid, and an atom as its uid string.
- `Graph.GetEdges`: the `setdefault` side effect of `get_edges(uid1)` is not modelled. Every `get_edges` call adds an empty label map `edge[uid1]` when `uid1` has none. Calls come from `get_relations` (its direct labels and each reduction hop) and from a label-filtered `paths`. That key changes later directed searches, which walk `edge`: `tgt in graph` can turn true, so a search that returned `[]` can find paths, and `graph[nxt]` can stop raising `KeyError`. The model's queries leave the store unchanged, so a directed search after such a query is modelled on the store as it was.
- `Graph.Nei`: states the set of neighbours, not the generator's multiplicity or order. A neighbour is yielded once per matching label, in dict order.
- `PathSearch.Paths`: the order of the returned paths follows Python 2 set and dict iteration, which is unspecified. The method fixes one listing of neighbours and states which paths are returned, and that each is returned once, but not their order.
- `PathSearch.Paths` and `Query.GetRelations` return `None` where the source raises `KeyError`. That happens when a directed search reaches a node with no label map, or a path reduces to a node without attributes.
- `Graph.Unlink`: `rem_edge` looks up `skeleton[i]` and `skeleton[j]` directly and would raise `KeyError` when one is missing. The model skips a missing entry instead. `Valid` guarantees both entries exist whenever `edge[i][j]` does, so this differs only on inconsistent stores.
- `Changes.IsSpace`: only the six ASCII whitespace characters that `str.strip()` removes from a Python 2 byte string. `unicode.strip()`, which also removes other Unicode whitespace, is not modelled.
- `Ritual.ApplyChange`: when a removal raises, the source has already applied the earlier additions and removals. The model returns `None` and drops that partial state.
- `Ritual.SetFrames`: calling `s.set_frames(s.frames)` passes the list that `clear_frames` empties, so the call leaves no frames. Arguments are modelled as values, so this aliasing is not.
- `Ritual.Assignment`: the `changes` of an action are kept as data. The source never applies them in the files modelled here.
- `Ontology.copy` on a `Database` does not carry over its objects or instances. `Graph.Copy` models the graph part only.
- `Query.GetRelations`: the `strict` argument is accepted and ignored, as in the source. The `rule` argument is fixed to the default ruleset.

## Findings

| source | as written | input that shows it | evidently intended | confidence | as-written member | corrected member |
|---|---|---|---|---|---|---|
| classes.py:161-167 | `set_frames` adds each frame with `insert(-1)`, which places it before the last frame | frames `[f1, f2]` with distinct uids come out as `[f2, f1]`; `append` rotates likewise | frames kept in the given order (`"Replace current frames by given list"`) | not executed | Ritual.SetFramesSwapsTwo | Ritual.SetFramesInOrderSpec |
| ontology.py:181-182 | the default `maxlen` is `len(nodes) - 1`, and the loop stops extending a path of `maxlen` nodes | a chain a–b–c: `paths('a','c')` misses `[a,b,c]` | a bound of `len(nodes)` nodes, which every simple path meets | not executed | PathSearch.DefaultBoundMissesChain | PathSearch.IntendedBoundKeepsSimplePaths |
| ontology.py:334-336 | a path reduced to two nodes re-adds `get_edges(uid1, uid2)` | A–inherit→B–likes→C, D–inherit→C (any four distinct names): the path A–B–C–D reduces to B–C and adds nothing | add the labels between the two category nodes `cur[0]`, `cur[1]` | not executed | Query.CategoriesContribution | Query.CategoryRelationFound |
| classes.py:106-110 | roles must be a strict subset of `ACTION_KEYWORDS` | an action filling every keyword raises, naming an empty list of roles | every role a keyword (subset) | not executed | Ritual.EveryRoleFilledIsRefused | Ritual.IntendedRefusalNamesARole |
| ontology.py:195-197 | `rels = get_edges(a, b)` is the stored list, and `rels += get_edges(b, a)` extends it in place | a→b `x`, b→a `y`, undirected `paths` with `relations=['x']`: `edge[a][b]` becomes `['x','y']` with no triple `(a,b,'y')` | test a fresh list of both directions' labels | not executed | PathSearch.FilterAsWrittenCorrupts | PathSearch.HopLabelsAreTriples |
