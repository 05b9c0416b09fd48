/** The ritual entities: nodes carrying atoms, actions that give roles to
    nodes, frames of simultaneous actions and sequences of frames. Entities
    compare by uid, and an atom is its uid. */
module Ritual {
  import opened Seqs
  import opened Changes

  // ---------------------------------------------------------------------
  // Node

  /** A ritual component and the set of its atoms. */
  datatype Node = Node(uid: string, atoms: set<string>)

  function NewNode(uid: string, atoms: seq<string>): (n: Node)
    ensures n.uid == uid
    ensures forall a :: a in n.atoms <==> a in atoms
  {
    Node(uid, Elems(atoms))
  }

  /** `add_atom(atom)`. */
  function AddAtom(n: Node, atom: string): (r: Node)
    ensures r.uid == n.uid && atom in r.atoms
    ensures forall a :: a != atom ==> (a in r.atoms <==> a in n.atoms)
  {
    n.(atoms := n.atoms + {atom})
  }

  /** `rem_atom(atom)`: `set.remove` raises `KeyError` (`None`) when the
      atom is absent. */
  function RemAtom(n: Node, atom: string): (r: Option<Node>)
    ensures r.Some? <==> atom in n.atoms
    ensures r.Some? ==> r.value.uid == n.uid && atom !in r.value.atoms
    ensures r.Some? ==> forall a :: a != atom ==> (a in r.value.atoms <==> a in n.atoms)
  {
    if atom in n.atoms then Some(n.(atoms := n.atoms - {atom})) else None
  }

  /** Removing an atom just added gives back the node it was added to. */
  lemma AddThenRemove(n: Node, atom: string)
    requires atom !in n.atoms
    ensures RemAtom(AddAtom(n, atom), atom) == Some(n)
  {
    assert (n.atoms + {atom}) - {atom} == n.atoms;
  }

  /** The adds of `apply_change`, in order. */
  function AddAll(atoms: set<string>, add: seq<string>): (r: set<string>)
    ensures forall a :: a in r <==> a in atoms || a in add
  {
    if add == [] then atoms
    else AddAll(atoms, add[..|add| - 1]) + {add[|add| - 1]}
  }

  /** The removals of `apply_change`, in order; the first absent atom
      raises. An atom listed twice is absent the second time. */
  function RemoveEach(atoms: set<string>, rem: seq<string>): (r: Option<set<string>>)
    ensures r.Some? <==> NoDup(rem) && forall a :: a in rem ==> a in atoms
    ensures r.Some? ==> forall a :: a in r.value <==> a in atoms && a !in rem
  {
    if rem == [] then Some(atoms)
    else
      var init := rem[..|rem| - 1];
      var x := rem[|rem| - 1];
      assert rem == init + [x];
      NoDupSnoc(init, x);
      match RemoveEach(atoms, init)
      case None => None
      case Some(s) => if x in s then Some(s - {x}) else None
  }

  /** `apply_change(change)`: every atom of `change.add` is added, then
      every atom of `change.rem` removed, so an atom in both lists ends
      absent. It raises exactly when some removal finds its atom absent:
      an atom neither held nor added, or one listed twice for removal. */
  function ApplyChange(n: Node, c: AtomChange): (r: Option<Node>)
    ensures r.Some? <==> NoDup(c.rem) && forall a :: a in c.rem ==> a in n.atoms || a in c.add
    ensures r.Some? ==> r.value.uid == n.uid
    ensures r.Some? ==> forall a :: a in r.value.atoms <==> (a in n.atoms || a in c.add) && a !in c.rem
  {
    match RemoveEach(AddAll(n.atoms, c.add), c.rem)
    case None => None
    case Some(s) => Some(n.(atoms := s))
  }

  /** Applying the change written as "+a1 ... -r1 ..." from plain atom names
      adds the `add` atoms and then removes the `rem` atoms. */
  lemma ApplyRendered(n: Node, add: seq<string>, rem: seq<string>)
    requires forall a :: a in add ==> Plain(a)
    requires forall a :: a in rem ==> Plain(a)
    ensures var r := ApplyChange(n, ParseChange(Render(add, rem)));
      r.Some? <==> NoDup(rem) && forall a :: a in rem ==> a in n.atoms || a in add
    ensures var r := ApplyChange(n, ParseChange(Render(add, rem)));
      r.Some? ==> forall a :: a in r.value.atoms <==> (a in n.atoms || a in add) && a !in rem
  {
    RenderParse(add, rem);
  }

  // ---------------------------------------------------------------------
  // Action

  /** What an action assigns to a member: an atom, or a change. */
  datatype Assignment = Gain(atom: string) | Shift(change: AtomChange)

  /** `members` maps each role keyword to the uid of the node in that role;
      `changes` maps node uids to what the action assigns them. */
  datatype Action = Action(uid: string, atoms: set<string>, members: map<string, string>, changes: map<string, set<Assignment>>)

  /** The outcome of the constructor: an action, or the exception naming
      the roles that are not keywords. */
  datatype Made = Made(action: Action) | Refused(roles: set<string>)

  /** `Action(uid, atoms, members, changes)` against the keyword set
      `ACTION_KEYWORDS`: it is built only when the set of roles is a
      strict subset of the keywords. */
  function MakeAction(uid: string, atoms: set<string>, members: map<string, string>, changes: map<string, set<Assignment>>, keywords: set<string>): (r: Made)
    ensures r.Made? <==> members.Keys < keywords
    ensures r.Made? ==> r.action.members == members && r.action.uid == uid && r.action.atoms == atoms
    ensures r.Refused? ==> r.roles == members.Keys - keywords
  {
    if members.Keys < keywords then Made(Action(uid, atoms, members, changes))
    else Refused(members.Keys - keywords)
  }

  /** As written, an action that fills every role keyword is refused, with
      an empty list of offending roles. */
  lemma EveryRoleFilledIsRefused(uid: string, members: map<string, string>, keywords: set<string>)
    requires members.Keys == keywords
    ensures MakeAction(uid, {}, members, map[], keywords) == Refused({})
  {
  }

  /** The check as its message describes it: refused exactly when some
      role is not a keyword. */
  function MakeActionIntended(uid: string, atoms: set<string>, members: map<string, string>, changes: map<string, set<Assignment>>, keywords: set<string>): (r: Made)
    ensures r.Made? <==> members.Keys <= keywords
    ensures r.Made? ==> r.action.members == members && r.action.uid == uid && r.action.atoms == atoms
    ensures r.Refused? ==> r.roles == members.Keys - keywords && r.roles != {}
  {
    if members.Keys <= keywords then Made(Action(uid, atoms, members, changes))
    else
      assert members.Keys - keywords != {} by {
        var role :| role in members.Keys && role !in keywords;
        assert role in members.Keys - keywords;
      }
      Refused(members.Keys - keywords)
  }

  /** The corrected check refuses only when it can name a role, and accepts
      whatever the check as written accepts. */
  lemma IntendedRefusalNamesARole(uid: string, atoms: set<string>, members: map<string, string>, changes: map<string, set<Assignment>>, keywords: set<string>)
    ensures MakeActionIntended(uid, atoms, members, changes, keywords).Refused? <==>
              exists role :: role in members && role !in keywords
    ensures MakeAction(uid, atoms, members, changes, keywords).Made? ==>
              MakeActionIntended(uid, atoms, members, changes, keywords) == MakeAction(uid, atoms, members, changes, keywords)
  {
    if MakeActionIntended(uid, atoms, members, changes, keywords).Refused? {
      var role :| role in members.Keys - keywords;
    }
  }

  // ---------------------------------------------------------------------
  // Frame

  /** One time step: a collection of simultaneous actions. */
  datatype Frame = Frame(uid: string, atoms: set<string>, actions: seq<Action>)

  /** The union of the members of the given actions. */
  function ActionNodes(actions: seq<Action>): (r: set<string>)
    ensures forall n :: n in r <==> exists k :: 0 <= k < |actions| && n in actions[k].members.Values
  {
    if actions == [] then {}
    else
      var init := actions[..|actions| - 1];
      var r := ActionNodes(init) + actions[|actions| - 1].members.Values;
      assert forall k :: 0 <= k < |init| ==> actions[k] == init[k];
      r
  }

  /** `Frame.nodes`: the nodes that take a role in some action of the
      frame. */
  function FrameNodes(f: Frame): (r: set<string>)
    ensures forall n :: n in r <==> exists a :: a in f.actions && n in a.members.Values
  {
    ActionNodes(f.actions)
  }

  // ---------------------------------------------------------------------
  // Sequence

  /** A succession of frames, with `nodes` indexing, for each node, the
      frames in which it takes part. */
  datatype Sequence = Sequence(uid: string, atoms: set<string>, frames: seq<Frame>, nodes: map<string, seq<Frame>>)

  /** `frame in frames`: frames compare by uid. */
  predicate HasUid(fs: seq<Frame>, uid: string)
  {
    exists g :: g in fs && g.uid == uid
  }

  function FramesAt(index: map<string, seq<Frame>>, n: string): seq<Frame>
  {
    if n in index then index[n] else []
  }

  /** The index after recording `f`: `f` appended to the list of each of
      its nodes. */
  function Index(index: map<string, seq<Frame>>, f: Frame): map<string, seq<Frame>>
  {
    map n | n in index.Keys + FrameNodes(f) :: FramesAt(index, n) + (if n in FrameNodes(f) then [f] else [])
  }

  /** `add_frame(frame, position)`: a frame whose uid is already present
      changes nothing; otherwise it is recorded under each of its nodes and
      inserted with `list.insert(position, frame)`. */
  function AddFrame(s: Sequence, f: Frame, position: int): (r: Sequence)
    ensures HasUid(s.frames, f.uid) ==> r == s
    ensures !HasUid(s.frames, f.uid) ==> |r.frames| == |s.frames| + 1 && f in r.frames
    ensures forall g :: g in r.frames ==> g in s.frames || g == f
    ensures !HasUid(s.frames, f.uid) ==>
              var k := InsertIndex(position, |s.frames|);
              && r.frames[k] == f
              && r.frames[..k] == s.frames[..k]
              && r.frames[k + 1..] == s.frames[k..]
    ensures !HasUid(s.frames, f.uid) ==> forall n :: n in FrameNodes(f) ==> n in r.nodes && r.nodes[n] == FramesAt(s.nodes, n) + [f]
    ensures forall n :: n !in FrameNodes(f) ==> FramesAt(r.nodes, n) == FramesAt(s.nodes, n)
    ensures r.uid == s.uid && r.atoms == s.atoms
  {
    if HasUid(s.frames, f.uid) then s
    else
      var k := InsertIndex(position, |s.frames|);
      var r := s.(frames := Insert(s.frames, position, f), nodes := Index(s.nodes, f));
      assert r.frames[k] == f;
      assert r.frames == r.frames[..k] + [f] + r.frames[k + 1..];
      r
  }

  /** With the default position `-1` a new frame lands just before the last
      frame, which stays last; only into an empty sequence does it go
      first. */
  lemma AddFrameBeforeLast(s: Sequence, f: Frame)
    requires !HasUid(s.frames, f.uid)
    ensures s.frames == [] ==> AddFrame(s, f, -1).frames == [f]
    ensures s.frames != [] ==> AddFrame(s, f, -1).frames
                                 == s.frames[..|s.frames| - 1] + [f, s.frames[|s.frames| - 1]]
  {
    if s.frames != [] {
      var n := |s.frames|;
      assert InsertIndex(-1, n) == n - 1;
      assert s.frames[n - 1..] == [s.frames[n - 1]];
    }
  }

  /** `clear_frames()`: no frames and an empty index; uid and atoms
      stay. */
  function ClearFrames(s: Sequence): (r: Sequence)
    ensures r.frames == [] && r.nodes == map[]
    ensures r.uid == s.uid && r.atoms == s.atoms
  {
    s.(frames := [], nodes := map[])
  }

  /** `set_frames(frames)`: clear, then `add_frame` each frame in turn
      with the default position. */
  function SetFrames(s: Sequence, fs: seq<Frame>): (r: Sequence)
    ensures r.uid == s.uid && r.atoms == s.atoms
    ensures |r.frames| <= |fs|
    ensures forall g :: g in r.frames ==> g in fs
  {
    if fs == [] then ClearFrames(s)
    else
      assert forall g :: g in fs[..|fs| - 1] ==> g in fs;
      AddFrame(SetFrames(s, fs[..|fs| - 1]), fs[|fs| - 1], -1)
  }

  /** `Sequence(uid, atoms, frames)`. */
  function NewSequence(uid: string, atoms: set<string>, fs: seq<Frame>): (r: Sequence)
    ensures r.uid == uid && r.atoms == atoms
  {
    SetFrames(Sequence(uid, atoms, [], map[]), fs)
  }

  /** `append(seq, uid)`: a new sequence named `"<a>+<b>"` unless a uid is
      given, holding the atoms of both and built from the frames of `a`
      followed by those of `b`. */
  function Append(a: Sequence, b: Sequence, uid: Option<string>): (r: Sequence)
    ensures uid.Some? ==> r.uid == uid.value
    ensures uid.None? ==> r.uid == a.uid + "+" + b.uid
    ensures forall x :: x in r.atoms <==> x in a.atoms || x in b.atoms
  {
    NewSequence(if uid.Some? then uid.value else a.uid + "+" + b.uid, a.atoms + b.atoms, a.frames + b.frames)
  }

  // ---------------------------------------------------------------------
  // What a sequence of frames ends up holding

  /** The frames with the first occurrence of each uid kept, in order. */
  function Dedup(fs: seq<Frame>): (r: seq<Frame>)
    ensures forall u :: HasUid(r, u) <==> HasUid(fs, u)
    ensures forall g :: g in r ==> g in fs
  {
    if fs == [] then []
    else
      var init := fs[..|fs| - 1];
      var last := fs[|fs| - 1];
      var d := Dedup(init);
      assert fs == init + [last];
      assert forall g :: g in fs <==> g in init || g == last;
      if HasUid(d, last.uid) then d
      else
        var r := d + [last];
        assert forall g :: g in r <==> g in d || g == last;
        assert forall u :: HasUid(r, u) <==> HasUid(d, u) || u == last.uid by {
          forall u ensures HasUid(r, u) <==> HasUid(d, u) || u == last.uid {
            if u == last.uid {
              assert last in r;
            }
          }
        }
        r
  }

  /** No two frames share a uid. */
  predicate UidsDistinct(fs: seq<Frame>)
  {
    forall i, j :: 0 <= i < j < |fs| ==> fs[i].uid != fs[j].uid
  }

  lemma {:induction false} DedupDistinct(fs: seq<Frame>)
    ensures UidsDistinct(Dedup(fs))
  {
    if fs != [] {
      var init := fs[..|fs| - 1];
      DedupDistinct(init);
    }
  }

  /** The first frame moved to the end. */
  function Rotate(d: seq<Frame>): (r: seq<Frame>)
    ensures |r| == |d|
    ensures forall u :: HasUid(r, u) <==> HasUid(d, u)
  {
    if d == [] then []
    else
      var r := d[1..] + [d[0]];
      assert d == [d[0]] + d[1..];
      assert forall g :: g in r <==> g in d;
      r
  }

  /** The nodes of some frame. */
  function NodesOf(fs: seq<Frame>): (r: set<string>)
    ensures forall n :: n in r <==> exists g :: g in fs && n in FrameNodes(g)
  {
    if fs == [] then {}
    else
      var init := fs[..|fs| - 1];
      var last := fs[|fs| - 1];
      assert fs == init + [last];
      assert forall g :: g in fs <==> g in init || g == last;
      NodesOf(init) + FrameNodes(last)
  }

  /** The frames, in order, that involve node `n`: none exactly when `n`
      is not a node of any frame. */
  function FramesWith(fs: seq<Frame>, n: string): (r: seq<Frame>)
    ensures forall g :: g in r <==> g in fs && n in FrameNodes(g)
    ensures r == [] <==> n !in NodesOf(fs)
  {
    if fs == [] then []
    else
      var init := fs[..|fs| - 1];
      var last := fs[|fs| - 1];
      assert fs == init + [last];
      FramesWith(init, n) + (if n in FrameNodes(last) then [last] else [])
  }

  /** The index `nodes` should hold for frames added in the order `fs`:
      each node of some frame, mapped to the frames that involve it. */
  function NodeIndex(fs: seq<Frame>): (m: map<string, seq<Frame>>)
    ensures forall n :: n in m <==> exists g :: g in fs && n in FrameNodes(g)
    ensures forall n :: n in m ==> m[n] == FramesWith(fs, n) && m[n] != []
  {
    map n | n in NodesOf(fs) :: FramesWith(fs, n)
  }

  lemma NodesOfSnoc(d: seq<Frame>, f: Frame)
    ensures NodesOf(d + [f]) == NodesOf(d) + FrameNodes(f)
  {
    var e := d + [f];
    assert e[..|e| - 1] == d;
  }

  lemma FramesWithSnoc(d: seq<Frame>, f: Frame, n: string)
    ensures FramesWith(d + [f], n) == FramesWith(d, n) + (if n in FrameNodes(f) then [f] else [])
  {
    var e := d + [f];
    assert e[..|e| - 1] == d;
  }

  lemma IndexKeys(index: map<string, seq<Frame>>, f: Frame)
    ensures Index(index, f).Keys == index.Keys + FrameNodes(f)
  {
  }

  lemma NodeIndexKeys(fs: seq<Frame>)
    ensures NodeIndex(fs).Keys == NodesOf(fs)
  {
  }

  lemma IndexSnocKeys(d: seq<Frame>, f: Frame)
    ensures Index(NodeIndex(d), f).Keys == NodeIndex(d + [f]).Keys
  {
    IndexKeys(NodeIndex(d), f);
    NodeIndexKeys(d);
    NodeIndexKeys(d + [f]);
    NodesOfSnoc(d, f);
  }

  lemma IndexSnocAt(d: seq<Frame>, f: Frame, n: string)
    requires n in Index(NodeIndex(d), f) && n in NodeIndex(d + [f])
    ensures Index(NodeIndex(d), f)[n] == NodeIndex(d + [f])[n]
  {
    FramesWithSnoc(d, f, n);
    assert FramesAt(NodeIndex(d), n) == FramesWith(d, n);
  }

  /** Recording one more frame in the index of `d` gives the index of
      `d + [f]`. */
  lemma {:induction false} IndexSnoc(d: seq<Frame>, f: Frame)
    ensures Index(NodeIndex(d), f) == NodeIndex(d + [f])
  {
    var lhs := Index(NodeIndex(d), f);
    var rhs := NodeIndex(d + [f]);
    IndexSnocKeys(d, f);
    forall n | n in lhs ensures lhs[n] == rhs[n] {
      IndexSnocAt(d, f, n);
    }
    MapsEqual(lhs, rhs);
  }

  lemma {:induction false} InsertBeforeLastRotates(d: seq<Frame>, f: Frame)
    ensures Insert(Rotate(d), -1, f) == Rotate(d + [f])
  {
    if d != [] {
      var r := Rotate(d);
      assert InsertIndex(-1, |r|) == |r| - 1;
      assert r[..|r| - 1] == d[1..];
      assert r[|r| - 1..] == [d[0]];
      assert (d + [f])[1..] == d[1..] + [f];
    }
  }

  /** `set_frames(fs)` leaves the frames of `fs` with repeated uids
      dropped, but with the first frame moved to the end, and the index of
      those frames. */
  lemma {:induction false} SetFramesSpec(s: Sequence, fs: seq<Frame>)
    ensures SetFrames(s, fs) == Sequence(s.uid, s.atoms, Rotate(Dedup(fs)), NodeIndex(Dedup(fs)))
  {
    if fs == [] {
      assert NodeIndex([]) == map[];
    } else {
      var init := fs[..|fs| - 1];
      var f := fs[|fs| - 1];
      SetFramesSpec(s, init);
      var d := Dedup(init);
      var prev := SetFrames(s, init);
      if !HasUid(d, f.uid) {
        InsertBeforeLastRotates(d, f);
        IndexSnoc(d, f);
      }
    }
  }

  /** Two frames with distinct uids come out of `set_frames` in reverse
      order. */
  lemma SetFramesSwapsTwo(s: Sequence, f1: Frame, f2: Frame)
    requires f1.uid != f2.uid
    ensures SetFrames(s, [f1, f2]).frames == [f2, f1]
  {
    SetFramesOrder(s, [f1, f2]);
    DedupTwo(f1, f2);
    assert [f1, f2][1..] + [f1] == [f2, f1];
  }

  lemma SetFramesOrder(s: Sequence, fs: seq<Frame>)
    ensures SetFrames(s, fs).frames == Rotate(Dedup(fs))
  {
    SetFramesSpec(s, fs);
  }

  lemma DedupTwo(f1: Frame, f2: Frame)
    requires f1.uid != f2.uid
    ensures Dedup([f1, f2]) == [f1, f2]
  {
    assert [f1, f2][..1] == [f1];
    assert Dedup([f1]) == [f1] by {
      assert [f1][..0] == [];
    }
    assert !HasUid([f1], f2.uid);
  }

  // ---------------------------------------------------------------------
  // Frames kept in the given order

  /** `set_frames` as its documentation describes it: each frame is added
      at the end. */
  function SetFramesInOrder(s: Sequence, fs: seq<Frame>): (r: Sequence)
    ensures r.uid == s.uid && r.atoms == s.atoms
  {
    if fs == [] then ClearFrames(s)
    else
      var prev := SetFramesInOrder(s, fs[..|fs| - 1]);
      AddFrame(prev, fs[|fs| - 1], |prev.frames|)
  }

  /** The corrected `set_frames(fs)` leaves exactly the frames of `fs` with
      repeated uids dropped, in their given order, and their index. */
  lemma {:induction false} SetFramesInOrderSpec(s: Sequence, fs: seq<Frame>)
    ensures SetFramesInOrder(s, fs) == Sequence(s.uid, s.atoms, Dedup(fs), NodeIndex(Dedup(fs)))
  {
    if fs == [] {
      assert NodeIndex([]) == map[];
    } else {
      var init := fs[..|fs| - 1];
      var f := fs[|fs| - 1];
      SetFramesInOrderSpec(s, init);
      var d := Dedup(init);
      if !HasUid(d, f.uid) {
        assert Insert(d, |d|, f) == d + [f];
        IndexSnoc(d, f);
      }
    }
  }

  /** `append` with the corrected `set_frames`: the frames of `a` followed
      by those of `b` whose uids are new. */
  function AppendInOrder(a: Sequence, b: Sequence, uid: Option<string>): (r: Sequence)
    ensures uid.Some? ==> r.uid == uid.value
    ensures uid.None? ==> r.uid == a.uid + "+" + b.uid
    ensures forall x :: x in r.atoms <==> x in a.atoms || x in b.atoms
  {
    SetFramesInOrder(Sequence(if uid.Some? then uid.value else a.uid + "+" + b.uid, a.atoms + b.atoms, [], map[]), a.frames + b.frames)
  }

  /** Frames with distinct uids keep their order through the corrected
      `set_frames`. */
  lemma {:induction false} DedupDistinctKeeps(fs: seq<Frame>)
    requires UidsDistinct(fs)
    ensures Dedup(fs) == fs
  {
    if fs != [] {
      var init := fs[..|fs| - 1];
      DedupDistinctKeeps(init);
      assert !HasUid(init, fs[|fs| - 1].uid);
      assert init + [fs[|fs| - 1]] == fs;
    }
  }

  /** The two halves of the corrected `append`. */
  lemma AppendInOrderFrames(a: Sequence, b: Sequence, uid: Option<string>)
    requires UidsDistinct(a.frames + b.frames)
    ensures AppendInOrder(a, b, uid).frames == a.frames + b.frames
  {
    var s := Sequence(if uid.Some? then uid.value else a.uid + "+" + b.uid, a.atoms + b.atoms, [], map[]);
    SetFramesInOrderSpec(s, a.frames + b.frames);
    DedupDistinctKeeps(a.frames + b.frames);
  }

  /** As written, `append` rotates the joined frames: the first frame of
      `a` ends up last. */
  lemma AppendRotates(a: Sequence, b: Sequence, uid: Option<string>)
    ensures Append(a, b, uid).frames == Rotate(Dedup(a.frames + b.frames))
  {
    SetFramesSpec(Sequence(if uid.Some? then uid.value else a.uid + "+" + b.uid, a.atoms + b.atoms, [], map[]), a.frames + b.frames);
  }
}
