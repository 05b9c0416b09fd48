/** Sequence helpers shared by the graph store and the entity model:
    duplicate-freedom, Python's `list.remove`, filtering out one value,
    and Python's `list.insert` index normalisation. */
module Seqs {

  /** A value that may be missing; `None` also stands for a Python exception
      (a `KeyError`) where an operation can raise one. */
  datatype Option<T> = None | Some(value: T)

  /** No value occurs twice. */
  predicate NoDup<T(==)>(s: seq<T>) {
    forall i, j :: 0 <= i < j < |s| ==> s[i] != s[j]
  }

  lemma NoDupConcat<T>(a: seq<T>, b: seq<T>)
    requires NoDup(a + b)
    ensures NoDup(a) && NoDup(b)
    ensures forall x :: x in a ==> x !in b
  {
    forall i, j | 0 <= i < j < |a| ensures a[i] != a[j] {
      assert (a + b)[i] == a[i] && (a + b)[j] == a[j];
    }
    forall i, j | 0 <= i < j < |b| ensures b[i] != b[j] {
      assert (a + b)[|a| + i] == b[i] && (a + b)[|a| + j] == b[j];
    }
    forall i, j | 0 <= i < |a| && 0 <= j < |b| ensures a[i] != b[j] {
      assert (a + b)[i] == a[i] && (a + b)[|a| + j] == b[j];
    }
  }

  lemma NoDupAppend<T>(a: seq<T>, b: seq<T>)
    requires NoDup(a) && NoDup(b)
    requires forall x :: x in a ==> x !in b
    ensures NoDup(a + b)
  {
    forall i, j | 0 <= i < j < |a + b| ensures (a + b)[i] != (a + b)[j] {
      if j < |a| {
        assert (a + b)[i] == a[i] && (a + b)[j] == a[j];
      } else if |a| <= i {
        assert (a + b)[i] == b[i - |a|] && (a + b)[j] == b[j - |a|];
      } else {
        assert (a + b)[i] == a[i] && (a + b)[j] == b[j - |a|];
        assert b[j - |a|] in b;
      }
    }
  }

  lemma NoDupThree<T>(x: T, y: T, z: T)
    requires x != y && x != z && y != z
    ensures NoDup([x, y, z])
  {
  }

  lemma NoDupFour<T>(w: T, x: T, y: T, z: T)
    requires w != x && w != y && w != z && x != y && x != z && y != z
    ensures NoDup([w, x, y, z])
  {
  }

  /** The elements of a sequence as a set. */
  function Elems<T(!new)>(s: seq<T>): (r: set<T>)
    ensures forall x :: x in r <==> x in s
  {
    set x | x in s
  }

  lemma NoDupSnoc<T>(s: seq<T>, x: T)
    ensures NoDup(s + [x]) <==> NoDup(s) && x !in s
  {
    if NoDup(s + [x]) {
      NoDupConcat(s, [x]);
    }
    if NoDup(s) && x !in s {
      forall i, j | 0 <= i < j < |s + [x]| ensures (s + [x])[i] != (s + [x])[j] {
        if j == |s| {
          assert (s + [x])[i] == s[i];
        }
      }
    }
  }

  /** Maps with the same keys and the same value at each key are equal. */
  lemma MapsEqual<K, V>(a: map<K, V>, b: map<K, V>)
    requires a.Keys == b.Keys
    requires forall k :: k in a ==> a[k] == b[k]
    ensures a == b
  {
  }

  /** Pigeonhole: a duplicate-free sequence drawn from `pool` is no longer
      than `pool`. */
  lemma {:induction false} NoDupBound<T(!new)>(s: seq<T>, pool: seq<T>)
    requires NoDup(s)
    requires forall x :: x in s ==> x in pool
    ensures |s| <= |pool|
  {
    if s != [] {
      var x := s[|s| - 1];
      var init := s[..|s| - 1];
      var rest := RemoveFirst(pool, x);
      forall y | y in init ensures y in rest {
        var i :| 0 <= i < |init| && init[i] == y;
        assert s[i] == y;
        assert y != x;
        assert y in s;
        assert y in pool;
        assert y in multiset(pool);
        assert multiset(rest)[y] == multiset(pool)[y];
      }
      NoDupBound(init, rest);
    }
  }

  /** Every occurrence of `x` dropped, the rest in order (the effect of
      `while x in s: s.remove(x)`). */
  function RemoveAll<T(==,!new)>(s: seq<T>, x: T): (r: seq<T>)
    ensures x !in r
    ensures forall y :: y != x ==> (y in r <==> y in s)
    ensures |r| <= |s|
  {
    if s == [] then []
    else RemoveAll(s[..|s| - 1], x) + (if s[|s| - 1] == x then [] else [s[|s| - 1]])
  }

  /** The index of the first occurrence of `x`. */
  function FirstIndex<T(==)>(s: seq<T>, x: T): (k: nat)
    requires x in s
    ensures k < |s| && s[k] == x && x !in s[..k]
  {
    if s[0] == x then 0
    else
      var k := 1 + FirstIndex(s[1..], x);
      assert s[..k] == [s[0]] + s[1..][..k - 1];
      k
  }

  /** Python's `list.remove(x)`: drops the first occurrence only. */
  function RemoveFirst<T(==,!new)>(s: seq<T>, x: T): (r: seq<T>)
    requires x in s
    ensures |r| == |s| - 1
    ensures multiset(r) == multiset(s) - multiset{x}
  {
    var k := FirstIndex(s, x);
    assert s == s[..k] + [x] + s[k + 1..];
    s[..k] + s[k + 1..]
  }

  lemma {:induction false} RemoveAllAbsent<T(!new)>(s: seq<T>, x: T)
    requires x !in s
    ensures RemoveAll(s, x) == s
  {
    if s != [] {
      var s' := s[..|s| - 1];
      assert x !in s' by {
        assert forall y :: y in s' ==> y in s;
      }
      RemoveAllAbsent(s', x);
      assert s[|s| - 1] != x;
      assert s == s' + [s[|s| - 1]];
    }
  }

  lemma {:induction false} RemoveAllConcat<T(!new)>(a: seq<T>, b: seq<T>, x: T)
    ensures RemoveAll(a + b, x) == RemoveAll(a, x) + RemoveAll(b, x)
    decreases |b|
  {
    if b == [] {
      assert a + b == a;
    } else {
      var b' := b[..|b| - 1];
      assert (a + b)[..|a + b| - 1] == a + b';
      RemoveAllConcat(a, b', x);
    }
  }

  lemma {:induction false} RemoveAllNoDup<T(!new)>(s: seq<T>, x: T)
    requires NoDup(s)
    ensures NoDup(RemoveAll(s, x))
  {
    if s != [] {
      var s' := s[..|s| - 1];
      var last := s[|s| - 1];
      assert s == s' + [last];
      NoDupSnoc(s', last);
      RemoveAllNoDup(s', x);
      if last != x {
        NoDupSnoc(RemoveAll(s', x), last);
      }
    }
  }

  /** A value that starts the list and occurs nowhere else is the only
      thing removed. */
  lemma RemoveAllLeading<T(!new)>(x: T, a: seq<T>)
    requires x !in a
    ensures RemoveAll([x] + a, x) == a
  {
    RemoveAllConcat([x], a, x);
    RemoveAllAbsent(a, x);
    assert RemoveAll([x], x) == [] by {
      assert [x][..0] == [];
    }
    assert [] + a == a;
  }

  lemma SplitAt<T>(s: seq<T>, k: nat)
    requires k < |s|
    ensures s == s[..k] + ([s[k]] + s[k + 1..])
  {
  }

  lemma SeqAssoc<T>(a: seq<T>, b: seq<T>, c: seq<T>)
    ensures (a + b) + c == a + (b + c)
  {
  }

  /** A suffix of the tail is a suffix. */
  lemma SuffixOfTail<T>(s: seq<T>, r: seq<T>)
    requires |s| >= 1 && |r| <= |s| - 1 && r == s[1..][|s| - 1 - |r|..]
    ensures r == s[|s| - |r|..]
  {
  }

  /** A prefix of all but the last is a prefix. */
  lemma PrefixOfInit<T>(s: seq<T>, r: seq<T>)
    requires |s| >= 1 && |r| <= |s| - 1 && r == s[..|s| - 1][..|r|]
    ensures r == s[..|r|]
  {
  }

  /** A prefix of a suffix is a slice. */
  lemma SliceOfSuffix<T>(s: seq<T>, f: seq<T>, r: seq<T>)
    requires |f| <= |s| && f == s[|s| - |f|..]
    requires |r| <= |f| && r == f[..|r|]
    ensures r == s[|s| - |f|..|s| - |f| + |r|]
  {
  }

  /** Dropping the single occurrence at `k`. */
  lemma RemoveAllAt<T(!new)>(s: seq<T>, x: T, k: nat)
    requires k < |s| && s[k] == x && x !in s[..k] && x !in s[k + 1..]
    ensures RemoveAll(s, x) == s[..k] + s[k + 1..]
  {
    SplitAt(s, k);
    RemoveAllConcat(s[..k], [x] + s[k + 1..], x);
    RemoveAllLeading(x, s[k + 1..]);
    RemoveAllAbsent(s[..k], x);
  }

  /** The first occurrence of a value that is not in the prefix before `k`. */
  lemma RemoveFirstAt<T(!new)>(s: seq<T>, x: T, k: nat)
    requires k < |s| && s[k] == x && x !in s[..k]
    ensures RemoveFirst(s, x) == s[..k] + s[k + 1..]
  {
    var j := FirstIndex(s, x);
    assert forall i :: 0 <= i < k ==> s[i] != x by {
      forall i | 0 <= i < k ensures s[i] != x {
        assert s[..k][i] == s[i];
      }
    }
    assert forall i :: 0 <= i < j ==> s[i] != x by {
      forall i | 0 <= i < j ensures s[i] != x {
        assert s[..j][i] == s[i];
      }
    }
    assert j == k;
  }

  /** Python's `list.insert(position, x)` clamps the index: a negative
      position counts from the end, and the result is kept in `[0, n]`. */
  function InsertIndex(position: int, n: nat): (k: nat)
    ensures k <= n
    ensures 0 <= position <= n ==> k == position
    ensures position < 0 && 0 <= position + n ==> k == position + n
    ensures position > n ==> k == n
    ensures position + n < 0 ==> k == 0
  {
    if position < 0 then (if position + n < 0 then 0 else position + n)
    else if position > n then n
    else position
  }

  /** Python's `list.insert(position, x)`. */
  function Insert<T>(s: seq<T>, position: int, x: T): (r: seq<T>)
    ensures |r| == |s| + 1
    ensures r[InsertIndex(position, |s|)] == x
    ensures r[..InsertIndex(position, |s|)] == s[..InsertIndex(position, |s|)]
    ensures r[InsertIndex(position, |s|) + 1..] == s[InsertIndex(position, |s|)..]
  {
    var k := InsertIndex(position, |s|);
    s[..k] + [x] + s[k..]
  }

  /** Python's `[xs.remove(y) for y in xs if y == x]`: the comprehension keeps
      an index into the list it is shrinking, so the element after each
      removed one is skipped. `k` is that index. */
  function RemoveScanning<T(==,!new)>(xs: seq<T>, x: T, k: nat): (r: seq<T>)
    ensures |r| <= |xs|
    decreases if k < |xs| then |xs| - k else 0
  {
    if k >= |xs| then xs
    else if xs[k] == x then RemoveScanning(RemoveFirst(xs, x), x, k + 1)
    else RemoveScanning(xs, x, k + 1)
  }

  lemma {:induction false} RemoveScanningAbsent<T(!new)>(xs: seq<T>, x: T, k: nat)
    requires x !in xs
    ensures RemoveScanning(xs, x, k) == xs
    decreases if k < |xs| then |xs| - k else 0
  {
    if k < |xs| {
      RemoveScanningAbsent(xs, x, k + 1);
    }
  }

  lemma {:induction false} RemoveScanningFrom<T(!new)>(xs: seq<T>, x: T, k: nat)
    requires NoDup(xs) && k <= |xs| && x !in xs[..k]
    ensures RemoveScanning(xs, x, k) == RemoveAll(xs, x)
    decreases |xs| - k
  {
    if k == |xs| {
      assert xs[..k] == xs;
      RemoveAllAbsent(xs, x);
    } else if xs[k] == x {
      var ys := xs[..k] + xs[k + 1..];
      RemoveFirstAt(xs, x, k);
      assert RemoveScanning(xs, x, k) == RemoveScanning(ys, x, k + 1);
      assert x !in xs[k + 1..] by {
        forall m | k + 1 <= m < |xs| ensures xs[m] != x {
          assert xs[m] != xs[k];
        }
      }
      assert x !in ys;
      RemoveScanningAbsent(ys, x, k + 1);
      RemoveAllAt(xs, x, k);
    } else {
      assert xs[..k + 1] == xs[..k] + [xs[k]];
      RemoveScanningFrom(xs, x, k + 1);
    }
  }

  /** On a list without duplicates the scanning removal removes every
      occurrence. */
  lemma RemoveScanningNoDup<T(!new)>(xs: seq<T>, x: T)
    requires NoDup(xs)
    ensures RemoveScanning(xs, x, 0) == RemoveAll(xs, x)
  {
    RemoveScanningFrom(xs, x, 0);
  }

  /** With a repeated value the scan skips the second copy. */
  lemma RemoveScanningSkipsRepeat()
    ensures RemoveScanning(["x", "x"], "x", 0) == ["x"]
  {
    assert RemoveFirst(["x", "x"], "x") == ["x"];
  }
}
