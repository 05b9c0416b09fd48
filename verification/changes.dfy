/** `AtomChange`: an expression such as "-raw +cooked" read into the atoms
    it adds and the atoms it removes. The string operations are those of
    Python's `str`: `split(' ')`, `replace(c, '')` and `strip()`. */
module Changes {
  import opened Seqs

  // ---------------------------------------------------------------------
  // str.split(' ')

  /** `" ".join(ws)`. */
  function Join(ws: seq<string>): string
  {
    if ws == [] then ""
    else if |ws| == 1 then ws[0]
    else ws[0] + " " + Join(ws[1..])
  }

  /** `s.split(' ')`: the pieces between single spaces, so that two
      consecutive spaces give an empty piece and an empty string gives one
      empty piece. */
  function Split(s: string): (r: seq<string>)
    ensures |r| >= 1
    ensures forall w :: w in r ==> ' ' !in w
    ensures Join(r) == s
    decreases |s|
  {
    if s == [] then [""]
    else
      var rest := Split(s[1..]);
      if s[0] == ' ' then
        assert s == [' '] + s[1..];
        [""] + rest
      else
        var r := [[s[0]] + rest[0]] + rest[1..];
        assert r[1..] == rest[1..];
        assert s == [s[0]] + s[1..];
        r
  }

  /** Splitting undoes joining: pieces without spaces come back as they
      were. */
  lemma {:induction false} SplitJoin(ws: seq<string>)
    requires |ws| >= 1
    requires forall w :: w in ws ==> ' ' !in w
    ensures Split(Join(ws)) == ws
    decreases |Join(ws)|, |ws[0]|
  {
    if |ws| == 1 {
      SplitNoSpace(ws[0]);
    } else if ws[0] == "" {
      var tail := ws[1..];
      assert Join(ws) == [' '] + Join(tail);
      assert forall w :: w in tail ==> w in ws;
      SplitJoin(tail);
    } else {
      var c := ws[0][0];
      var ws' := [ws[0][1..]] + ws[1..];
      assert ws[0] == [c] + ws[0][1..];
      assert ws'[1..] == ws[1..];
      assert Join(ws) == [c] + Join(ws') by {
        assert Join(ws') == ws[0][1..] + " " + Join(ws[1..]);
      }
      assert forall w :: w in ws' ==> ' ' !in w by {
        forall w | w in ws' ensures ' ' !in w {
          if w == ws[0][1..] {
            assert forall ch :: ch in ws[0][1..] ==> ch in ws[0];
          } else {
            assert w in ws[1..];
          }
        }
      }
      assert c != ' ' by {
        assert c in ws[0];
      }
      SplitJoin(ws');
      assert Join(ws)[1..] == Join(ws');
    }
  }

  lemma {:induction false} SplitNoSpace(w: string)
    requires ' ' !in w
    ensures Split(w) == [w]
    decreases |w|
  {
    if w != [] {
      assert forall ch :: ch in w[1..] ==> ch in w;
      SplitNoSpace(w[1..]);
      assert w == [w[0]] + w[1..];
    }
  }

  // ---------------------------------------------------------------------
  // str.strip()

  /** The characters Python's `str.strip()` removes: space, tab, newline,
      carriage return, vertical tab and form feed. */
  predicate IsSpace(c: char)
  {
    c == ' ' || c == '\t' || c == '\n' || c == '\r' || c == '\U{000B}' || c == '\U{000C}'
  }

  /** The number of whitespace characters `w` starts with. */
  function Lead(w: string): (n: nat)
    ensures n <= |w|
    ensures forall k :: 0 <= k < n ==> IsSpace(w[k])
    ensures n < |w| ==> !IsSpace(w[n])
    decreases |w|
  {
    if w != [] && IsSpace(w[0]) then
      var n := 1 + Lead(w[1..]);
      assert forall k :: 1 <= k < n ==> w[k] == w[1..][k - 1];
      n
    else 0
  }

  /** The number of whitespace characters `w` ends with. */
  function Trail(w: string): (n: nat)
    ensures n <= |w|
    ensures forall k :: |w| - n <= k < |w| ==> IsSpace(w[k])
    ensures n < |w| ==> !IsSpace(w[|w| - n - 1])
    decreases |w|
  {
    if w != [] && IsSpace(w[|w| - 1]) then
      var n := 1 + Trail(w[..|w| - 1]);
      assert forall k :: |w| - n <= k < |w| - 1 ==> w[k] == w[..|w| - 1][k];
      n
    else 0
  }

  /** `w.strip()`: `w` without the whitespace at either end. What is left
      is the middle of `w` and neither starts nor ends with whitespace. */
  function Strip(w: string): (r: string)
    ensures Lead(w) + |r| <= |w| && r == w[Lead(w)..Lead(w) + |r|]
    ensures forall k :: Lead(w) + |r| <= k < |w| ==> IsSpace(w[k])
    ensures r != [] ==> !IsSpace(r[0]) && !IsSpace(r[|r| - 1])
  {
    var a := Lead(w);
    var s := w[a..];
    var r := s[..|s| - Trail(s)];
    assert forall k :: a + |r| <= k < |w| ==> w[k] == s[k - a];
    r
  }

  /** A string that neither starts nor ends with whitespace is left as it
      is. */
  lemma StripTrimmed(w: string)
    requires w != [] ==> !IsSpace(w[0]) && !IsSpace(w[|w| - 1])
    ensures Strip(w) == w
  {
  }

  // ---------------------------------------------------------------------
  // AtomChange

  /** `exp` as given, `add` and `rem` the atoms read from it. */
  datatype AtomChange = AtomChange(exp: string, add: seq<string>, rem: seq<string>)

  /** `[w.replace(mark, '').strip() for w in ws if mark in w]`. */
  function Marked(ws: seq<string>, mark: char): (r: seq<string>)
    ensures |r| <= |ws|
    ensures forall a :: a in r ==> mark !in a
    ensures (forall w :: w in ws ==> mark !in w) <==> r == []
  {
    if ws == [] then []
    else
      var rest := Marked(ws[1..], mark);
      assert forall w :: w in ws <==> w == ws[0] || w in ws[1..] by {
        assert ws == [ws[0]] + ws[1..];
      }
      if mark in ws[0] then
        var a := Strip(RemoveAll(ws[0], mark));
        assert mark !in a by {
          StripKeeps(RemoveAll(ws[0], mark), mark);
        }
        [a] + rest
      else
        rest
  }

  /** Stripping adds no character. */
  lemma StripKeeps(w: string, ch: char)
    requires ch !in w
    ensures ch !in Strip(w)
  {
    var r := Strip(w);
    assert r == w[Lead(w)..Lead(w) + |r|];
    forall k | 0 <= k < |r| ensures r[k] != ch {
      assert r[k] == w[Lead(w) + k];
    }
  }

  /** `AtomChange(exp)`: the atoms to add are the space-separated words
      that contain `+`, with every `+` removed and the ends stripped, in
      order; the atoms to remove are read the same way from the words that
      contain `-`. A word with both signs lands in both lists. */
  function ParseChange(exp: string): (c: AtomChange)
    ensures c.exp == exp
    ensures |c.add| <= |Split(exp)| && |c.rem| <= |Split(exp)|
    ensures forall a :: a in c.add ==> '+' !in a
    ensures forall a :: a in c.rem ==> '-' !in a
    ensures c.add == [] <==> '+' !in exp
    ensures c.rem == [] <==> '-' !in exp
  {
    var ws := Split(exp);
    assert forall w, ch :: w in ws && ch in w ==> ch in exp by {
      forall w, ch | w in ws && ch in w ensures ch in exp {
        JoinKeeps(ws, w, ch);
      }
    }
    assert forall ch :: ch != ' ' && ch in exp ==> exists w :: w in ws && ch in w by {
      forall ch | ch != ' ' && ch in exp ensures exists w :: w in ws && ch in w {
        JoinCovers(ws, ch);
      }
    }
    AtomChange(exp, Marked(ws, '+'), Marked(ws, '-'))
  }

  /** Every character of a joined string other than the separator comes
      from one of the pieces. */
  lemma {:induction false} JoinCovers(ws: seq<string>, ch: char)
    requires ch != ' ' && ch in Join(ws)
    ensures exists w :: w in ws && ch in w
  {
    if |ws| == 1 {
      assert ws[0] in ws;
    } else if ch in ws[0] {
      assert ws[0] in ws;
    } else {
      assert ch in Join(ws[1..]);
      JoinCovers(ws[1..], ch);
      var w :| w in ws[1..] && ch in w;
      assert w in ws;
    }
  }

  lemma {:induction false} JoinKeeps(ws: seq<string>, w: string, ch: char)
    requires w in ws && ch in w
    ensures ch in Join(ws)
  {
    if |ws| > 1 && w != ws[0] {
      assert w in ws[1..];
      JoinKeeps(ws[1..], w, ch);
    }
  }

  // ---------------------------------------------------------------------
  // The inverse of parsing

  /** An atom name that the expression syntax can carry: no space, no
      sign, no whitespace at either end. */
  predicate Plain(a: string)
  {
    ' ' !in a && '+' !in a && '-' !in a && (a != [] ==> !IsSpace(a[0]) && !IsSpace(a[|a| - 1]))
  }

  /** The expression that adds the atoms `add` and removes the atoms
      `rem`: "+a1 +a2 -r1". */
  function Render(add: seq<string>, rem: seq<string>): string
  {
    Join(Signed('+', add) + Signed('-', rem))
  }

  function Signed(sign: char, atoms: seq<string>): (r: seq<string>)
    ensures |r| == |atoms|
    ensures forall k :: 0 <= k < |r| ==> r[k] == [sign] + atoms[k]
  {
    if atoms == [] then [] else [[sign] + atoms[0]] + Signed(sign, atoms[1..])
  }

  lemma {:induction false} MarkedConcat(a: seq<string>, b: seq<string>, mark: char)
    ensures Marked(a + b, mark) == Marked(a, mark) + Marked(b, mark)
    decreases |a|
  {
    if a != [] {
      assert (a + b)[0] == a[0];
      assert (a + b)[1..] == a[1..] + b;
      MarkedConcat(a[1..], b, mark);
    } else {
      assert a + b == b;
    }
  }

  /** One signed plain atom reads back as that atom under its own sign
      and is not seen under the other one. */
  lemma OneSigned(sign: char, other: char, a: string)
    requires sign != other && (sign == '+' || sign == '-') && (other == '+' || other == '-')
    requires Plain(a)
    ensures sign in [sign] + a && other !in [sign] + a
    ensures Strip(RemoveAll([sign] + a, sign)) == a
  {
    var w := [sign] + a;
    assert w[0] == sign;
    assert sign !in a && other !in a;
    RemoveAllLeading(sign, a);
    StripTrimmed(a);
  }

  lemma MarkedHead(sign: char, other: char, a: string, rest: seq<string>)
    requires sign != other && (sign == '+' || sign == '-') && (other == '+' || other == '-')
    requires Plain(a)
    ensures Marked(Signed(sign, [a] + rest), sign) == [a] + Marked(Signed(sign, rest), sign)
  {
    var ws := Signed(sign, [a] + rest);
    assert ([a] + rest)[1..] == rest;
    assert ws[0] == [sign] + a;
    assert ws[1..] == Signed(sign, rest);
    OneSigned(sign, other, a);
  }

  /** Words that all carry `sign` and one plain atom each read back as
      those atoms. */
  lemma {:induction false} MarkedSigned(sign: char, other: char, atoms: seq<string>)
    requires sign != other && (sign == '+' || sign == '-') && (other == '+' || other == '-')
    requires forall a :: a in atoms ==> Plain(a)
    ensures Marked(Signed(sign, atoms), sign) == atoms
    decreases |atoms|
  {
    if atoms != [] {
      var a := atoms[0];
      var rest := atoms[1..];
      assert atoms == [a] + rest;
      assert a in atoms;
      MarkedHead(sign, other, a, rest);
      assert forall x :: x in rest ==> x in atoms;
      MarkedSigned(sign, other, rest);
    }
  }

  /** The same words read as nothing under the other sign. */
  lemma {:induction false} MarkedOtherSign(sign: char, other: char, atoms: seq<string>)
    requires sign != other && (sign == '+' || sign == '-') && (other == '+' || other == '-')
    requires forall a :: a in atoms ==> Plain(a)
    ensures Marked(Signed(sign, atoms), other) == []
  {
    var ws := Signed(sign, atoms);
    forall w | w in ws ensures other !in w {
      var k :| 0 <= k < |ws| && ws[k] == w;
      assert atoms[k] in atoms;
      OneSigned(sign, other, atoms[k]);
    }
  }

  /** Parsing undoes rendering: an expression written from plain atoms
      reads back as exactly those atoms, in order. */
  lemma RenderParse(add: seq<string>, rem: seq<string>)
    requires forall a :: a in add ==> Plain(a)
    requires forall a :: a in rem ==> Plain(a)
    ensures ParseChange(Render(add, rem)).add == add
    ensures ParseChange(Render(add, rem)).rem == rem
  {
    var ws := Signed('+', add) + Signed('-', rem);
    if ws == [] {
      assert Split(Render(add, rem)) == [""];
      return;
    }
    assert forall w :: w in ws ==> ' ' !in w by {
      forall w | w in ws ensures ' ' !in w {
        var k :| 0 <= k < |ws| && ws[k] == w;
        if k < |add| {
          assert w == ['+'] + add[k];
          assert add[k] in add;
        } else {
          assert w == ['-'] + rem[k - |add|];
          assert rem[k - |add|] in rem;
        }
      }
    }
    SplitJoin(ws);
    MarkedConcat(Signed('+', add), Signed('-', rem), '+');
    MarkedConcat(Signed('+', add), Signed('-', rem), '-');
    MarkedSigned('+', '-', add);
    MarkedSigned('-', '+', rem);
    MarkedOtherSign('+', '-', add);
    MarkedOtherSign('-', '+', rem);
  }

  /** A word of an expression: an atom under a sign, or a word that
      carries no sign and so names no atom. */
  datatype Token = Sign(mark: char, atom: string) | Bare(word: string)

  predicate TokenOK(t: Token)
  {
    match t
    case Sign(mark, atom) => (mark == '+' || mark == '-') && Plain(atom)
    case Bare(word) => Plain(word)
  }

  function Word(t: Token): string
  {
    match t
    case Sign(mark, atom) => [mark] + atom
    case Bare(word) => word
  }

  function Words(ts: seq<Token>): (r: seq<string>)
    ensures |r| == |ts|
    ensures forall k :: 0 <= k < |r| ==> r[k] == Word(ts[k])
  {
    if ts == [] then [] else [Word(ts[0])] + Words(ts[1..])
  }

  /** The atoms of the tokens signed with `mark`, in order. */
  function Picked(ts: seq<Token>, mark: char): seq<string>
  {
    if ts == [] then []
    else if ts[0].Sign? && ts[0].mark == mark then [ts[0].atom] + Picked(ts[1..], mark)
    else Picked(ts[1..], mark)
  }

  /** Reading the words under `mark` picks exactly the atoms signed with
      `mark`: atoms under the other sign and unsigned words are skipped. */
  lemma {:induction false} MarkedWords(ts: seq<Token>, mark: char)
    requires mark == '+' || mark == '-'
    requires forall t :: t in ts ==> TokenOK(t)
    ensures Marked(Words(ts), mark) == Picked(ts, mark)
    decreases |ts|
  {
    if ts != [] {
      var t := ts[0];
      var ws := Words(ts);
      assert t in ts;
      assert ws[1..] == Words(ts[1..]);
      assert forall u :: u in ts[1..] ==> u in ts;
      MarkedWords(ts[1..], mark);
      match t
      case Sign(m, a) =>
        var other := if m == '+' then '-' else '+';
        OneSigned(m, other, a);
      case Bare(w) =>
        assert mark !in ws[0];
    }
  }

  /** Parsing an expression made of signed plain atoms and unsigned plain
      words, in any order: `add` is the `+` atoms and `rem` the `-` atoms,
      each in the order written, and unsigned words land in neither. */
  lemma {:induction false} ParseTokens(ts: seq<Token>)
    requires forall t :: t in ts ==> TokenOK(t)
    ensures ParseChange(Join(Words(ts))).add == Picked(ts, '+')
    ensures ParseChange(Join(Words(ts))).rem == Picked(ts, '-')
  {
    var ws := Words(ts);
    if ts == [] {
      assert Split(Join(ws)) == [""];
    } else {
      assert forall w :: w in ws ==> ' ' !in w by {
        forall w | w in ws ensures ' ' !in w {
          var k :| 0 <= k < |ws| && ws[k] == w;
          assert ts[k] in ts;
        }
      }
      SplitJoin(ws);
      MarkedWords(ts, '+');
      MarkedWords(ts, '-');
    }
  }

  /** A single word with both signs is read into both lists: each entry
      is the word without that entry's sign, so it keeps the other one. */
  lemma BothSigns(w: string)
    requires ' ' !in w && '+' in w && '-' in w
    ensures ParseChange(w).add == [Strip(RemoveAll(w, '+'))]
    ensures ParseChange(w).rem == [Strip(RemoveAll(w, '-'))]
  {
    SplitNoSpace(w);
  }
}
