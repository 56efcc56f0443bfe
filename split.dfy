/** `ESplit`: splitting an entry's text on a literal delimiter, with the
    semantics of Java's `String.split(Pattern.quote(delimiter))` (limit 0). */
module Split {
  import opened Entry
  import opened Safe
  import opened Text

  /** The delimiter of `new ESplit(origin)`. */
  const DefaultDelimiter := ";"

  /** The pieces between the leftmost non-overlapping occurrences of `d`,
      before trailing empty pieces are removed. */
  function Pieces(s: string, d: string): (r: seq<string>)
    requires d != []
    ensures |r| >= 1
    decreases |s|
  {
    var k := IndexOf(s, d);
    if k == -1 then [s] else [s[..k]] + Pieces(s[k + |d|..], d)
  }

  /** Removes the run of empty strings at the end. */
  function StripTrailingEmpty(xs: seq<string>): (r: seq<string>)
    ensures |r| <= |xs| && r == xs[..|r|]
    ensures r != [] ==> r[|r| - 1] != ""
    ensures forall i :: |r| <= i < |xs| ==> xs[i] == ""
    decreases |xs|
  {
    if xs == [] then []
    else if xs[|xs| - 1] == "" then StripTrailingEmpty(xs[..|xs| - 1])
    else xs
  }

  /** `s.split(Pattern.quote(d))`. Without a match the input comes back whole
      (so `""` gives `[""]`); otherwise the pieces lose their trailing empty
      ones. An empty delimiter matches between characters and gives one token
      per character. */
  function SplitText(s: string, d: string): (r: seq<string>)
    ensures d != [] ==> forall i, j :: 0 <= i < |r| ==> !MatchAt(r[i], d, j)
    ensures d != [] && IndexOf(s, d) == -1 ==> r == [s]
  {
    if d == [] then (if s == [] then [s] else seq(|s|, i requires 0 <= i < |s| => [s[i]]))
    else if IndexOf(s, d) == -1 then [s]
    else
      PiecesFree(s, d);
      StripTrailingEmpty(Pieces(s, d))
  }

  /** `new ESplit(origin, delimiter).value()`: the origin passes through a
      default `ESafe`, so `null` fails with `Empty entry`; a quoted pattern
      always compiles, so a present text always splits. */
  function ESplit(origin: Outcome<string>, delimiter: string): (r: Result<seq<string>>)
    ensures origin.Value? ==> r == Ok(SplitText(origin.value, delimiter))
    ensures (origin.NullValue? || origin.NullPointer?) ==> r == Err(Failure(EmptyEntry))
    ensures origin.Thrown? ==> r == Err(origin.error)
  {
    match DefaultSafe(origin)
    case Ok(s) => Ok(SplitText(s, delimiter))
    case Err(e) => Err(e)
  }

  /** `new ESplit(origin).value()`. */
  function ESplitDefault(origin: Outcome<string>): (r: Result<seq<string>>)
    ensures origin.Value? ==> r == Ok(SplitText(origin.value, ";"))
  {
    ESplit(origin, DefaultDelimiter)
  }

  /** Joining the pieces with the delimiter gives back the input. */
  lemma {:induction false} JoinPieces(s: string, d: string)
    requires d != []
    ensures Join(Pieces(s, d), d) == s
    decreases |s|
  {
    var k := IndexOf(s, d);
    if k != -1 {
      var a, rest := s[..k], s[k + |d|..];
      PiecesStep(s, d);
      JoinPieces(rest, d);
      JoinCons(a, Pieces(rest, d), d);
    }
  }

  /** One step of the split: the text before the first delimiter, the
      delimiter, and the rest, whose pieces follow. */
  lemma PiecesStep(s: string, d: string)
    requires d != [] && IndexOf(s, d) != -1
    ensures var k := IndexOf(s, d);
      && k + |d| <= |s|
      && s == s[..k] + d + s[k + |d|..]
      && Pieces(s, d) == [s[..k]] + Pieces(s[k + |d|..], d)
  {
    var k := IndexOf(s, d);
    assert MatchAt(s, d, k);
    Around(s, k, |d|);
  }

  /** The first token is the text before the first delimiter, or the whole
      input when there is none; a non-empty first piece always survives. */
  lemma FirstToken(s: string, d: string)
    requires d != []
    ensures IndexOf(s, d) == -1 ==> SplitText(s, d) == [s]
    ensures IndexOf(s, d) != -1 && SplitText(s, d) != [] ==> SplitText(s, d)[0] == s[..IndexOf(s, d)]
    ensures IndexOf(s, d) > 0 ==> SplitText(s, d) != []
  {
    var k := IndexOf(s, d);
    if k != -1 {
      PiecesStep(s, d);
      var xs := Pieces(s, d);
      assert xs[0] == s[..k];
      var r := StripTrailingEmpty(xs);
      if r != [] {
        assert r[0] == xs[0];
      }
      if k > 0 {
        assert xs[0] != "";
      }
    }
  }

  /** `s.replace(target, replacement)` is the pieces of `s` around `target`
      joined with the replacement: every occurrence is replaced. */
  lemma {:induction false} ReplacePieces(s: string, target: string, replacement: string)
    requires target != []
    ensures ReplaceAll(s, target, replacement) == Join(Pieces(s, target), replacement)
    decreases |s|
  {
    var k := IndexOf(s, target);
    if k != -1 {
      var rest := s[k + |target|..];
      PiecesStep(s, target);
      ReplacePieces(rest, target, replacement);
      JoinCons(s[..k], Pieces(rest, target), replacement);
    }
  }

  /** Every piece is empty exactly when every character is the delimiter. */
  lemma PiecesAllEmpty(s: string, c: char)
    ensures (forall i :: 0 <= i < |Pieces(s, [c])| ==> Pieces(s, [c])[i] == "")
        <==> (forall i :: 0 <= i < |s| ==> s[i] == c)
  {
    if forall i :: 0 <= i < |s| ==> s[i] == c {
      EmptyPiecesOfDelimiters(s, c);
    } else if forall i :: 0 <= i < |Pieces(s, [c])| ==> Pieces(s, [c])[i] == "" {
      DelimitersOfEmptyPieces(s, c);
    }
  }

  /** A text made only of the delimiter splits into empty pieces. */
  lemma {:induction false} EmptyPiecesOfDelimiters(s: string, c: char)
    requires forall i :: 0 <= i < |s| ==> s[i] == c
    ensures forall i :: 0 <= i < |Pieces(s, [c])| ==> Pieces(s, [c])[i] == ""
    decreases |s|
  {
    if s == [] {
      CharAbsent(s, c);
    } else {
      MatchAtChar(s, c, 0);
      FirstMatch(s, [c], 0, 0);
      PiecesStep(s, [c]);
      var rest := s[1..];
      EmptyPiecesOfDelimiters(rest, c);
      assert Pieces(s, [c]) == [""] + Pieces(rest, [c]);
    }
  }

  /** Empty pieces only come from a text made only of the delimiter. */
  lemma {:induction false} DelimitersOfEmptyPieces(s: string, c: char)
    requires forall i :: 0 <= i < |Pieces(s, [c])| ==> Pieces(s, [c])[i] == ""
    ensures forall i :: 0 <= i < |s| ==> s[i] == c
    decreases |s|
  {
    var p := Pieces(s, [c]);
    var k := IndexOf(s, [c]);
    if k == -1 {
      assert p[0] == s;
    } else {
      PiecesStep(s, [c]);
      var rest := s[k + 1..];
      var q := Pieces(rest, [c]);
      assert p == [s[..k]] + q;
      assert p[0] == "";
      assert k == 0;
      forall i | 0 <= i < |q| ensures q[i] == "" {
        assert q[i] == p[i + 1];
      }
      DelimitersOfEmptyPieces(rest, c);
      FirstDelimiter(s, c, rest);
    }
  }

  /** A text that starts with the delimiter, followed by delimiters only. */
  lemma FirstDelimiter(s: string, c: char, rest: string)
    requires IndexOf(s, [c]) == 0 && rest == s[1..]
    requires forall i :: 0 <= i < |rest| ==> rest[i] == c
    ensures forall i :: 0 <= i < |s| ==> s[i] == c
  {
    assert MatchAt(s, [c], 0);
    MatchAtChar(s, c, 0);
    forall i | 0 < i < |s| ensures s[i] == c {
      assert s[i] == rest[i - 1];
    }
  }

  /** The split is empty exactly when the input is non-empty and made only of
      the delimiter. */
  lemma SplitEmpty(s: string, c: char)
    ensures SplitText(s, [c]) == [] <==> s != [] && forall i :: 0 <= i < |s| ==> s[i] == c
  {
    PiecesAllEmpty(s, c);
    var p := Pieces(s, [c]);
    if IndexOf(s, [c]) == -1 {
      assert p == [s];
    } else {
      var r := StripTrailingEmpty(p);
      assert s != [];
      if r != [] {
        assert r[|r| - 1] == p[|r| - 1];
      }
    }
  }

  /** Joining with one more element at the front. */
  lemma JoinCons(a: string, p: seq<string>, d: string)
    requires p != []
    ensures Join([a] + p, d) == a + d + Join(p, d)
  {
    assert ([a] + p)[1..] == p;
  }

  /** A string is its part before `k`, the `n` characters from `k`, and the rest. */
  lemma Around(s: string, k: nat, n: nat)
    requires k + n <= |s|
    ensures s == s[..k] + s[k..k + n] + s[k + n..]
  {
  }

  /** No piece contains the delimiter. */
  lemma {:induction false} PiecesFree(s: string, d: string)
    requires d != []
    ensures forall i, j :: 0 <= i < |Pieces(s, d)| ==> !MatchAt(Pieces(s, d)[i], d, j)
    decreases |s|
  {
    var k := IndexOf(s, d);
    if k != -1 {
      var rest := s[k + |d|..];
      var p, q := Pieces(s, d), Pieces(rest, d);
      assert p == [s[..k]] + q;
      PiecesFree(rest, d);
      forall i, j | 0 <= i < |p| ensures !MatchAt(p[i], d, j) {
        if i == 0 {
          if MatchAt(s[..k], d, j) {
            MatchInPrefix(s, d, k, j);
          }
        } else {
          assert p[i] == q[i - 1];
        }
      }
    }
  }

  /** The last piece is empty only if the input is empty or ends with the delimiter. */
  lemma {:induction false} LastPieceEmpty(s: string, d: string)
    requires d != []
    requires Pieces(s, d)[|Pieces(s, d)| - 1] == ""
    ensures s == "" || EndsWith(s, d)
    decreases |s|
  {
    var found, head, rest := FirstPiece(s, d);
    if found {
      LastOfCons(Pieces(s, d), head, Pieces(rest, d), "");
      LastPieceEmpty(rest, d);
      EndsAfterMatch(head, d, rest);
    }
  }

  /** The first split step, told without the search: either there is no
      delimiter and the text is its only piece, or the text is a first piece,
      the delimiter and a shorter rest, whose pieces follow. */
  lemma FirstPiece(s: string, d: string) returns (found: bool, head: string, rest: string)
    requires d != []
    ensures !found ==> Pieces(s, d) == [s]
    ensures found ==> s == head + d + rest && |rest| < |s| && Pieces(s, d) == [head] + Pieces(rest, d)
  {
    found := IndexOf(s, d) != -1;
    if found {
      PiecesStep(s, d);
      var k := IndexOf(s, d);
      head, rest := s[..k], s[k + |d|..];
    } else {
      head, rest := s, "";
    }
  }

  /** Putting an element in front of a non-empty sequence keeps its last element. */
  lemma LastOfCons<T>(q: seq<T>, x: T, p: seq<T>, last: T)
    requires p != [] && q == [x] + p && q[|q| - 1] == last
    ensures p[|p| - 1] == last
  {
  }

  /** A delimiter followed by nothing, or by a text that ends with the
      delimiter, leaves the whole text ending with the delimiter. */
  lemma EndsAfterMatch(a: string, d: string, rest: string)
    requires rest == "" || EndsWith(rest, d)
    ensures EndsWith(a + d + rest, d)
  {
    var t := a + d + rest;
    if rest == "" {
      assert t == a + d;
      assert t[|t| - |d|..] == d;
    } else {
      assert t[|t| - |d|..] == rest[|rest| - |d|..];
    }
  }

  /** When the input has a match and does not end with the delimiter, the last piece is not empty. */
  lemma LastPieceKept(s: string, d: string)
    requires d != [] && IndexOf(s, d) != -1 && !EndsWith(s, d)
    ensures Pieces(s, d)[|Pieces(s, d)| - 1] != ""
  {
    assert s != "";
    if Pieces(s, d)[|Pieces(s, d)| - 1] == "" {
      LastPieceEmpty(s, d);
      assert false;
    }
  }

  /** Nothing is stripped from a list whose last element is not empty. */
  lemma StripNothing(xs: seq<string>)
    requires xs != [] && xs[|xs| - 1] != ""
    ensures StripTrailingEmpty(xs) == xs
  {
    var r := StripTrailingEmpty(xs);
    assert |r| == |xs|;
  }

  /** Only trailing empty tokens are dropped: the tokens are a prefix of the
      pieces, every dropped piece is empty and the last token is not. */
  lemma SplitDropsOnlyTrailingEmpty(s: string, d: string)
    requires d != [] && IndexOf(s, d) != -1
    ensures var r, p := SplitText(s, d), Pieces(s, d);
      && r == p[..|r|]
      && (forall i :: |r| <= i < |p| ==> p[i] == "")
      && (r != [] ==> r[|r| - 1] != "")
  {
  }

  /** For input that does not end with the delimiter, joining the tokens with
      the delimiter reproduces the input. */
  lemma SplitRoundTrip(s: string, d: string)
    requires d != [] && !EndsWith(s, d)
    ensures Join(SplitText(s, d), d) == s
  {
    if IndexOf(s, d) != -1 {
      var p := Pieces(s, d);
      LastPieceKept(s, d);
      StripNothing(p);
      assert SplitText(s, d) == p;
      JoinPieces(s, d);
    } else {
      assert SplitText(s, d) == [s];
    }
  }

  /** Splitting what was joined with a one-character delimiter that no part
      contains gives the parts back as pieces. */
  lemma {:induction false} PiecesOfJoin(xs: seq<string>, c: char)
    requires |xs| >= 1
    requires forall i :: 0 <= i < |xs| ==> c !in xs[i]
    ensures Pieces(Join(xs, [c]), [c]) == xs
  {
    var s := Join(xs, [c]);
    if |xs| == 1 {
      CharAbsent(s, c);
    } else {
      var head, tail := xs[0], xs[1..];
      var rest := Join(tail, [c]);
      assert s == head + [c] + rest;
      assert s[..|head|] == head;
      FirstChar(s, c, |head|);
      assert s[|head| + 1..] == rest;
      assert Pieces(s, [c]) == [head] + Pieces(rest, [c]);
      assert forall i :: 0 <= i < |tail| ==> c !in tail[i] by {
        forall i | 0 <= i < |tail| ensures c !in tail[i] {
          assert tail[i] == xs[i + 1];
        }
      }
      PiecesOfJoin(tail, c);
      assert xs == [head] + tail;
    }
  }

  /** ... and as tokens, when the last part is not empty (or is the only one). */
  lemma SplitOfJoin(xs: seq<string>, c: char)
    requires |xs| >= 1
    requires forall i :: 0 <= i < |xs| ==> c !in xs[i]
    requires |xs| == 1 || xs[|xs| - 1] != ""
    ensures SplitText(Join(xs, [c]), [c]) == xs
  {
    PiecesOfJoin(xs, c);
    if |xs| == 1 {
      CharAbsent(xs[0], c);
    } else {
      assert StripTrailingEmpty(xs) == xs;
    }
  }

  /** Text before the first delimiter is the first token and the text after
      it, unless it ends with the delimiter, is what the remaining tokens join to. */
  lemma SplitAtFirst(n: string, c: char, rest: string)
    requires c !in n
    requires n != "" || rest != ""
    requires !EndsWith(rest, [c])
    ensures var r := SplitText(n + [c] + rest, [c]);
      && |r| >= 1 && r[0] == n
      && Join(r[1..], [c]) == rest
      && (rest != "" ==> |r| >= 2)
  {
    var s := n + [c] + rest;
    assert s[..|n|] == n;
    assert s[|n| + 1..] == rest;
    FirstChar(s, c, |n|);
    var p := Pieces(rest, [c]);
    assert Pieces(s, [c]) == [n] + p;
    if rest == "" {
      CharAbsent(rest, c);
      assert p == [""];
      assert StripTrailingEmpty([n] + p) == [n];
    } else {
      if p[|p| - 1] == "" {
        LastPieceEmpty(rest, [c]);
      }
      assert StripTrailingEmpty([n] + p) == [n] + p;
      JoinPieces(rest, [c]);
      assert ([n] + p)[1..] == p;
    }
  }

  /** The delimiter alone splits into no tokens at all. */
  lemma LoneDelimiter(c: char)
    ensures SplitText([c], [c]) == []
  {
    PiecesOfJoin(["", ""], c);
    assert Join(["", ""], [c]) == [c];
    assert StripTrailingEmpty(["", ""]) == [];
  }

  /** A trailing delimiter leaves no empty token behind. */
  lemma TrailingDelimiterExample()
    ensures SplitText("a:", ":") == ["a"]
  {
    PiecesOfJoin(["a", ""], ':');
    assert Join(["a", ""], ":") == "a:";
    assert StripTrailingEmpty(["a", ""]) == ["a"];
  }

  /** A leading delimiter keeps the empty token before it. */
  lemma LeadingDelimiterExample()
    ensures SplitText(":a", ":") == ["", "a"]
  {
    SplitOfJoin(["", "a"], ':');
    assert Join(["", "a"], ":") == ":a";
  }

  /** An empty token between two delimiters is kept. */
  lemma InteriorEmptyExample()
    ensures SplitText("a::b", ":") == ["a", "", "b"]
  {
    SplitOfJoin(["a", "", "b"], ':');
    assert Join(["a", "", "b"], ":") == "a::b";
  }

  /** The empty input has no match and comes back whole. */
  lemma EmptyInputExample()
    ensures SplitText("", ":") == [""]
  {
    CharAbsent("", ':');
  }

  /** The cases Java programmers know `split` by. */
  lemma SplitExamples()
    ensures SplitText("a:", ":") == ["a"]
    ensures SplitText(":", ":") == []
    ensures SplitText(":a", ":") == ["", "a"]
    ensures SplitText("", ":") == [""]
    ensures SplitText("a::b", ":") == ["a", "", "b"]
  {
    TrailingDelimiterExample();
    LoneDelimiter(':');
    LeadingDelimiterExample();
    EmptyInputExample();
    InteriorEmptyExample();
  }
}
