/** File name patterns: the matcher that fills two bitmaps from the ends of the strings, against the textbook glob. */
module Glob {
  import opened Machine
  import opened BitmapModule

  function Upper(c: char): char {
    if 'a' <= c <= 'z' then c - 32 as char else c
  }

  predicate Same(c: char, d: char, ignoreCase: bool) {
    c == d || (ignoreCase && Upper(c) == Upper(d))
  }

  /** A small letter and its capital, by their numbers. */
  predicate OneLetter(c: char, d: char) {
    'a' <= c <= 'z' && d as int == c as int - 32
  }

  predicate LetterAlike(c: char, d: char) {
    c == d || OneLetter(c, d) || OneLetter(d, c)
  }

  lemma SameExactly(c: char, d: char)
    ensures Same(c, d, false) <==> c == d
    ensures Same(c, d, true) <==> LetterAlike(c, d)
  {
  }

  // ---- two matchers ----

  /** The textbook glob: a star stands for any characters, none among them. */
  predicate TextbookGlob(s: string, p: string, ignoreCase: bool)
    decreases |p| + |s|
  {
    if p == [] then s == []
    else if p[0] == '*' then TextbookGlob(s, p[1..], ignoreCase) || (s != [] && TextbookGlob(s[1..], p, ignoreCase))
    else s != [] && (p[0] == '?' || Same(s[0], p[0], ignoreCase)) && TextbookGlob(s[1..], p[1..], ignoreCase)
  }

  /** What the kernel computes: the empty string matches only the empty pattern. */
  predicate Match(s: string, p: string, ignoreCase: bool)
    decreases |p|, |s|, 0
  {
    if p == [] || s == [] then s == p
    else if p[0] == '*' then MatchSome(s, p[1..], ignoreCase)
    else (p[0] == '?' || Same(s[0], p[0], ignoreCase)) && Match(s[1..], p[1..], ignoreCase)
  }

  /** Some end of the string matches. */
  predicate MatchSome(s: string, p: string, ignoreCase: bool)
    decreases |p|, |s|, 1
  {
    Match(s, p, ignoreCase) || (s != [] && MatchSome(s[1..], p, ignoreCase))
  }

  /** A star at the end must stand for at least one character. */
  function Expanded(p: string): string {
    if p != [] && p[|p| - 1] == '*' then p[..|p| - 1] + "?*" else p
  }

  lemma ExpandedTail(p: string)
    requires |p| > 1
    ensures Expanded(p) == [p[0]] + Expanded(p[1..])
  {
  }

  lemma {:induction false} StarMatchesAll(s: string, ignoreCase: bool)
    ensures TextbookGlob(s, "*", ignoreCase)
  {
    if s != [] {
      StarMatchesAll(s[1..], ignoreCase);
    }
  }

  lemma {:induction false} MatchSomeNothing(s: string, ignoreCase: bool)
    ensures MatchSome(s, [], ignoreCase)
  {
    if s != [] {
      MatchSomeNothing(s[1..], ignoreCase);
    }
  }

  /** The kernel's matcher is the textbook glob with a star at the end read as "?*". */
  lemma {:induction false} MatchIsGlob(s: string, p: string, ignoreCase: bool)
    ensures Match(s, p, ignoreCase) == TextbookGlob(s, Expanded(p), ignoreCase)
    decreases |p|, |s|, 0
  {
    if |p| == 1 && p[0] == '*' {
      assert Expanded(p) == "?*" && "?*"[1..] == "*";
      if s != [] {
        StarMatchesAll(s[1..], ignoreCase);
        MatchSomeNothing(s, ignoreCase);
      }
    } else if p != [] {
      if |p| > 1 {
        ExpandedTail(p);
      }
      assert Expanded(p)[0] == p[0] && Expanded(p)[1..] == Expanded(p[1..]);
      if s == [] {
        MatchIsGlob(s, p[1..], ignoreCase);
      } else if p[0] == '*' {
        MatchSomeIsGlob(s, p[1..], ignoreCase);
        assert ['*'] + Expanded(p[1..]) == Expanded(p);
      } else {
        MatchIsGlob(s[1..], p[1..], ignoreCase);
      }
    }
  }

  lemma {:induction false} MatchSomeIsGlob(s: string, p: string, ignoreCase: bool)
    requires p != []
    ensures MatchSome(s, p, ignoreCase) == TextbookGlob(s, ['*'] + Expanded(p), ignoreCase)
    decreases |p|, |s|, 1
  {
    assert (['*'] + Expanded(p))[1..] == Expanded(p);
    MatchIsGlob(s, p, ignoreCase);
    if s != [] {
      MatchSomeIsGlob(s[1..], p, ignoreCase);
    }
  }

  // ---- what the textbook glob means ----

  /** What a character of the pattern may stand for. */
  predicate Stands(piece: string, c: char, ignoreCase: bool) {
    c == '*' || (|piece| == 1 && (c == '?' || if ignoreCase then LetterAlike(piece[0], c) else piece[0] == c))
  }

  function Together(w: seq<string>): string {
    if w == [] then [] else w[0] + Together(w[1..])
  }

  /** The string falls into pieces, one for each character of the pattern. */
  ghost predicate Pieces(w: seq<string>, s: string, p: string, ignoreCase: bool) {
    |w| == |p| && Together(w) == s && forall i :: 0 <= i < |p| ==> Stands(w[i], p[i], ignoreCase)
  }

  lemma {:induction false} GlobPieces(s: string, p: string, ignoreCase: bool) returns (w: seq<string>)
    requires TextbookGlob(s, p, ignoreCase)
    ensures Pieces(w, s, p, ignoreCase)
    decreases |p| + |s|
  {
    if p == [] {
      w := [];
    } else if p[0] == '*' && TextbookGlob(s, p[1..], ignoreCase) {
      var w' := GlobPieces(s, p[1..], ignoreCase);
      w := [[]] + w';
      assert Together(w) == [] + Together(w');
    } else if p[0] == '*' {
      var w' := GlobPieces(s[1..], p, ignoreCase);
      w := w'[0 := [s[0]] + w'[0]];
      assert Together(w) == [s[0]] + Together(w') == s;
    } else {
      SameExactly(s[0], p[0]);
      var w' := GlobPieces(s[1..], p[1..], ignoreCase);
      w := [[s[0]]] + w';
      assert Together(w) == [s[0]] + Together(w') == s;
    }
  }

  lemma {:induction false} PiecesGlob(w: seq<string>, s: string, p: string, ignoreCase: bool)
    requires Pieces(w, s, p, ignoreCase)
    ensures TextbookGlob(s, p, ignoreCase)
    decreases |p| + |s|
  {
    if p != [] {
      if p[0] == '*' && w[0] != [] {
        var w' := w[0 := w[0][1..]];
        assert w'[1..] == w[1..];
        assert Together(w') == s[1..];
        PiecesGlob(w', s[1..], p, ignoreCase);
      } else {
        assert s == w[0] + Together(w[1..]);
        if p[0] != '*' {
          SameExactly(s[0], p[0]);
          assert s[1..] == Together(w[1..]);
          PiecesGlob(w[1..], s[1..], p[1..], ignoreCase);
        } else {
          assert s == Together(w[1..]);
          PiecesGlob(w[1..], s, p[1..], ignoreCase);
        }
      }
    }
  }

  /** A string matches exactly if it falls into pieces that the characters of the pattern stand for, one after the
      other. */
  lemma GlobMeans(s: string, p: string, ignoreCase: bool)
    ensures TextbookGlob(s, p, ignoreCase) <==> exists w :: Pieces(w, s, p, ignoreCase)
  {
    if TextbookGlob(s, p, ignoreCase) {
      var w := GlobPieces(s, p, ignoreCase);
    }
    if w :| Pieces(w, s, p, ignoreCase) {
      PiecesGlob(w, s, p, ignoreCase);
    }
  }

  /** Strings that differ in the case of letters alone. */
  predicate CaseAlike(s: string, t: string) {
    |s| == |t| && forall i :: 0 <= i < |s| ==> LetterAlike(s[i], t[i])
  }

  lemma {:induction false} GlobFolds(s: string, p: string) returns (t: string)
    requires TextbookGlob(s, p, true)
    ensures CaseAlike(s, t) && TextbookGlob(t, p, false)
    decreases |p| + |s|
  {
    if p == [] {
      t := [];
    } else if p[0] == '*' && TextbookGlob(s, p[1..], true) {
      t := GlobFolds(s, p[1..]);
    } else {
      var c := if p[0] == '*' || p[0] == '?' then s[0] else p[0];
      SameExactly(s[0], p[0]);
      var t' := GlobFolds(s[1..], if p[0] == '*' then p else p[1..]);
      t := [c] + t';
      assert t[1..] == t';
    }
  }

  lemma {:induction false} GlobUnfolds(s: string, t: string, p: string)
    requires CaseAlike(s, t) && TextbookGlob(t, p, false)
    ensures TextbookGlob(s, p, true)
    decreases |p| + |s|
  {
    if p != [] {
      if p[0] == '*' && TextbookGlob(t, p[1..], false) {
        GlobUnfolds(s, t, p[1..]);
      } else {
        SameExactly(s[0], p[0]);
        GlobUnfolds(s[1..], t[1..], if p[0] == '*' then p else p[1..]);
      }
    }
  }

  /** Without regard to case, the kernel's matcher accepts exactly the names that differ from an accepted one in the
      case of letters alone. */
  lemma IgnoresCaseExactly(s: string, p: string)
    ensures Match(s, p, true) <==> exists t :: CaseAlike(s, t) && Match(t, p, false)
  {
    hide Match, CaseAlike, TextbookGlob;
    MatchIsGlob(s, p, true);
    if Match(s, p, true) {
      var t := GlobFolds(s, Expanded(p));
      MatchIsGlob(t, p, false);
    }
    if t :| CaseAlike(s, t) && Match(t, p, false) {
      MatchIsGlob(t, p, false);
      GlobUnfolds(s, t, Expanded(p));
    }
  }

  // ---- how the two differ ----

  function Characters(p: string): string {
    if p == [] then [] else if p[0] == '*' then Characters(p[1..]) else [p[0]] + Characters(p[1..])
  }

  lemma {:induction false} GlobNeeds(s: string, p: string, ignoreCase: bool)
    requires TextbookGlob(s, p, ignoreCase)
    ensures |s| >= |Characters(p)|
    decreases |p| + |s|
  {
    if p != [] {
      if p[0] != '*' {
        GlobNeeds(s[1..], p[1..], ignoreCase);
      } else if TextbookGlob(s, p[1..], ignoreCase) {
        GlobNeeds(s, p[1..], ignoreCase);
      } else {
        GlobNeeds(s[1..], p, ignoreCase);
      }
    }
  }

  /** With its stars left out, a pattern is a name it matches. */
  lemma {:induction false} CharactersMatch(p: string, ignoreCase: bool)
    ensures TextbookGlob(Characters(p), p, ignoreCase)
  {
    if p != [] {
      CharactersMatch(p[1..], ignoreCase);
      assert p[0] != '*' ==> Characters(p)[1..] == Characters(p[1..]);
    }
  }

  lemma {:induction false} CharactersSum(p: string, q: string)
    ensures Characters(p + q) == Characters(p) + Characters(q)
  {
    if p == [] {
      assert p + q == q;
    } else {
      assert (p + q)[1..] == p[1..] + q;
      CharactersSum(p[1..], q);
    }
  }

  /** A pattern that ends in a star, and a name that only the textbook glob accepts: the pattern's own characters. */
  lemma DiffersOnCharacters(p: string, ignoreCase: bool)
    requires p != [] && p[|p| - 1] == '*'
    ensures TextbookGlob(Characters(p), p, ignoreCase) && !Match(Characters(p), p, ignoreCase)
  {
    var s, q := Characters(p), p[..|p| - 1];
    CharactersMatch(p, ignoreCase);
    MatchIsGlob(s, p, ignoreCase);
    assert p == q + "*";
    CharactersSum(q, "*");
    CharactersSum(q, "?*");
    assert "?*"[1..] == "*" && "*"[1..] == [];
    assert Characters("*") == Characters([]) == [];
    assert Characters("?*") == ['?'] + Characters("*");
    assert |Characters(Expanded(p))| == |s| + 1;
    if Match(s, p, ignoreCase) {
      GlobNeeds(s, Expanded(p), ignoreCase);
    }
  }

  /** Both say the same about every name exactly when the pattern does not end in a star. */
  lemma AgreesExactly(p: string, ignoreCase: bool)
    ensures (forall s :: Match(s, p, ignoreCase) == TextbookGlob(s, p, ignoreCase)) <==> !(p != [] && p[|p| - 1] == '*')
  {
    hide Match, TextbookGlob;
    if p != [] && p[|p| - 1] == '*' {
      DiffersOnCharacters(p, ignoreCase);
    } else {
      forall s ensures Match(s, p, ignoreCase) == TextbookGlob(s, p, ignoreCase) {
        MatchIsGlob(s, p, ignoreCase);
      }
    }
  }

  lemma {:induction false} GlobWidens(s: string, p: string, ignoreCase: bool)
    requires TextbookGlob(s, p + "?*", ignoreCase)
    ensures TextbookGlob(s, p + "*", ignoreCase)
    decreases |p| + |s|
  {
    if p == [] {
      StarMatchesAll(s, ignoreCase);
      assert p + "*" == "*";
    } else {
      assert (p + "?*")[1..] == p[1..] + "?*" && (p + "*")[1..] == p[1..] + "*";
      if p[0] == '*' {
        if TextbookGlob(s, p[1..] + "?*", ignoreCase) {
          GlobWidens(s, p[1..], ignoreCase);
        } else {
          GlobWidens(s[1..], p, ignoreCase);
        }
      } else {
        GlobWidens(s[1..], p[1..], ignoreCase);
      }
    }
  }

  /** What the kernel accepts, the textbook glob accepts. */
  lemma NeverTooMuch(s: string, p: string, ignoreCase: bool)
    requires Match(s, p, ignoreCase)
    ensures TextbookGlob(s, p, ignoreCase)
  {
    MatchIsGlob(s, p, ignoreCase);
    if p != [] && p[|p| - 1] == '*' {
      GlobWidens(s, p[..|p| - 1], ignoreCase);
      assert p == p[..|p| - 1] + "*";
    }
  }

  // ---- the two bitmaps ----

  /** Bit of row a and column b in rows of m + 1 columns. */
  function Cell(m: nat, a: nat, b: nat): nat {
    (m + 1) * a + b
  }

  predicate Dot(words: seq<uint32>, m: nat, a: nat, b: nat) {
    Cell(m, a, b) < BLC * |words| && BitAt(words, Cell(m, a, b))
  }

  lemma CellUnique(m: nat, a: nat, b: nat, a': nat, b': nat)
    requires b <= m && b' <= m && Cell(m, a, b) == Cell(m, a', b')
    ensures a == a' && b == b'
  {
    assert (m + 1) * (a - a') == b' - b;
    MultipleBounds(a - a', m + 1);
  }

  lemma CellInside(m: nat, n: nat, a: nat, b: nat)
    requires a <= n && b <= m
    ensures Cell(m, a, b) < (m + 1) * (n + 1)
  {
    MultipleBounds(n - a, m + 1);
    assert (m + 1) * (n + 1) == (m + 1) * a + (m + 1) * (n - a) + (m + 1);
  }

  /** Cells are visited from the last row up, and from the last column to the first in a row. */
  predicate Later(a: int, b: int, i: int, j: int) {
    a > i || (a == i && b > j)
  }

  ghost predicate Matches(s: string, p: string, ignoreCase: bool, a: nat, b: nat)
    requires a <= |s| && b <= |p|
  {
    Match(s[a..], p[b..], ignoreCase)
  }

  ghost predicate MatchesSome(s: string, p: string, ignoreCase: bool, a: nat, b: nat)
    requires a <= |s| && b <= |p|
  {
    MatchSome(s[a..], p[b..], ignoreCase)
  }

  /** dp holds for every cell after (i, j) whether the rest of the string matches the rest of the pattern. */
  ghost predicate Filled(dp: seq<uint32>, s: string, p: string, ignoreCase: bool, i: int, j: int) {
    && (|p| + 1) * (|s| + 1) <= BLC * |dp|
    && forall a: nat, b: nat :: a <= |s| && b <= |p| ==>
      Dot(dp, |p|, a, b) == (Later(a, b, i, j) && Matches(s, p, ignoreCase, a, b))
  }

  /** maxes holds for every cell after (i, j + 1), the first column apart, whether some rest of the string matches. */
  ghost predicate FilledSome(maxes: seq<uint32>, s: string, p: string, ignoreCase: bool, i: int, j: int) {
    && (|p| + 1) * (|s| + 1) <= BLC * |maxes|
    && forall a: nat, b: nat :: a <= |s| && 0 < b <= |p| ==>
      Dot(maxes, |p|, a, b) == (Later(a, b, i, j + 1) && MatchesSome(s, p, ignoreCase, a, b))
  }

  /** The bits of a clear bitmap where only the last cell has been set. */
  ghost predicate OnlyLast(words: seq<uint32>, n: nat, m: nat) {
    && (m + 1) * (n + 1) <= BLC * |words|
    && forall k: nat :: k < (m + 1) * (n + 1) ==> BitAt(words, k) == (k == Cell(m, n, m))
  }

  lemma StartFilled(words: seq<uint32>, s: string, p: string, ignoreCase: bool)
    requires OnlyLast(words, |s|, |p|)
    ensures Filled(words, s, p, ignoreCase, |s| - 1, |p|)
    ensures FilledSome(words, s, p, ignoreCase, |s| - 1, |p|)
  {
    hide BitAt, Cell;
    forall a: nat, b: nat | a <= |s| && b <= |p|
      ensures Dot(words, |p|, a, b) == (a == |s| && b == |p|)
      ensures a == |s| ==> Matches(s, p, ignoreCase, a, b) == MatchesSome(s, p, ignoreCase, a, b) == (b == |p|)
    {
      CellInside(|p|, |s|, a, b);
      if Cell(|p|, a, b) == Cell(|p|, |s|, |p|) {
        CellUnique(|p|, a, b, |s|, |p|);
      }
      assert a == |s| ==> s[a..] == [];
    }
  }

  /** The next row starts where the last one ended. */
  lemma NextRow(dp: seq<uint32>, maxes: seq<uint32>, s: string, p: string, ignoreCase: bool, i: nat)
    requires i < |s| && Filled(dp, s, p, ignoreCase, i, |p|) && FilledSome(maxes, s, p, ignoreCase, i, |p|)
    ensures Filled(dp, s, p, ignoreCase, i, |p| - 1) && FilledSome(maxes, s, p, ignoreCase, i, |p| - 1)
  {
    hide Dot;
    assert !Matches(s, p, ignoreCase, i, |p|);
  }

  lemma RowDone(dp: seq<uint32>, maxes: seq<uint32>, s: string, p: string, ignoreCase: bool, i: nat)
    requires i < |s| && Filled(dp, s, p, ignoreCase, i, -1) && FilledSome(maxes, s, p, ignoreCase, i, -1)
    ensures Filled(dp, s, p, ignoreCase, i - 1, |p|) && FilledSome(maxes, s, p, ignoreCase, i - 1, |p|)
  {
    hide Dot;
  }

  /** What a cell is worth, from the cells after it. */
  lemma CellValues(s: string, p: string, ignoreCase: bool, i: nat, j: nat)
    requires i < |s| && j < |p|
    ensures Matches(s, p, ignoreCase, i, j) ==
      if p[j] == '*' then Matches(s, p, ignoreCase, i, j + 1) || MatchesSome(s, p, ignoreCase, i + 1, j + 1)
      else (p[j] == '?' || Same(s[i], p[j], ignoreCase)) && Matches(s, p, ignoreCase, i + 1, j + 1)
    ensures MatchesSome(s, p, ignoreCase, i, j + 1) ==
      (Matches(s, p, ignoreCase, i, j + 1) || MatchesSome(s, p, ignoreCase, i + 1, j + 1))
  {
    assert s[i..][1..] == s[i + 1..] && p[j..][1..] == p[j + 1..];
    assert MatchSome(s[i..], p[j + 1..], ignoreCase) ==
      (Match(s[i..], p[j + 1..], ignoreCase) || MatchSome(s[i + 1..], p[j + 1..], ignoreCase));
  }

  lemma CellFilled(dp: seq<uint32>, dp': seq<uint32>, s: string, p: string, ignoreCase: bool, i: nat, j: nat)
    requires i < |s| && j < |p| && Filled(dp, s, p, ignoreCase, i, j)
    requires
      if Matches(s, p, ignoreCase, i, j) then IntervalSet(dp, dp', Cell(|p|, i, j), Cell(|p|, i, j) + 1) else dp' == dp
    ensures Filled(dp', s, p, ignoreCase, i, j - 1)
  {
    hide BitAt, Cell;
    forall a: nat, b: nat | a <= |s| && b <= |p|
      ensures Dot(dp', |p|, a, b) == (Later(a, b, i, j - 1) && Matches(s, p, ignoreCase, a, b))
    {
      CellInside(|p|, |s|, a, b);
      assert Dot(dp, |p|, a, b) == (Later(a, b, i, j) && Matches(s, p, ignoreCase, a, b));
      if Cell(|p|, a, b) == Cell(|p|, i, j) {
        CellUnique(|p|, a, b, i, j);
      }
    }
  }

  lemma CellFilledSome(maxes: seq<uint32>, maxes': seq<uint32>, s: string, p: string, ignoreCase: bool, i: nat, j: nat)
    requires i < |s| && j < |p| && FilledSome(maxes, s, p, ignoreCase, i, j)
    requires
      if MatchesSome(s, p, ignoreCase, i, j + 1) then
        IntervalSet(maxes, maxes', Cell(|p|, i, j + 1), Cell(|p|, i, j + 1) + 1)
      else maxes' == maxes
    ensures FilledSome(maxes', s, p, ignoreCase, i, j - 1)
  {
    hide BitAt, Cell;
    forall a: nat, b: nat | a <= |s| && 0 < b <= |p|
      ensures Dot(maxes', |p|, a, b) == (Later(a, b, i, j) && MatchesSome(s, p, ignoreCase, a, b))
    {
      CellInside(|p|, |s|, a, b);
      assert Dot(maxes, |p|, a, b) == (Later(a, b, i, j + 1) && MatchesSome(s, p, ignoreCase, a, b));
      if Cell(|p|, a, b) == Cell(|p|, i, j + 1) {
        CellUnique(|p|, a, b, i, j + 1);
      }
    }
  }

  /** The bits a cell is computed from. */
  lemma CellRead(dp: seq<uint32>, maxes: seq<uint32>, s: string, p: string, ignoreCase: bool, i: nat, j: nat)
    requires i < |s| && j < |p| && Filled(dp, s, p, ignoreCase, i, j) && FilledSome(maxes, s, p, ignoreCase, i, j)
    ensures Dot(dp, |p|, i, j + 1) == Matches(s, p, ignoreCase, i, j + 1)
    ensures Dot(dp, |p|, i + 1, j + 1) == Matches(s, p, ignoreCase, i + 1, j + 1)
    ensures Dot(maxes, |p|, i + 1, j + 1) == MatchesSome(s, p, ignoreCase, i + 1, j + 1)
  {
    hide Dot;
  }

  lemma CellStays(dp: seq<uint32>, s: string, p: string, ignoreCase: bool, i: nat, j: nat)
    requires i < |s| && j < |p| && Filled(dp, s, p, ignoreCase, i, j - 1)
    ensures Dot(dp, |p|, i, j + 1) == Matches(s, p, ignoreCase, i, j + 1)
  {
    hide Dot;
  }

  lemma FirstCell(dp: seq<uint32>, s: string, p: string, ignoreCase: bool)
    requires Filled(dp, s, p, ignoreCase, -1, |p|)
    ensures Dot(dp, |p|, 0, 0) == Match(s, p, ignoreCase) && Cell(|p|, 0, 0) == 0
  {
    hide Dot;
    assert s[0..] == s && p[0..] == p;
  }

  ghost predicate Tables(dp: Bitmap, maxes: Bitmap, s: string, p: string)
    reads dp, maxes
  {
    && dp.Valid() && maxes.Valid() && dp.buff != maxes.buff
    && dp.bitsCount == maxes.bitsCount == (|p| + 1) * (|s| + 1)
  }

  /** bitmap_init and the first set bit. */
  method StartTable(s: string, p: string) returns (b: Bitmap)
    requires (|p| + 1) * (|s| + 1) + BLC <= TWO_32
    ensures b.Valid() && b.bitsCount == (|p| + 1) * (|s| + 1) && fresh(b) && fresh(b.buff)
    ensures OnlyLast(b.buff[..], |s|, |p|)
  {
    hide BitAt;
    b := new Bitmap((|p| + 1) * (|s| + 1));
    CellInside(|p|, |s|, |s|, |p|);
    b.SetBit(Cell(|p|, |s|, |p|));
  }

  /** The body of the inner loop. */
  method FillCell(dp: Bitmap, maxes: Bitmap, s: string, p: string, ignoreCase: bool, i: nat, j: nat)
    requires Tables(dp, maxes, s, p) && i < |s| && j < |p|
    requires Filled(dp.buff[..], s, p, ignoreCase, i, j) && FilledSome(maxes.buff[..], s, p, ignoreCase, i, j)
    modifies dp.buff, maxes.buff
    ensures Filled(dp.buff[..], s, p, ignoreCase, i, j - 1) && FilledSome(maxes.buff[..], s, p, ignoreCase, i, j - 1)
  {
    hide BitAt, IntervalSet, Filled, FilledSome, Matches, MatchesSome, Cell;
    var m := |p|;
    CellInside(|p|, |s|, i, j);
    CellInside(|p|, |s|, i, j + 1);
    CellInside(|p|, |s|, i + 1, j + 1);
    CellRead(dp.buff[..], maxes.buff[..], s, p, ignoreCase, i, j);
    CellValues(s, p, ignoreCase, i, j);
    ghost var dp0, maxes0 := dp.buff[..], maxes.buff[..];
    match p[j] {
      case '?' =>
        if dp.TestBit(Cell(m, i + 1, j + 1)) {
          dp.SetBit(Cell(m, i, j));
        }
      case '*' =>
        if dp.TestBit(Cell(m, i, j + 1)) || maxes.TestBit(Cell(m, i + 1, j + 1)) {
          dp.SetBit(Cell(m, i, j));
        }
      case _ =>
        if (s[i] == p[j] || (ignoreCase && Upper(s[i]) == Upper(p[j]))) && dp.TestBit(Cell(m, i + 1, j + 1)) {
          dp.SetBit(Cell(m, i, j));
        }
    }
    CellFilled(dp0, dp.buff[..], s, p, ignoreCase, i, j);
    CellStays(dp.buff[..], s, p, ignoreCase, i, j);
    if dp.TestBit(Cell(m, i, j + 1)) || maxes.TestBit(Cell(m, i + 1, j + 1)) {
      maxes.SetBit(Cell(m, i, j + 1));
    }
    CellFilledSome(maxes0, maxes.buff[..], s, p, ignoreCase, i, j);
  }

  /** is_matching_pattern. */
  method IsMatchingPattern(s: string, p: string, ignoreCase: bool) returns (result: bool)
    requires (|p| + 1) * (|s| + 1) + BLC <= TWO_32
    ensures result == Match(s, p, ignoreCase)
  {
    hide Filled, FilledSome;
    var dp := StartTable(s, p);
    var maxes := StartTable(s, p);
    StartFilled(dp.buff[..], s, p, ignoreCase);
    StartFilled(maxes.buff[..], s, p, ignoreCase);
    var i := |s| - 1;
    while i != -1
      invariant -1 <= i < |s| && Tables(dp, maxes, s, p)
      invariant Filled(dp.buff[..], s, p, ignoreCase, i, |p|) && FilledSome(maxes.buff[..], s, p, ignoreCase, i, |p|)
      decreases i
    {
      NextRow(dp.buff[..], maxes.buff[..], s, p, ignoreCase, i);
      var j := |p| - 1;
      while j != -1
        invariant -1 <= j < |p| && Tables(dp, maxes, s, p)
        invariant Filled(dp.buff[..], s, p, ignoreCase, i, j) && FilledSome(maxes.buff[..], s, p, ignoreCase, i, j)
        decreases j
      {
        FillCell(dp, maxes, s, p, ignoreCase, i, j);
        j := j - 1;
      }
      RowDone(dp.buff[..], maxes.buff[..], s, p, ignoreCase, i);
      i := i - 1;
    }
    FirstCell(dp.buff[..], s, p, ignoreCase);
    result := dp.TestBit(Cell(|p|, 0, 0));
  }
}
