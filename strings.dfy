/**
 * The Python string builtins the application relies on, as functions on
 * `seq<char>`: `isspace`, `strip`, `split()` (on whitespace), `split(sep)`,
 * `join`, `replace` and ASCII `lower`, with the lemmas that relate them.
 */
module Strings {

  /** Python's `str.isspace` on the ASCII range: \t \n \v \f \r, the
      separators \x1c-\x1f and the space itself. */
  predicate IsSpace(c: char)
  {
    '\t' <= c <= '\r' || '\U{1C}' <= c <= ' '
  }

  predicate IsBlank(s: string)
  {
    forall i :: 0 <= i < |s| ==> IsSpace(s[i])
  }

  predicate NoSpace(s: string)
  {
    forall i :: 0 <= i < |s| ==> !IsSpace(s[i])
  }

  /** `str.lower` on ASCII letters; every other character is kept. */
  function LowerChar(c: char): char
  {
    if 'A' <= c <= 'Z' then (c as int + 32) as char else c
  }

  function Lower(s: string): string
  {
    seq(|s|, i requires 0 <= i < |s| => LowerChar(s[i]))
  }

  /** `str.lstrip()`. */
  function TrimLeft(s: string): string
    decreases |s|
  {
    if s != [] && IsSpace(s[0]) then TrimLeft(s[1..]) else s
  }

  /** `str.rstrip()`. */
  function TrimRight(s: string): string
    decreases |s|
  {
    if s != [] && IsSpace(s[|s| - 1]) then TrimRight(s[..|s| - 1]) else s
  }

  /** `lstrip` drops the leading whitespace and nothing else. */
  lemma {:induction false} TrimLeftShape(s: string)
    ensures var r := TrimLeft(s);
      && |r| <= |s| && r == s[|s| - |r|..]
      && IsBlank(s[..|s| - |r|])
      && (r == [] || !IsSpace(r[0]))
    decreases |s|
  {
    if s != [] && IsSpace(s[0]) {
      TrimLeftShape(s[1..]);
      var r := TrimLeft(s);
      forall i | 0 < i < |s| - |r| ensures IsSpace(s[i]) {
        assert s[i] == s[1..][..|s| - 1 - |r|][i - 1];
      }
    }
  }

  /** `rstrip` drops the trailing whitespace and nothing else. */
  lemma {:induction false} TrimRightShape(s: string)
    ensures var r := TrimRight(s);
      && |r| <= |s| && r == s[..|r|]
      && IsBlank(s[|r|..])
      && (r == [] || !IsSpace(r[|r| - 1]))
    decreases |s|
  {
    if s != [] && IsSpace(s[|s| - 1]) {
      var front := s[..|s| - 1];
      TrimRightShape(front);
      var r := TrimRight(s);
      assert r == TrimRight(front);
      forall i | |r| <= i < |s| ensures IsSpace(s[i]) {
        if i < |s| - 1 {
          assert s[i] == front[|r|..][i - |r|];
        }
      }
    }
  }

  /** `str.strip()`. */
  function Strip(s: string): string
  {
    TrimRight(TrimLeft(s))
  }

  /** `strip()` keeps one contiguous slice of `s`, with only whitespace cut on either side. */
  lemma StripSlice(s: string)
    ensures var r := Strip(s);
      exists k :: 0 <= k <= |s| - |r| && r == s[k..k + |r|] && IsBlank(s[..k]) && IsBlank(s[k + |r|..])
  {
    var l := TrimLeft(s);
    var r := TrimRight(l);
    TrimLeftShape(s);
    TrimRightShape(l);
    var k := |s| - |l|;
    assert r == s[k..k + |r|];
    assert s[k + |r|..] == l[|r|..];
  }

  /** The ends of `strip()`'s result, when it is empty, and where its characters come from. */
  lemma StripEnds(s: string)
    ensures var r := Strip(s);
      && (r == [] || (!IsSpace(r[0]) && !IsSpace(r[|r| - 1])))
      && (r == [] <==> IsBlank(s))
      && forall c :: c in r ==> c in s
  {
    var l := TrimLeft(s);
    var r := TrimRight(l);
    TrimLeftShape(s);
    TrimRightShape(l);
    assert forall c :: c in r ==> c in l;
    if r == [] {
      assert IsBlank(l[|r|..]);
      assert s == s[..|s| - |l|] + l;
    }
  }

  /** The stripped text has no whitespace at either end, is empty exactly
      when `s` is all whitespace, holds only characters of `s`, and is the
      slice of `s` left between a blank prefix and a blank suffix. */
  lemma StripShape(s: string)
    ensures var r := Strip(s);
      && (r == [] || (!IsSpace(r[0]) && !IsSpace(r[|r| - 1])))
      && (r == [] <==> IsBlank(s))
      && forall c :: c in r ==> c in s
    ensures var r := Strip(s);
      exists k :: 0 <= k <= |s| - |r| && r == s[k..k + |r|] && IsBlank(s[..k]) && IsBlank(s[k + |r|..])
  {
    StripEnds(s);
    StripSlice(s);
  }

  /** Length of the run of non-whitespace characters that starts `s`. */
  function WordLength(s: string): (n: nat)
    ensures n <= |s|
    ensures NoSpace(s[..n])
    ensures n < |s| ==> IsSpace(s[n])
    decreases |s|
  {
    if s == [] || IsSpace(s[0]) then 0 else 1 + WordLength(s[1..])
  }

  /** `str.split()` without a separator: the maximal runs of
      non-whitespace characters, in order. */
  function Words(s: string): (ws: seq<string>)
    ensures forall i :: 0 <= i < |ws| ==> ws[i] != [] && NoSpace(ws[i])
    decreases |s|
  {
    if s == [] then []
    else if IsSpace(s[0]) then Words(s[1..])
    else
      var n := WordLength(s);
      [s[..n]] + Words(s[n..])
  }

  /** `sep.join(ws)`. */
  function Join(ws: seq<string>, sep: string): string
  {
    if |ws| == 0 then []
    else if |ws| == 1 then ws[0]
    else ws[0] + sep + Join(ws[1..], sep)
  }

  /** `pat` occurs in `t` starting at index `k`. */
  predicate MatchAt(t: string, pat: string, k: nat)
  {
    k + |pat| <= |t| && t[k..k + |pat|] == pat
  }

  /**
   * The pieces of `s` around the occurrences of `pat` that a left-to-right
   * scan finds. For a non-empty `pat` this is Python's `s.split(pat)`; for
   * the empty pattern, which `str.replace` matches before every character
   * and at the end, the pieces are "", each character, and "".
   */
  function Pieces(s: string, pat: string): (ps: seq<string>)
    ensures |ps| >= 1
    ensures pat == [] ==> |ps| >= 2 && ps[0] == []
    decreases |s|
  {
    if pat == [] then
      if s == [] then [[], []] else [[], [s[0]]] + Pieces(s[1..], pat)[1..]
    else if |s| < |pat| then [s]
    else if s[..|pat|] == pat then [[]] + Pieces(s[|pat|..], pat)
    else
      var t := Pieces(s[1..], pat);
      [[s[0]] + t[0]] + t[1..]
  }

  /** Python's `s.replace(pat, rep)`: every occurrence of `pat` found
      scanning left to right, without overlap, is replaced by `rep`. */
  function Replace(s: string, pat: string, rep: string): string
    decreases |s|
  {
    if pat == [] then
      if s == [] then rep else rep + [s[0]] + Replace(s[1..], pat, rep)
    else if |s| < |pat| then s
    else if s[..|pat|] == pat then rep + Replace(s[|pat|..], pat, rep)
    else [s[0]] + Replace(s[1..], pat, rep)
  }

  /** Every piece starts before the first occurrence of `pat` in what is
      left of the string: the scan never skips a match. */
  ghost predicate Leftmost(ps: seq<string>, pat: string)
  {
    forall i, k :: 0 <= i < |ps| && 0 <= k < |ps[i]| ==> !MatchAt(Join(ps[i..], pat), pat, k)
  }

  /** Two strings with whitespace at the same positions and the same
      characters everywhere else. */
  ghost predicate SameShape(s: string, t: string)
  {
    |s| == |t| &&
    forall i :: 0 <= i < |s| ==> if IsSpace(s[i]) then IsSpace(t[i]) else t[i] == s[i]
  }

  // ---------------------------------------------------------------------
  // join

  lemma JoinPrepend(x: string, t: seq<string>, sep: string)
    requires |t| >= 1
    ensures Join([x + t[0]] + t[1..], sep) == x + Join(t, sep)
  {
    var u := [x + t[0]] + t[1..];
    if |t| > 1 {
      assert u[1..] == t[1..];
    }
  }

  /** Joining a piece in front of at least one more adds the piece and one separator. */
  lemma JoinCons(x: string, tail: seq<string>, sep: string)
    requires tail != []
    ensures Join([x] + tail, sep) == x + sep + Join(tail, sep)
  {
    var xs := [x] + tail;
    assert xs[0] == x && xs[1..] == tail;
  }

  /** An empty first piece contributes only its separator. */
  lemma JoinEmptyCons(tail: seq<string>, sep: string)
    requires tail != []
    ensures Join([[]] + tail, sep) == sep + Join(tail, sep)
  {
    JoinCons([], tail, sep);
    assert [] + sep == sep;
  }

  lemma ConcatRegroup(a: string, b: string, c: string, d: string)
    ensures a + (b + c + d) == a + b + (c + d)
  {
  }

  lemma JoinAfterEmptyPiece(x: string, p: seq<string>, sep: string)
    requires |p| >= 2 && p[0] == []
    ensures Join([[], x] + p[1..], sep) == sep + x + Join(p, sep)
  {
    var tail := p[1..];
    assert p == [[]] + tail;
    assert [[], x] + tail == [[]] + ([x] + tail);
    calc {
      Join([[], x] + tail, sep);
      Join([[]] + ([x] + tail), sep);
      { JoinEmptyCons([x] + tail, sep); }
      sep + Join([x] + tail, sep);
      { JoinCons(x, tail, sep); }
      sep + (x + sep + Join(tail, sep));
      { ConcatRegroup(sep, x, sep, Join(tail, sep)); }
      sep + x + (sep + Join(tail, sep));
      { JoinEmptyCons(tail, sep); }
      sep + x + Join(p, sep);
    }
  }

  // ---------------------------------------------------------------------
  // split(sep) and replace

  lemma {:induction false} PiecesJoinEmptyPattern(s: string, pat: string)
    requires pat == []
    ensures Join(Pieces(s, pat), pat) == s
    ensures forall rep :: Replace(s, pat, rep) == Join(Pieces(s, pat), rep)
    decreases |s|
  {
    if s != [] {
      var p := Pieces(s[1..], pat);
      PiecesJoinEmptyPattern(s[1..], pat);
      assert Pieces(s, pat) == [[], [s[0]]] + p[1..];
      JoinAfterEmptyPiece([s[0]], p, pat);
      forall rep ensures Replace(s, pat, rep) == Join(Pieces(s, pat), rep) {
        JoinAfterEmptyPiece([s[0]], p, rep);
      }
      assert s == [s[0]] + s[1..];
    }
  }

  /** Cutting at a leading occurrence of a non-empty pattern. */
  lemma PiecesAtMatch(s: string, pat: string, sep: string)
    requires pat != [] && |s| >= |pat| && s[..|pat|] == pat
    ensures Join(Pieces(s, pat), sep) == sep + Join(Pieces(s[|pat|..], pat), sep)
  {
    var rest := Pieces(s[|pat|..], pat);
    var ps := [[]] + rest;
    assert Pieces(s, pat) == ps;
    assert ps[1..] == rest;
  }

  /** Passing over a leading character that starts no occurrence. */
  lemma PiecesPastChar(s: string, pat: string, sep: string)
    requires pat != [] && |s| >= |pat| && s[..|pat|] != pat
    ensures Join(Pieces(s, pat), sep) == [s[0]] + Join(Pieces(s[1..], pat), sep)
  {
    var t := Pieces(s[1..], pat);
    assert Pieces(s, pat) == [[s[0]] + t[0]] + t[1..];
    JoinPrepend([s[0]], t, sep);
  }

  /** Joining the pieces with the pattern gives back the string. */
  lemma {:induction false} PiecesJoin(s: string, pat: string)
    ensures Join(Pieces(s, pat), pat) == s
    decreases |s|
  {
    if pat == [] {
      PiecesJoinEmptyPattern(s, pat);
    } else if |s| < |pat| {
    } else if s[..|pat|] == pat {
      PiecesJoin(s[|pat|..], pat);
      PiecesAtMatch(s, pat, pat);
      assert s == s[..|pat|] + s[|pat|..];
    } else {
      PiecesJoin(s[1..], pat);
      PiecesPastChar(s, pat, pat);
      assert s == [s[0]] + s[1..];
    }
  }

  /** `s.replace(pat, rep) == rep.join(pieces)`: replacing is joining the
      same pieces with `rep` instead of `pat`. */
  lemma {:induction false} ReplaceJoinsPieces(s: string, pat: string, rep: string)
    ensures Replace(s, pat, rep) == Join(Pieces(s, pat), rep)
    decreases |s|
  {
    if pat == [] {
      PiecesJoinEmptyPattern(s, pat);
    } else if |s| < |pat| {
    } else if s[..|pat|] == pat {
      ReplaceJoinsPieces(s[|pat|..], pat, rep);
      PiecesAtMatch(s, pat, rep);
    } else {
      ReplaceJoinsPieces(s[1..], pat, rep);
      PiecesPastChar(s, pat, rep);
    }
  }

  lemma MatchShift(s: string, pat: string, k: nat)
    requires |s| >= 1
    ensures MatchAt(s, pat, k + 1) <==> MatchAt(s[1..], pat, k)
  {
    if k + 1 + |pat| <= |s| {
      var a, b := s[k + 1..k + 1 + |pat|], s[1..][k..k + |pat|];
      forall j | 0 <= j < |pat| ensures a[j] == b[j] {
        assert b[j] == s[1..][k + j];
      }
      assert a == b;
    }
  }

  /** The pieces are cut at the leftmost occurrences: no occurrence of a
      non-empty pattern starts inside a piece. */
  lemma {:induction false} PiecesLeftmost(s: string, pat: string)
    requires pat != []
    ensures Leftmost(Pieces(s, pat), pat)
    decreases |s|
  {
    var ps := Pieces(s, pat);
    if |s| < |pat| {
      forall k | 0 <= k < |s| ensures !MatchAt(Join(ps[0..], pat), pat, k) {
        assert ps[0..] == [s];
      }
    } else if s[..|pat|] == pat {
      var rest := Pieces(s[|pat|..], pat);
      PiecesLeftmost(s[|pat|..], pat);
      forall i, k | 0 <= i < |ps| && 0 <= k < |ps[i]|
        ensures !MatchAt(Join(ps[i..], pat), pat, k)
      {
        assert i >= 1;
        assert ps[i..] == rest[i - 1..];
      }
    } else {
      var t := Pieces(s[1..], pat);
      PiecesLeftmost(s[1..], pat);
      PiecesJoin(s, pat);
      PiecesJoin(s[1..], pat);
      forall i, k | 0 <= i < |ps| && 0 <= k < |ps[i]|
        ensures !MatchAt(Join(ps[i..], pat), pat, k)
      {
        if i == 0 {
          assert ps[0..] == ps;
          if k > 0 {
            MatchShift(s, pat, k - 1);
            assert t[0..] == t;
            assert !MatchAt(Join(t[0..], pat), pat, k - 1);
          }
        } else {
          assert ps[i..] == t[i..];
        }
      }
    }
  }

  /** An occurrence of a non-empty pattern cuts the string in two or more. */
  lemma {:induction false} MatchGivesTwoPieces(s: string, pat: string, k: nat)
    requires pat != [] && MatchAt(s, pat, k)
    ensures |Pieces(s, pat)| >= 2
    decreases |s|
  {
    if s[..|pat|] != pat {
      assert k != 0;
      MatchShift(s, pat, k - 1);
      MatchGivesTwoPieces(s[1..], pat, k - 1);
    }
  }

  /** A non-empty pattern that does not occur leaves a single piece. */
  lemma {:induction false} PiecesWithoutMatch(s: string, pat: string)
    requires pat != []
    requires forall k :: 0 <= k <= |s| ==> !MatchAt(s, pat, k)
    ensures Pieces(s, pat) == [s]
    decreases |s|
  {
    if |s| >= |pat| {
      assert !MatchAt(s, pat, 0);
      forall k | 0 <= k <= |s[1..]| ensures !MatchAt(s[1..], pat, k) {
        MatchShift(s, pat, k);
      }
      PiecesWithoutMatch(s[1..], pat);
      assert [s[0]] + s[1..] == s;
    }
  }

  /** Replacing a pattern that does not occur changes nothing. */
  lemma ReplaceWithoutMatch(s: string, pat: string, rep: string)
    requires pat != []
    requires forall k :: 0 <= k <= |s| ==> !MatchAt(s, pat, k)
    ensures Replace(s, pat, rep) == s
  {
    PiecesWithoutMatch(s, pat);
    ReplaceJoinsPieces(s, pat, rep);
  }

  /** Splitting on a one-character separator distributes over a
      separator between two strings. */
  lemma {:induction false} PiecesAtSeparator(a: string, b: string, d: char)
    ensures Pieces(a + [d] + b, [d]) == Pieces(a, [d]) + Pieces(b, [d])
    decreases |a|
  {
    var s := a + [d] + b;
    if a == [] {
      assert s == [d] + b;
      assert s[..1] == [d] && s[1..] == b;
    } else {
      assert s[1..] == a[1..] + [d] + b;
      PiecesAtSeparator(a[1..], b, d);
      assert s[..1] == a[..1] == [a[0]];
    }
  }

  lemma {:induction false} PiecesAvoidSeparator(s: string, d: char)
    ensures forall i :: 0 <= i < |Pieces(s, [d])| ==> d !in Pieces(s, [d])[i]
    decreases |s|
  {
    if |s| >= 1 {
      PiecesAvoidSeparator(s[1..], d);
      assert s[..1] == [s[0]];
    }
  }

  /** Splitting on a separator that no part contains undoes the join. */
  lemma {:induction false} PiecesOfJoin(ws: seq<string>, d: char)
    requires |ws| >= 1
    requires forall i :: 0 <= i < |ws| ==> d !in ws[i]
    ensures Pieces(Join(ws, [d]), [d]) == ws
  {
    PiecesWithoutSeparator(ws[0], d);
    if |ws| > 1 {
      PiecesOfJoin(ws[1..], d);
      PiecesAtSeparator(ws[0], Join(ws[1..], [d]), d);
      assert [ws[0]] + ws[1..] == ws;
    }
  }

  /** Joining two or more parts with a longer separator gives a longer
      string. */
  lemma {:induction false} JoinWithLongerSeparator(ps: seq<string>, a: string, b: string)
    requires |ps| >= 2 && |a| < |b|
    ensures |Join(ps, a)| < |Join(ps, b)|
  {
    if |ps| > 2 {
      JoinWithLongerSeparator(ps[1..], a, b);
    }
  }

  /** A string without the separator is a single piece. */
  lemma PiecesWithoutSeparator(s: string, d: char)
    requires d !in s
    ensures Pieces(s, [d]) == [s]
  {
    forall k | 0 <= k <= |s| ensures !MatchAt(s, [d], k) {
      if k + 1 <= |s| {
        assert s[k..k + 1] == [s[k]];
      }
    }
    PiecesWithoutMatch(s, [d]);
  }

  /** Replacing one whitespace character by another keeps the shape. */
  lemma {:induction false} ReplaceSpaceKeepsShape(s: string, c: char, d: char)
    requires IsSpace(c) && IsSpace(d)
    ensures SameShape(s, Replace(s, [c], [d]))
    decreases |s|
  {
    if s != [] {
      ReplaceSpaceKeepsShape(s[1..], c, d);
      assert s[..1] == [s[0]];
      var r := Replace(s, [c], [d]);
      var head := if s[0] == c then [d] else [s[0]];
      assert r == head + Replace(s[1..], [c], [d]);
      forall i | 0 <= i < |s| ensures if IsSpace(s[i]) then IsSpace(r[i]) else r[i] == s[i] {
        if i > 0 {
          assert s[i] == s[1..][i - 1];
        }
      }
    }
  }

  // ---------------------------------------------------------------------
  // split() and join with single spaces

  lemma WordsSkipSpace(s: string)
    requires s != [] && IsSpace(s[0])
    ensures Words(s) == Words(s[1..])
  {
  }

  lemma WordsFromWord(s: string)
    requires s != [] && !IsSpace(s[0])
    ensures Words(s) == [s[..WordLength(s)]] + Words(s[WordLength(s)..])
  {
  }

  /** A token followed by nothing or by whitespace is split off first. */
  lemma WordsOfTokenThenRest(w: string, rest: string)
    requires w != [] && NoSpace(w)
    requires rest == [] || IsSpace(rest[0])
    ensures Words(w + rest) == [w] + Words(rest)
  {
    var j := w + rest;
    assert j[0] == w[0];
    WordsFromWord(j);
    WordLengthOfToken(w, rest);
    assert j[..|w|] == w && j[|w|..] == rest;
  }

  lemma WordsAtSpaceSkip(a: string, b: string, c: char)
    requires a != [] && IsSpace(a[0])
    requires Words(a[1..] + [c] + b) == Words(a[1..]) + Words(b)
    ensures Words(a + [c] + b) == Words(a) + Words(b)
  {
    var s := a + [c] + b;
    assert s[0] == a[0] && s[1..] == a[1..] + [c] + b;
    WordsSkipSpace(s);
    WordsSkipSpace(a);
  }

  lemma WordsAtSpaceToken(a: string, b: string, c: char)
    requires IsSpace(c) && a != [] && !IsSpace(a[0])
    requires var n := WordLength(a); Words(a[n..] + [c] + b) == Words(a[n..]) + Words(b)
    ensures Words(a + [c] + b) == Words(a) + Words(b)
  {
    var n := WordLength(a);
    var w, t := a[..n], a[n..];
    var rest := t + [c] + b;
    assert Words(a) == [w] + Words(t) by {
      WordsFromWord(a);
    }
    assert Words(a + [c] + b) == [w] + Words(rest) by {
      assert a + [c] + b == w + rest by {
        assert a == w + t;
      }
      assert rest[0] == if n < |a| then a[n] else c;
      WordsOfTokenThenRest(w, rest);
    }
    assert [w] + (Words(t) + Words(b)) == [w] + Words(t) + Words(b);
  }

  /** `split()` cuts at every whitespace character: the tokens of `a`, a
      whitespace character and `b` are those of `a` followed by those of
      `b`. */
  lemma {:induction false} WordsAtSpace(a: string, b: string, c: char)
    requires IsSpace(c)
    ensures Words(a + [c] + b) == Words(a) + Words(b)
    decreases |a|
  {
    if a == [] {
      var s := a + [c] + b;
      assert s == [c] + b && s[1..] == b;
      WordsSkipSpace(s);
    } else if IsSpace(a[0]) {
      WordsAtSpace(a[1..], b, c);
      WordsAtSpaceSkip(a, b, c);
    } else {
      WordsAtSpace(a[WordLength(a)..], b, c);
      WordsAtSpaceToken(a, b, c);
    }
  }

  /** `split()` is empty exactly on an all-whitespace string. */
  lemma {:induction false} WordsEmptyIff(s: string)
    ensures Words(s) == [] <==> IsBlank(s)
    decreases |s|
  {
    if s != [] && IsSpace(s[0]) {
      WordsEmptyIff(s[1..]);
      assert IsBlank(s) <==> IsBlank(s[1..]) by {
        forall i | 0 < i < |s| ensures s[i] == s[1..][i - 1] {}
      }
    }
  }

  lemma {:induction false} WordLengthSameShape(s: string, t: string)
    requires SameShape(s, t)
    ensures WordLength(s) == WordLength(t) && s[..WordLength(s)] == t[..WordLength(t)]
    decreases |s|
  {
    if s != [] && !IsSpace(s[0]) {
      assert SameShape(s[1..], t[1..]) by {
        forall i | 0 <= i < |s[1..]|
          ensures if IsSpace(s[1..][i]) then IsSpace(t[1..][i]) else t[1..][i] == s[1..][i]
        {
          assert s[1..][i] == s[i + 1] && t[1..][i] == t[i + 1];
        }
      }
      WordLengthSameShape(s[1..], t[1..]);
      var n := WordLength(s[1..]);
      assert s[..1 + n] == [s[0]] + s[1..][..n];
      assert t[..1 + n] == [t[0]] + t[1..][..n];
    }
  }

  lemma SameShapeSuffix(s: string, t: string, n: nat)
    requires SameShape(s, t) && n <= |s|
    ensures SameShape(s[n..], t[n..])
  {
    forall i | 0 <= i < |s[n..]|
      ensures if IsSpace(s[n..][i]) then IsSpace(t[n..][i]) else t[n..][i] == s[n..][i]
    {
      assert s[n..][i] == s[n + i] && t[n..][i] == t[n + i];
    }
  }

  /** `split()` sees only where the whitespace is, not which whitespace. */
  lemma {:induction false} WordsSameShape(s: string, t: string)
    requires SameShape(s, t)
    ensures Words(s) == Words(t)
    decreases |s|
  {
    if s == [] {
    } else if IsSpace(s[0]) {
      WordsSkipSpace(s);
      WordsSkipSpace(t);
      SameShapeSuffix(s, t, 1);
      WordsSameShape(s[1..], t[1..]);
    } else {
      WordsFromWord(s);
      WordsFromWord(t);
      WordLengthSameShape(s, t);
      var n := WordLength(s);
      SameShapeSuffix(s, t, n);
      WordsSameShape(s[n..], t[n..]);
    }
  }

  /** Words that are non-empty and hold no whitespace. */
  ghost predicate Tokens(ws: seq<string>)
  {
    forall i :: 0 <= i < |ws| ==> ws[i] != [] && NoSpace(ws[i])
  }

  lemma {:induction false} WordLengthOfToken(w: string, rest: string)
    requires NoSpace(w)
    requires rest == [] || IsSpace(rest[0])
    ensures WordLength(w + rest) == |w|
    decreases |w|
  {
    if w == [] {
      assert w + rest == rest;
    } else {
      assert (w + rest)[0] == w[0];
      assert (w + rest)[1..] == w[1..] + rest;
      WordLengthOfToken(w[1..], rest);
    }
  }

  lemma WordsOfToken(w: string)
    requires w != [] && NoSpace(w)
    ensures Words(w) == [w]
  {
    WordsFromWord(w);
    WordLengthOfToken(w, []);
    assert w + [] == w;
    assert w[..|w|] == w;
    assert w[|w|..] == [];
  }

  /** A token followed by a space and more text is split off first. */
  lemma WordsOfTokenThenSpace(w: string, rest: string)
    requires w != [] && NoSpace(w)
    ensures Words(w + " " + rest) == [w] + Words(rest)
  {
    var j := w + " " + rest;
    assert j[0] == w[0];
    WordsFromWord(j);
    assert j == w + (" " + rest);
    WordLengthOfToken(w, " " + rest);
    assert j[..|w|] == w;
    assert j[|w|..] == " " + rest;
    WordsSkipSpace(" " + rest);
    assert (" " + rest)[1..] == rest;
  }

  /** Splitting tokens joined by single spaces gives the tokens back. */
  lemma {:induction false} WordsOfJoin(ws: seq<string>)
    requires Tokens(ws)
    ensures Words(Join(ws, " ")) == ws
  {
    if |ws| == 1 {
      WordsOfToken(ws[0]);
    } else if |ws| > 1 {
      WordsOfTokenThenSpace(ws[0], Join(ws[1..], " "));
      assert Tokens(ws[1..]);
      WordsOfJoin(ws[1..]);
    }
  }

  /** Tokens joined by single spaces: no whitespace at either end, and every
      whitespace character is a single space between two non-whitespace
      characters. */
  ghost predicate SingleSpaced(r: string)
  {
    (r == [] || (!IsSpace(r[0]) && !IsSpace(r[|r| - 1]))) &&
    forall i :: 0 <= i < |r| && IsSpace(r[i]) ==>
      r[i] == ' ' && 0 < i < |r| - 1 && !IsSpace(r[i - 1]) && !IsSpace(r[i + 1])
  }

  lemma {:induction false} JoinSingleSpaced(ws: seq<string>)
    requires Tokens(ws)
    ensures SingleSpaced(Join(ws, " "))
    ensures Join(ws, " ") == [] <==> ws == []
  {
    if |ws| > 1 {
      var w := ws[0];
      var rest := Join(ws[1..], " ");
      JoinSingleSpaced(ws[1..]);
      var j := w + " " + rest;
      assert rest != [];
      forall i | 0 <= i < |j| && IsSpace(j[i])
        ensures j[i] == ' ' && 0 < i < |j| - 1 && !IsSpace(j[i - 1]) && !IsSpace(j[i + 1])
      {
        if i == |w| {
          assert j[i + 1] == rest[0];
        } else if i > |w| {
          var k := i - |w| - 1;
          assert j[i] == rest[k];
          if k > 0 {
            assert j[i - 1] == rest[k - 1];
          }
          assert j[i + 1] == rest[k + 1];
        }
      }
      assert j[|j| - 1] == rest[|rest| - 1];
    }
  }
}
