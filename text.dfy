/** The .NET string operations the engine relies on, written out with the ordinal semantics it uses. */
module Text {

  /** Characters for which .NET's char.IsWhiteSpace holds: the controls U+0009..U+000D and U+0085,
      and the Unicode space, line and paragraph separators. */
  predicate IsWhiteSpace(c: char) {
    || ('\t' <= c <= '\r')
    || c == ' ' || c == '\U{85}' || c == '\U{A0}' || c == '\U{1680}'
    || ('\U{2000}' <= c <= '\U{200A}')
    || c == '\U{2028}' || c == '\U{2029}' || c == '\U{202F}' || c == '\U{205F}' || c == '\U{3000}'
  }

  /** string.IsNullOrWhiteSpace (a null string cannot occur in the model). */
  predicate IsBlank(s: string) {
    forall i :: 0 <= i < |s| ==> IsWhiteSpace(s[i])
  }

  /** String.TrimStart(): drops the leading white space. */
  function TrimStart(s: string): (r: string)
    ensures |r| <= |s| && r == s[|s| - |r|..]
    ensures IsBlank(s[..|s| - |r|])
    ensures r == [] || !IsWhiteSpace(r[0])
  {
    if s != [] && IsWhiteSpace(s[0]) then
      var r := TrimStart(s[1..]);
      assert s[..|s| - |r|] == [s[0]] + s[1..][..|s| - 1 - |r|];
      BlankCons(s[0], s[1..][..|s| - 1 - |r|]);
      r
    else s
  }

  /** A white-space character in front of a blank string leaves it blank. */
  lemma BlankCons(c: char, x: string)
    requires IsWhiteSpace(c) && IsBlank(x)
    ensures IsBlank([c] + x)
  {
    forall i | 0 <= i < |x| + 1 ensures IsWhiteSpace(([c] + x)[i]) {
      if i > 0 { assert ([c] + x)[i] == x[i - 1]; }
    }
  }

  /** String.TrimEnd(): drops the trailing white space. */
  function TrimEnd(s: string): (r: string)
    ensures |r| <= |s| && r == s[..|r|]
    ensures IsBlank(s[|r|..])
    ensures r == [] || !IsWhiteSpace(r[|r| - 1])
  {
    if s != [] && IsWhiteSpace(s[|s| - 1]) then TrimEnd(s[..|s| - 1]) else s
  }

  /** No white space on either end. */
  predicate Trimmed(s: string) {
    s == [] || (!IsWhiteSpace(s[0]) && !IsWhiteSpace(s[|s| - 1]))
  }

  /** String.Trim(): a slice of `s` with white space on neither end (see TrimSlice). */
  function Trim(s: string): (r: string)
    ensures |r| <= |s| && Trimmed(r)
  {
    TrimEnd(TrimStart(s))
  }

  /** Trim cuts its result out of a blank prefix and a blank suffix. */
  lemma TrimSlice(s: string) returns (a: nat)
    ensures a + |Trim(s)| <= |s| && Trim(s) == s[a..a + |Trim(s)|]
    ensures IsBlank(s[..a]) && IsBlank(s[a + |Trim(s)|..])
  {
    var t := TrimStart(s);
    var r := TrimEnd(t);
    a := |s| - |t|;
    SliceOfSlice(s, t, r, a);
    assert IsBlank(t[|r|..]);
    assert Trim(s) == r;
    assert r == s[a..a + |r|];
    assert IsBlank(s[..a]) && IsBlank(s[a + |r|..]);
    assert Trim(s) == s[a..a + |Trim(s)|];
    assert IsBlank(s[a + |Trim(s)|..]);
  }

  /** A prefix `r` of the suffix `t == s[a..]` is the slice of `s` at `a`, and what follows it in
      `t` is what follows it in `s`. */
  lemma SliceOfSlice(s: string, t: string, r: string, a: nat)
    requires a <= |s| && t == s[a..] && |r| <= |t| && r == t[..|r|]
    ensures s[a..a + |r|] == r && s[a + |r|..] == t[|r|..]
  {
    assert forall i :: 0 <= i < |r| ==> s[a..a + |r|][i] == s[a + i] == t[i] == r[i];
    assert forall i :: 0 <= i < |t| - |r| ==> s[a + |r|..][i] == s[a + |r| + i] == t[|r| + i] == t[|r|..][i];
  }

  /** Trimming is idempotent, and a blank string trims to the empty string. */
  lemma TrimIdempotent(s: string)
    ensures Trim(Trim(s)) == Trim(s)
    ensures IsBlank(s) <==> Trim(s) == []
  {
    var r := Trim(s);
    assert TrimStart(r) == r;
    assert TrimEnd(r) == r;
    if !IsBlank(s) && r == [] {
      var a := TrimSlice(s);
      forall i | 0 <= i < |s| ensures IsWhiteSpace(s[i]) {
        if i < a { assert s[..a][i] == s[i]; } else { assert s[a..][i - a] == s[i]; }
      }
    }
  }

  /** A string with white space on neither end is its own trim. */
  lemma TrimNoop(s: string)
    requires Trimmed(s)
    ensures Trim(s) == s
  {
    assert TrimStart(s) == s;
    assert TrimEnd(s) == s;
  }

  /** Ordinal String.StartsWith. */
  predicate StartsWith(s: string, prefix: string) {
    |prefix| <= |s| && s[..|prefix|] == prefix
  }

  /** Ordinal String.EndsWith. */
  predicate EndsWith(s: string, suffix: string) {
    |suffix| <= |s| && s[|s| - |suffix|..] == suffix
  }

  /** `pat` occurs in `s` starting at index `i`. */
  predicate OccursAt(s: string, pat: string, i: int) {
    0 <= i && i + |pat| <= |s| && s[i..i + |pat|] == pat
  }

  /** String.IndexOf(pat, StringComparison.Ordinal) for a non-empty pattern: the first occurrence, or -1. */
  function IndexOf(s: string, pat: string): (r: int)
    requires pat != []
    ensures -1 <= r
    ensures r >= 0 ==> OccursAt(s, pat, r)
    ensures forall i :: 0 <= i && (r == -1 || i < r) ==> !OccursAt(s, pat, i)
  {
    IndexFrom(s, pat, 0)
  }

  function IndexFrom(s: string, pat: string, k: nat): (r: int)
    requires pat != [] && k <= |s|
    ensures r == -1 || k <= r
    ensures r >= 0 ==> OccursAt(s, pat, r)
    ensures forall i :: k <= i && (r == -1 || i < r) ==> !OccursAt(s, pat, i)
    decreases |s| - k
  {
    if k + |pat| > |s| then -1
    else if s[k..k + |pat|] == pat then k
    else IndexFrom(s, pat, k + 1)
  }

  /** Ordinal String.Replace(pat, rep): every non-overlapping occurrence, scanning left to right. */
  function Replace(s: string, pat: string, rep: string): string
    requires pat != []
    decreases |s|
  {
    if |s| < |pat| then s
    else if s[..|pat|] == pat then rep + Replace(s[|pat|..], pat, rep)
    else [s[0]] + Replace(s[1..], pat, rep)
  }

  /** Replacing leaves a prefix alone when no occurrence of the pattern starts inside it. */
  lemma {:induction false} ReplaceKeepsPrefix(x: string, y: string, pat: string, rep: string)
    requires pat != []
    requires forall i :: 0 <= i < |x| ==> !OccursAt(x + y, pat, i)
    ensures Replace(x + y, pat, rep) == x + Replace(y, pat, rep)
    decreases |x|
  {
    if x != [] {
      var s := x + y;
      var t := x[1..] + y;
      assert s[1..] == t;
      assert !OccursAt(s, pat, 0);
      assert Replace(s, pat, rep) == [s[0]] + Replace(t, pat, rep);
      forall i | 0 <= i < |x| - 1 ensures !OccursAt(t, pat, i) {
        ShiftOccurs(s, pat, i);
      }
      ReplaceKeepsPrefix(x[1..], y, pat, rep);
      assert s[0] == x[0] && x == [x[0]] + x[1..];
      assert [s[0]] + (x[1..] + Replace(y, pat, rep)) == x + Replace(y, pat, rep);
    } else {
      assert x + y == y;
    }
  }

  lemma ShiftOccurs(s: string, pat: string, i: nat)
    requires |s| > 0
    ensures OccursAt(s[1..], pat, i) == OccursAt(s, pat, i + 1)
  {
    if i + |pat| <= |s| - 1 {
      assert s[1..][i..i + |pat|] == s[i + 1..i + 1 + |pat|];
    }
  }

  /** Blocks of one quote-free, comma-free alphabet joined by one separator character. */
  function Join(pieces: seq<string>, sep: char): string
    requires |pieces| >= 1
  {
    if |pieces| == 1 then pieces[0] else pieces[0] + [sep] + Join(pieces[1..], sep)
  }

  /** String.Split(char[]) with StringSplitOptions.None: the pieces between delimiters, in order. */
  function SplitAny(s: string, delims: set<char>): (r: seq<string>)
    ensures |r| >= 1
    decreases |s|
  {
    if s == [] then [[]]
    else
      var rest := SplitAny(s[1..], delims);
      if s[0] in delims then [[]] + rest else [[s[0]] + rest[0]] + rest[1..]
  }

  /** One step of SplitAny: a delimiter opens a new piece, any other character joins the first. */
  lemma SplitAnyCons(h: char, t: string, delims: set<char>)
    ensures SplitAny([h] + t, delims) ==
      if h in delims then [[]] + SplitAny(t, delims)
      else [[h] + SplitAny(t, delims)[0]] + SplitAny(t, delims)[1..]
  {
    assert ([h] + t)[1..] == t;
  }

  /** A text free of delimiters is a single piece. */
  lemma {:induction false} SplitAnyWord(s: string, delims: set<char>)
    requires forall i :: 0 <= i < |s| ==> s[i] !in delims
    ensures SplitAny(s, delims) == [s]
    decreases |s|
  {
    if s != [] {
      SplitAnyWord(s[1..], delims);
      assert [s[0]] + s[1..] == s;
    }
  }

  /** A delimiter splits the text into the pieces before it followed by the pieces after it. */
  lemma {:induction false} SplitAnyAtDelim(x: string, c: char, y: string, delims: set<char>)
    requires c in delims
    ensures SplitAny(x + [c] + y, delims) == SplitAny(x, delims) + SplitAny(y, delims)
    decreases |x|
  {
    if x == [] {
      assert x + [c] + y == [c] + y;
      SplitAnyCons(c, y, delims);
    } else {
      var t := x[1..];
      assert x == [x[0]] + t;
      assert x + [c] + y == [x[0]] + (t + [c] + y);
      SplitAnyAtDelim(t, c, y, delims);
      SplitAnyCons(x[0], t + [c] + y, delims);
      SplitAnyCons(x[0], t, delims);
      ConsJoin(x[0] in delims, x[0], SplitAny(t, delims), SplitAny(y, delims));
    }
  }

  lemma ConsJoin(isDelim: bool, h: char, head: seq<string>, tail: seq<string>)
    requires |head| >= 1
    ensures (if isDelim then [[]] + (head + tail) else [[h] + (head + tail)[0]] + (head + tail)[1..]) ==
      (if isDelim then [[]] + head else [[h] + head[0]] + head[1..]) + tail
  {
    if !isDelim {
      assert (head + tail)[1..] == head[1..] + tail;
    }
  }

  /** Splitting yields delimiter-free pieces that join back to the input. */
  lemma {:induction false} SplitAnyJoin(s: string, delims: set<char>, sep: char)
    requires delims == {sep}
    ensures Join(SplitAny(s, delims), sep) == s
    ensures forall p, i :: p in SplitAny(s, delims) && 0 <= i < |p| ==> p[i] !in delims
    decreases |s|
  {
    SplitAnyPieces(s, delims);
    if s != [] {
      SplitAnyJoin(s[1..], delims, sep);
      var rest := SplitAny(s[1..], delims);
      if s[0] !in delims && |rest| > 1 {
        assert Join(SplitAny(s, delims), sep) == [s[0]] + rest[0] + [sep] + Join(rest[1..], sep);
      }
    }
  }

  /** No piece SplitAny returns holds a delimiter. */
  lemma {:induction false} SplitAnyPieces(s: string, delims: set<char>)
    ensures forall p, i :: p in SplitAny(s, delims) && 0 <= i < |p| ==> p[i] !in delims
    decreases |s|
  {
    if s != [] {
      SplitAnyPieces(s[1..], delims);
      var rest := SplitAny(s[1..], delims);
      forall p, i | p in SplitAny(s, delims) && 0 <= i < |p| ensures p[i] !in delims {
        if p !in rest {
          assert p == [s[0]] + rest[0];
          if i > 0 { assert p[i] == rest[0][i - 1]; }
        }
      }
    }
  }


  /** Splitting a join of delimiter-free pieces gives the pieces back. */
  lemma {:induction false} JoinSplitAny(pieces: seq<string>, sep: char, delims: set<char>)
    requires |pieces| >= 1 && sep in delims
    requires forall p, i :: p in pieces && 0 <= i < |p| ==> p[i] !in delims
    ensures SplitAny(Join(pieces, sep), delims) == pieces
    decreases |pieces|, |pieces[0]|
  {
    var p := pieces[0];
    if p == [] {
      if |pieces| > 1 {
        assert Join(pieces, sep) == [sep] + Join(pieces[1..], sep);
        assert (Join(pieces, sep))[1..] == Join(pieces[1..], sep);
        JoinSplitAny(pieces[1..], sep, delims);
        assert pieces == [[]] + pieces[1..];
      }
    } else {
      var tail := [p[1..]] + pieces[1..];
      forall q, i | q in tail && 0 <= i < |q| ensures q[i] !in delims {
        if q == p[1..] { assert q[i] == p[i + 1]; }
      }
      JoinSplitAny(tail, sep, delims);
      assert Join(pieces, sep) == [p[0]] + Join(tail, sep) by {
        if |pieces| > 1 {
          assert tail[1..] == pieces[1..];
        }
      }
      assert Join(pieces, sep)[1..] == Join(tail, sep);
      assert [p[0]] + p[1..] == p;
    }
  }

  /** StringSplitOptions.RemoveEmptyEntries: the non-empty pieces, in order. */
  function NonEmpty(pieces: seq<string>): (r: seq<string>)
    ensures forall p :: p in r ==> p != [] && p in pieces
    ensures |r| <= |pieces|
  {
    if pieces == [] then []
    else if pieces[0] == [] then NonEmpty(pieces[1..])
    else [pieces[0]] + NonEmpty(pieces[1..])
  }

  /** Removing empty pieces distributes over concatenation. */
  lemma {:induction false} NonEmptyAppend(a: seq<string>, b: seq<string>)
    ensures NonEmpty(a + b) == NonEmpty(a) + NonEmpty(b)
    decreases |a|
  {
    if a != [] {
      NonEmptyAppend(a[1..], b);
      assert (a + b)[1..] == a[1..] + b;
    } else {
      assert a + b == b;
    }
  }

  /** String.IndexOfAny(chars) != -1. */
  predicate ContainsAny(s: string, chars: set<char>) {
    exists i :: 0 <= i < |s| && s[i] in chars
  }

  /** A carriage return immediately followed by a line feed starts at index `i`. */
  predicate CrLfAt(s: string, i: int) {
    0 <= i < |s| - 1 && s[i] == '\r' && s[i + 1] == '\n'
  }

  /** String.Split(new[] { "\r\n" }, StringSplitOptions.None). */
  function SplitLines(s: string): (r: seq<string>)
    ensures |r| >= 1
    decreases |s|
  {
    if s == [] then [[]]
    else if CrLfAt(s, 0) then [[]] + SplitLines(s[2..])
    else
      var rest := SplitLines(s[1..]);
      [[s[0]] + rest[0]] + rest[1..]
  }

  /** There is more than one line exactly when the text holds a CR LF pair. */
  lemma {:induction false} SplitLinesSingle(s: string)
    ensures |SplitLines(s)| == 1 <==> !exists i :: CrLfAt(s, i)
    decreases |s|
  {
    if s != [] && !CrLfAt(s, 0) {
      SplitLinesSingle(s[1..]);
      if exists i :: CrLfAt(s, i) {
        var i :| CrLfAt(s, i);
        assert i > 0 && CrLfAt(s[1..], i - 1);
      }
      if exists i :: CrLfAt(s[1..], i) {
        var i :| CrLfAt(s[1..], i);
        assert CrLfAt(s, i + 1);
      }
    }
  }

  /** The inverse of SplitLines. */
  function JoinLines(lines: seq<string>): string
    requires |lines| >= 1
  {
    if |lines| == 1 then lines[0] else lines[0] + "\r\n" + JoinLines(lines[1..])
  }

  /** Splitting on CR LF loses nothing: joining the lines back gives the text. */
  lemma {:induction false} SplitLinesJoin(s: string)
    ensures JoinLines(SplitLines(s)) == s
    decreases |s|
  {
    if s != [] {
      if CrLfAt(s, 0) {
        SplitLinesJoin(s[2..]);
        var rest := SplitLines(s[2..]);
        assert SplitLines(s)[1..] == rest;
        assert s == "\r\n" + s[2..];
      } else {
        SplitLinesJoin(s[1..]);
        JoinLinesPrepend(s[0], SplitLines(s[1..]));
        assert s == [s[0]] + s[1..];
      }
    }
  }

  lemma JoinLinesPrepend(c: char, lines: seq<string>)
    requires |lines| >= 1
    ensures JoinLines([[c] + lines[0]] + lines[1..]) == [c] + JoinLines(lines)
  {
    var m := [[c] + lines[0]] + lines[1..];
    if |lines| > 1 {
      assert m[0] == [c] + lines[0] && m[1..] == lines[1..];
      var tail := JoinLines(lines[1..]);
      assert JoinLines(m) == m[0] + "\r\n" + tail;
      assert JoinLines(lines) == lines[0] + "\r\n" + tail;
      PrependRegroup(c, lines[0], "\r\n", tail);
    } else {
      assert m == [[c] + lines[0]];
    }
  }

  /** Prepending a character commutes with joining around a separator. */
  lemma PrependRegroup(c: char, x: string, sep: string, y: string)
    ensures ([c] + x) + sep + y == [c] + (x + sep + y)
  {
    assert ([c] + x) + sep + y == [c] + x + sep + y;
  }
}
