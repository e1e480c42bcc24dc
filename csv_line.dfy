/** The line tokenizer: a hand-written scanner with the behaviour of the matching loop of
    CsvParser.EnumerateCsvLine, whose pattern has three alternatives tried in order at each position:
    an empty field before a separator, a quoted run, and a run of ordinary characters, each optionally
    followed by one comma. */
module CsvLine {
  import opened Errors
  import opened Text

  /** The character class [,\r\n] of the pattern. */
  predicate IsStop(c: char) {
    c == ',' || c == '\r' || c == '\n'
  }

  /** The end of the run [^,\r\n]+ that starts at `k`. */
  function RunEnd(s: string, k: nat): (e: nat)
    requires k <= |s|
    ensures k <= e <= |s|
    ensures forall i :: k <= i < e ==> !IsStop(s[i])
    ensures e == |s| || IsStop(s[e])
    decreases |s| - k
  {
    if k == |s| || IsStop(s[k]) then k else RunEnd(s, k + 1)
  }

  /** Where the quoted alternative closes, for an opening quote at index 0. The greedy loop
      ([^"]|"")+ walks forward from index 1 one token at a time (a non-quote character or a doubled
      quote) and stops at a lone quote or at the end; backtracking then settles on the LAST token
      boundary j > 1 that holds a quote. `best` is the last such boundary seen so far. */
  function QuoteClose(s: string, j: nat, best: Option<nat>): (r: Option<nat>)
    requires 1 <= j <= |s|
    requires best.Some? ==> 1 < best.value < j && s[best.value] == '"'
    ensures r.Some? ==> 1 < r.value < |s| && s[r.value] == '"'
    ensures best.Some? ==> r.Some?
    decreases |s| - j
  {
    var best' := if j > 1 && j < |s| && s[j] == '"' then Some(j) else best;
    if j == |s| then best'
    else if s[j] != '"' then QuoteClose(s, j + 1, best')
    else if j + 1 < |s| && s[j + 1] == '"' then QuoteClose(s, j + 2, best')
    else best'
  }

  /** The first match of the pattern at the start of `s`: the captured field and how many characters
      the match covers. A comma after a field is consumed. Before a CR or LF the first alternative
      matches the empty string; the matcher then resumes one character further on, so the line-break
      character is skipped. */
  function FirstMatch(s: string): (m: (string, nat))
    requires s != []
    ensures 0 < m.1 <= |s|
  {
    if IsStop(s[0]) then ("", 1)
    else
      var close := if s[0] == '"' then QuoteClose(s, 1, None) else None;
      if close.Some? then
        var c := close.value;
        (s[1..c], if c + 1 < |s| && s[c + 1] == ',' then c + 2 else c + 1)
      else
        var e := RunEnd(s, 0);
        (s[..e], if e < |s| && s[e] == ',' then e + 1 else e)
  }

  /** CsvParser.EnumerateCsvLine: the captured fields of all successive matches. */
  function Tokenize(line: string): (fields: seq<string>)
    ensures |fields| <= |line|
    ensures fields == [] <==> line == []
    decreases |line|
  {
    if line == [] then []
    else
      var (field, n) := FirstMatch(line);
      [field] + Tokenize(line[n..])
  }

  /** CsvParser.EnumerateCsvLine: copies the captured field of every match, in order, into a new
      array. */
  method EnumerateCsvLine(line: string) returns (ret: array<string>)
    ensures fresh(ret)
    ensures ret[..] == Tokenize(line)
  {
    var matches := Tokenize(line);
    ret := new string[|matches|];
    for i := 0 to |matches|
      invariant ret[..i] == matches[..i]
    {
      ret[i] := matches[i];
    }
  }

  // ---------------------------------------------------------------------------------------------
  // Lines without quotes: plain comma splitting

  /** A line with no quote and no line-break character. */
  predicate Unquoted(line: string) {
    forall i :: 0 <= i < |line| ==> line[i] != '"' && line[i] != '\r' && line[i] != '\n'
  }

  /** Drops the last piece when it is empty (a trailing comma starts no new field). */
  function DropTrailingEmpty(pieces: seq<string>): seq<string>
    requires |pieces| >= 1
  {
    if pieces[|pieces| - 1] == [] then pieces[..|pieces| - 1] else pieces
  }

  lemma {:induction false} SplitAnyAtFirst(s: string, delims: set<char>, e: nat)
    requires e <= |s|
    requires forall i :: 0 <= i < e ==> s[i] !in delims
    requires e < |s| ==> s[e] in delims
    ensures SplitAny(s, delims) == [s[..e]] + (if e < |s| then SplitAny(s[e + 1..], delims) else [])
    decreases e
  {
    if e > 0 {
      SplitAnyAtFirst(s[1..], delims, e - 1);
      assert s[1..][..e - 1] == s[1..e];
      assert [s[0]] + s[1..e] == s[..e];
      if e < |s| { assert s[1..][e..] == s[e + 1..]; }
    } else if s != [] {
      assert s[1..] == s[e + 1..];
    }
  }

  /** On a line without quotes or line breaks the tokenizer splits on commas, except that a trailing
      comma does not open an empty last field (so "one,two,," yields one, two and ""). */
  lemma {:induction false} TokenizeUnquoted(line: string)
    requires Unquoted(line)
    ensures Tokenize(line) == DropTrailingEmpty(SplitAny(line, {','}))
    decreases |line|
  {
    if line != [] {
      var e := RunEnd(line, 0);
      SplitAnyAtFirst(line, {','}, e);
      assert line[0] != '"';
      if e < |line| {
        assert line[e] == ',';
        assert FirstMatch(line) == (line[..e], e + 1);
        var rest := line[e + 1..];
        assert Unquoted(rest) by {
          forall i | 0 <= i < |rest| ensures rest[i] != '"' && rest[i] != '\r' && rest[i] != '\n' {
            assert rest[i] == line[e + 1 + i];
          }
        }
        TokenizeUnquoted(rest);
        assert Tokenize(line) == [line[..e]] + Tokenize(rest);
        var tail := SplitAny(rest, {','});
        assert DropTrailingEmpty([line[..e]] + tail) == [line[..e]] + DropTrailingEmpty(tail);
      } else {
        assert line[..e] == line;
        assert FirstMatch(line) == (line, |line|);
        assert line[|line|..] == [];
      }
    }
  }

  // ---------------------------------------------------------------------------------------------
  // Round trip: fields written as bare or quoted cells and joined by commas

  /** One cell as written in a line: bare text, or a body between quotes. */
  datatype Cell = Bare(text: string) | Quoted(body: string)

  /** A quoted body in which every quote is doubled: ([^"]|"")*. */
  predicate Escaped(b: string)
    decreases |b|
  {
    || b == []
    || (b[0] != '"' && Escaped(b[1..]))
    || (|b| >= 2 && b[0] == '"' && b[1] == '"' && Escaped(b[2..]))
  }

  /** A bare cell holds no separator and does not open with a quote; a quoted body is non-empty
      with its quotes doubled. */
  predicate WellFormed(c: Cell) {
    match c
    case Bare(t) => (forall i :: 0 <= i < |t| ==> !IsStop(t[i])) && (t == [] || t[0] != '"')
    case Quoted(b) => b != [] && Escaped(b)
  }

  function Encode(c: Cell): string {
    match c
    case Bare(t) => t
    case Quoted(b) => "\"" + b + "\""
  }

  /** The field the tokenizer is meant to return for a cell: a doubled quote is kept as it stands. */
  function FieldOf(c: Cell): string {
    match c
    case Bare(t) => t
    case Quoted(b) => b
  }

  function EncodeLine(cells: seq<Cell>): string {
    if cells == [] then ""
    else if |cells| == 1 then Encode(cells[0])
    else Encode(cells[0]) + "," + EncodeLine(cells[1..])
  }

  function FieldsOf(cells: seq<Cell>): (r: seq<string>)
    ensures |r| == |cells|
  {
    if cells == [] then [] else [FieldOf(cells[0])] + FieldsOf(cells[1..])
  }

  lemma {:induction false} QuoteCloseEscaped(s: string, j: nat, best: Option<nat>, b: string)
    requires 1 <= j && j + |b| < |s| && 1 < j + |b|
    requires s[j..j + |b|] == b && Escaped(b)
    requires s[j + |b|] == '"' && (j + |b| + 1 == |s| || s[j + |b| + 1] != '"')
    requires best.Some? ==> 1 < best.value < j && s[best.value] == '"'
    ensures QuoteClose(s, j, best) == Some(j + |b|)
    decreases |b|
  {
    if b == [] {
    } else if b[0] != '"' && Escaped(b[1..]) {
      assert s[j] == b[0];
      if |b| == 1 {
        assert QuoteClose(s, j, best) == QuoteClose(s, j + 1, best);
      }
      assert s[j + 1..j + |b|] == b[1..];
      QuoteCloseEscaped(s, j + 1, best, b[1..]);
    } else {
      assert s[j] == b[0] && s[j + 1] == b[1];
      var best' := if j > 1 then Some(j) else best;
      assert s[j + 2..j + |b|] == b[2..];
      QuoteCloseEscaped(s, j + 2, best', b[2..]);
    }
  }

  /** The first match over an encoded cell followed by nothing or by a comma. */
  lemma FirstMatchCell(c: Cell, tail: string)
    requires WellFormed(c)
    requires tail == [] || tail[0] == ','
    requires tail == [] ==> c != Bare([])
    ensures FirstMatch(Encode(c) + tail) == (FieldOf(c), |Encode(c)| + (if tail == [] then 0 else 1))
  {
    match c
    case Bare(t) => FirstMatchBare(t, tail);
    case Quoted(b) => FirstMatchQuoted(b, tail);
  }

  lemma FirstMatchBare(t: string, tail: string)
    requires WellFormed(Bare(t))
    requires tail == [] || tail[0] == ','
    requires tail == [] ==> t != []
    ensures FirstMatch(t + tail) == (t, |t| + (if tail == [] then 0 else 1))
  {
    var s := t + tail;
    if t != [] {
      assert s[0] == t[0];
      assert forall i :: 0 <= i < |t| ==> s[i] == t[i];
      RunEndAt(s, t);
      assert s[..|t|] == t;
    } else {
      assert s == tail;
    }
  }

  lemma FirstMatchQuoted(b: string, tail: string)
    requires WellFormed(Quoted(b))
    requires tail == [] || tail[0] == ','
    ensures FirstMatch("\"" + b + "\"" + tail) == (b, |b| + 2 + (if tail == [] then 0 else 1))
  {
    var s := "\"" + b + "\"" + tail;
    assert s[0] == '"' && s[1 + |b|] == '"';
    assert s[1..1 + |b|] == b;
    assert 1 + |b| + 1 < |s| ==> s[1 + |b| + 1] == tail[0];
    QuoteCloseEscaped(s, 1, None, b);
  }

  lemma RunEndAt(s: string, t: string)
    requires |t| <= |s| && forall i :: 0 <= i < |t| ==> s[i] == t[i] && !IsStop(t[i])
    requires |t| == |s| || IsStop(s[|t|])
    ensures RunEnd(s, 0) == |t|
  {
    var k := |t|;
    while k > 0
      invariant 0 <= k <= |t|
      invariant RunEnd(s, k) == |t|
    {
      k := k - 1;
    }
  }

  /** Joining well-formed cells with commas and tokenizing the line gives back each cell's field
      (the interior of a quoted cell, commas included, as one field) — unless the last cell is bare
      and empty, which a trailing comma cannot express. */
  lemma {:induction false} TokenizeEncodeLine(cells: seq<Cell>)
    requires forall i :: 0 <= i < |cells| ==> WellFormed(cells[i])
    requires cells != [] ==> cells[|cells| - 1] != Bare([])
    ensures Tokenize(EncodeLine(cells)) == FieldsOf(cells)
    decreases |cells|
  {
    if |cells| == 1 {
      TokenizeOneCell(cells[0]);
    } else if |cells| > 1 {
      var tailCells := cells[1..];
      assert forall i :: 0 <= i < |tailCells| ==> tailCells[i] == cells[i + 1];
      TokenizeEncodeLine(tailCells);
      TokenizeCellThen(cells[0], EncodeLine(tailCells));
    }
  }

  lemma TokenizeOneCell(c: Cell)
    requires WellFormed(c) && c != Bare([])
    ensures Tokenize(Encode(c)) == [FieldOf(c)]
  {
    var s := Encode(c);
    FirstMatchCell(c, []);
    assert s + [] == s;
    TokenizeStep(s);
    assert s[|s|..] == [];
  }

  lemma TokenizeCellThen(c: Cell, rest: string)
    requires WellFormed(c)
    ensures Tokenize(Encode(c) + "," + rest) == [FieldOf(c)] + Tokenize(rest)
  {
    var s := Encode(c) + "," + rest;
    FirstMatchCell(c, "," + rest);
    assert s == Encode(c) + ("," + rest);
    TokenizeStep(s);
    assert s[|Encode(c)| + 1..] == rest;
  }

  lemma TokenizeStep(s: string)
    requires s != []
    ensures Tokenize(s) == [FirstMatch(s).0] + Tokenize(s[FirstMatch(s).1..])
  {
  }
}
