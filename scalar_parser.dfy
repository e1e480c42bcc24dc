/** CsvParser.Parse and TryGetKeyValuePair: one trimmed cell text read as a value of a shape. */
module ScalarParser {
  import opened Errors
  import opened Text
  import opened Shapes

  /** CsvParser.PairSplitChars. */
  const PairChars: set<char> := {':', '<', '>', '=', '|'}

  // ---------------------------------------------------------------------------------------------
  // Int32.Parse with NumberStyles.Integer on text that is already trimmed

  predicate IsDigit(c: char) {
    '0' <= c <= '9'
  }

  predicate AllDigits(d: string) {
    forall i :: 0 <= i < |d| ==> IsDigit(d[i])
  }

  /** The number written by a run of decimal digits, most significant first. */
  function DigitsValue(d: string): nat
    requires AllDigits(d)
    decreases |d|
  {
    if d == [] then 0 else DigitsValue(d[..|d| - 1]) * 10 + (d[|d| - 1] - '0') as nat
  }

  /** An optional sign followed by at least one digit. */
  predicate IntegerSyntax(t: string) {
    var d := if t != [] && (t[0] == '-' || t[0] == '+') then t[1..] else t;
    d != [] && AllDigits(d)
  }

  /** The value of text in IntegerSyntax. */
  function SignedValue(t: string): int
    requires IntegerSyntax(t)
  {
    if t[0] == '-' then -(DigitsValue(t[1..]) as int)
    else if t[0] == '+' then DigitsValue(t[1..])
    else DigitsValue(t)
  }

  /** Convert.ChangeType(text, typeof(int)): a FormatException unless the text is an optionally signed
      digit run, an OverflowException when its value leaves the 32-bit range. */
  function ParseInt32(t: string): (r: Result<Value>)
    ensures r.Success? <==> IntegerSyntax(t) && MinInt32 <= SignedValue(t) <= MaxInt32
    ensures r.Success? ==> r.value == Int32(SignedValue(t))
    ensures r.Failure? ==> r.error == (if IntegerSyntax(t) then Overflow else FormatError)
  {
    if !IntegerSyntax(t) then Failure(FormatError)
    else
      var n := SignedValue(t);
      if n < MinInt32 || n > MaxInt32 then Failure(Overflow) else Success(Int32(n))
  }

  /** Decimal digits of a natural number, without leading zeros. */
  function Digits(m: nat): (d: string)
    ensures d != [] && AllDigits(d)
    decreases m
  {
    if m < 10 then [('0' as int + m) as char] else Digits(m / 10) + [('0' as int + m % 10) as char]
  }

  /** Int32.ToString() under the invariant culture. */
  function FormatInt(n: int): string {
    if n < 0 then "-" + Digits(-n) else Digits(n)
  }

  lemma {:induction false} DigitsRoundTrip(m: nat)
    ensures DigitsValue(Digits(m)) == m
    decreases m
  {
    var d := Digits(m);
    if m >= 10 {
      DigitsRoundTrip(m / 10);
      assert d[..|d| - 1] == Digits(m / 10);
    }
  }

  /** Reading back a formatted 32-bit integer gives the integer. */
  lemma ParseFormatInt(n: int)
    requires MinInt32 <= n <= MaxInt32
    ensures ParseInt32(FormatInt(n)) == Success(Int32(n))
  {
    var t := FormatInt(n);
    if n < 0 {
      var d := Digits(-n);
      DigitsRoundTrip(-n);
      assert t[0] == '-' && t[1..] == d;
      assert IntegerSyntax(t) && SignedValue(t) == n;
    } else {
      var d := Digits(n);
      DigitsRoundTrip(n);
      assert t == d && IsDigit(d[0]);
      assert IntegerSyntax(t) && SignedValue(t) == n;
    }
  }

  /** A formatted integer is a sign and digits only. */
  lemma FormatIntChars(n: int)
    ensures forall i :: 0 <= i < |FormatInt(n)| ==> FormatInt(n)[i] == '-' || IsDigit(FormatInt(n)[i])
  {
    var t := FormatInt(n);
    if n < 0 {
      var d := Digits(-n);
      assert t == "-" + d;
      forall i | 0 <= i < |t| ensures t[i] == '-' || IsDigit(t[i]) {
        if i > 0 { assert t[i] == d[i - 1]; }
      }
    }
  }

  lemma FormatIntShape(n: int)
    ensures Trimmed(FormatInt(n))
    ensures forall i :: 0 <= i < |FormatInt(n)| ==> FormatInt(n)[i] !in PairChars
  {
    FormatIntChars(n);
    EdgesNotWhite(FormatInt(n));
  }

  lemma EdgesNotWhite(t: string)
    requires forall i :: 0 <= i < |t| ==> t[i] == '-' || IsDigit(t[i])
    ensures Trimmed(t)
  {
    if t != [] {
      assert t[0] == '-' || IsDigit(t[0]);
      assert t[|t| - 1] == '-' || IsDigit(t[|t| - 1]);
    }
  }

  // ---------------------------------------------------------------------------------------------
  // Enum.Parse as exact name lookup

  /** Enum.Parse(type, text): the member whose name is the text, an error when there is none. */
  function EnumParse(t: string, names: seq<string>): (r: Result<Value>)
    ensures r.Success? <==> t in names
    ensures r.Success? ==> r.value.EnumMember? && r.value.ordinal < |names| && names[r.value.ordinal] == t
    ensures r.Success? ==> forall j :: 0 <= j < r.value.ordinal ==> names[j] != t
    ensures r.Failure? ==> r.error == EnumNotFound
    decreases |names|
  {
    if names == [] then Failure(EnumNotFound)
    else if names[0] == t then Success(EnumMember(0))
    else
      match EnumParse(t, names[1..])
      case Success(EnumMember(i)) => Success(EnumMember(i + 1))
      case _ => Failure(EnumNotFound)
  }

  // ---------------------------------------------------------------------------------------------
  // User decoders

  /** The result of the first decoder that returns a value, in array order. */
  function FirstDecoded(decoders: seq<Decoder>, t: string, shape: Shape): Option<Value>
    decreases |decoders|
  {
    if decoders == [] then None
    else
      var res := decoders[0](t, shape);
      if res.Some? then res else FirstDecoded(decoders[1..], t, shape)
  }

  /** The decoder loop of CsvParser.Parse: asks each decoder in array order and stops at the first
      one that returns a value. */
  method RunDecoders(decoders: seq<Decoder>, t: string, shape: Shape) returns (r: Option<Value>)
    ensures r == FirstDecoded(decoders, t, shape)
  {
    var i := 0;
    while i < |decoders|
      invariant 0 <= i <= |decoders|
      invariant FirstDecoded(decoders, t, shape) == FirstDecoded(decoders[i..], t, shape)
    {
      var res := decoders[i](t, shape);
      assert decoders[i..][0] == decoders[i] && decoders[i..][1..] == decoders[i + 1..];
      if res.Some? {
        return res;
      }
      i := i + 1;
    }
    return None;
  }

  /** Some decoder answers exactly when FirstDecoded does, and its answer is the first one given. */
  lemma {:induction false} DecoderOrder(decoders: seq<Decoder>, t: string, shape: Shape)
    ensures FirstDecoded(decoders, t, shape).Some? <==> exists i :: 0 <= i < |decoders| && decoders[i](t, shape).Some?
    ensures FirstDecoded(decoders, t, shape).Some? ==>
      exists i :: 0 <= i < |decoders| && decoders[i](t, shape) == FirstDecoded(decoders, t, shape) &&
        forall j :: 0 <= j < i ==> decoders[j](t, shape).None?
    decreases |decoders|
  {
    if decoders != [] && decoders[0](t, shape).None? {
      var tail := decoders[1..];
      DecoderOrder(tail, t, shape);
      assert forall i :: 0 <= i < |tail| ==> tail[i] == decoders[i + 1];
      if FirstDecoded(tail, t, shape).Some? {
        var i :| 0 <= i < |tail| && tail[i](t, shape) == FirstDecoded(tail, t, shape) &&
          forall j :: 0 <= j < i ==> tail[j](t, shape).None?;
        assert decoders[i + 1](t, shape) == FirstDecoded(decoders, t, shape);
        forall j | 0 <= j < i + 1 ensures decoders[j](t, shape).None? {
          if j > 0 { assert decoders[j] == tail[j - 1]; }
        }
      } else {
        forall i | 0 <= i < |decoders| ensures decoders[i](t, shape).None? {
          if i > 0 { assert decoders[i] == tail[i - 1]; }
        }
      }
    }
  }

  // ---------------------------------------------------------------------------------------------
  // The dispatch chain

  /** CsvParser.Parse: the text is trimmed first, then dispatched on the target. */
  function Parse(text: string, shape: Shape, decoders: seq<Decoder>): Result<Value>
    decreases shape, 2
  {
    Dispatch(Trim(text), shape, decoders)
  }

  /** The dispatch chain on trimmed text: a string target takes the text, an enum looks the name
      up, a pair splits on the pair characters, and the other targets ask the decoders first and
      fall back to integer parsing or to the JSON reading of the quoted text. */
  function Dispatch(t: string, shape: Shape, decoders: seq<Decoder>): Result<Value>
    decreases shape, 1
  {
    match shape
    case Str => Success(Text(t))
    case Enum(names) => EnumParse(t, names)
    case Pair(k, v) => KeyValuePairOf(t, k, v, decoders)
    case _ =>
      var decoded := FirstDecoded(decoders, t, shape);
      if decoded.Some? then Success(decoded.value)
      else if shape.Int? then ParseInt32(t)
      else Success(Opaque(t))
  }

  /** CsvParser.TryGetKeyValuePair for a Key/Value struct: blank text gives a pair of defaults;
      otherwise piece 0 of the split is the key and piece 1 the value (further pieces are ignored),
      and a text without a pair character has no piece 1. */
  function KeyValuePairOf(t: string, k: Shape, v: Shape, decoders: seq<Decoder>): Result<Value>
    decreases Pair(k, v), 0
  {
    if IsBlank(t) then Success(KeyValue(Default(k), Default(v)))
    else
      var split := SplitAny(t, PairChars);
      var key :- Parse(split[0], k, decoders);
      if |split| < 2 then Failure(IndexOutOfRange)
      else
        var value :- Parse(split[1], v, decoders);
        Success(KeyValue(key, value))
  }

  // ---------------------------------------------------------------------------------------------
  // Properties

  /** Parse trims first: surrounding white space never changes the outcome. */
  lemma ParseTrimmed(text: string, shape: Shape, decoders: seq<Decoder>)
    ensures Parse(text, shape, decoders) == Parse(Trim(text), shape, decoders)
  {
    TrimIdempotent(text);
  }

  /** For integer and custom targets the first decoder that answers decides, before any built-in
      reading; an integer target nobody decodes is read by Int32 parsing. */
  lemma DecoderFirstWins(text: string, shape: Shape, decoders: seq<Decoder>, i: nat)
    requires !shape.Str? && !shape.Enum? && !shape.Pair?
    requires i < |decoders| && decoders[i](Trim(text), shape).Some?
    requires forall j :: 0 <= j < i ==> decoders[j](Trim(text), shape).None?
    ensures Parse(text, shape, decoders) == Success(decoders[i](Trim(text), shape).value)
  {
    FirstDecodedAt(decoders, Trim(text), shape, i);
    ParseDecoded(text, shape, decoders);
  }

  /** The unfolding of Parse for a target the decoders answer. */
  lemma ParseDecoded(text: string, shape: Shape, decoders: seq<Decoder>)
    requires !shape.Str? && !shape.Enum? && !shape.Pair?
    requires FirstDecoded(decoders, Trim(text), shape).Some?
    ensures Parse(text, shape, decoders) == Success(FirstDecoded(decoders, Trim(text), shape).value)
  {
  }

  lemma {:induction false} FirstDecodedAt(decoders: seq<Decoder>, t: string, shape: Shape, i: nat)
    requires i < |decoders| && decoders[i](t, shape).Some?
    requires forall j :: 0 <= j < i ==> decoders[j](t, shape).None?
    ensures FirstDecoded(decoders, t, shape) == decoders[i](t, shape)
    decreases i
  {
    if i > 0 {
      var tail := decoders[1..];
      assert decoders[0](t, shape).None?;
      forall j | 0 <= j < i - 1 ensures tail[j](t, shape).None? {
        assert tail[j] == decoders[j + 1];
      }
      assert tail[i - 1] == decoders[i];
      FirstDecodedAt(tail, t, shape, i - 1);
    }
  }

  /** With no decoder answering, an integer target is Int32 parsing of the trimmed text. */
  lemma NoDecoderInt(text: string, decoders: seq<Decoder>)
    requires forall j :: 0 <= j < |decoders| ==> decoders[j](Trim(text), Int).None?
    ensures Parse(text, Int, decoders) == ParseInt32(Trim(text))
  {
    var t := Trim(text);
    NoneDecoded(decoders, t, Int);
    assert Dispatch(t, Int, decoders) == ParseInt32(t);
  }

  /** When no decoder answers, FirstDecoded has no answer. */
  lemma {:induction false} NoneDecoded(decoders: seq<Decoder>, t: string, shape: Shape)
    requires forall j :: 0 <= j < |decoders| ==> decoders[j](t, shape).None?
    ensures FirstDecoded(decoders, t, shape).None?
    decreases |decoders|
  {
    if decoders != [] {
      assert decoders[0](t, shape).None?;
      var tail := decoders[1..];
      assert forall j :: 0 <= j < |tail| ==> tail[j] == decoders[j + 1];
      NoneDecoded(tail, t, shape);
    }
  }

  /** String, enum and pair-of-those targets are read before any decoder is consulted, so the
      decoders cannot change their outcome. */
  lemma {:induction false} DecodersIgnored(text: string, shape: Shape, decoders: seq<Decoder>)
    requires DecoderFree(shape)
    ensures Parse(text, shape, decoders) == Parse(text, shape, [])
    decreases shape, 1
  {
    if shape.Pair? {
      var k, v := shape.key, shape.value;
      PairDecodersIgnored(Trim(text), k, v, decoders);
      assert Parse(text, shape, decoders) == KeyValuePairOf(Trim(text), k, v, decoders);
      assert Parse(text, shape, []) == KeyValuePairOf(Trim(text), k, v, []);
    }
  }

  lemma {:induction false} PairDecodersIgnored(t: string, k: Shape, v: Shape, decoders: seq<Decoder>)
    requires DecoderFree(k) && DecoderFree(v)
    ensures KeyValuePairOf(t, k, v, decoders) == KeyValuePairOf(t, k, v, [])
    decreases Pair(k, v), 0
  {
    if !IsBlank(t) {
      var split := SplitAny(t, PairChars);
      DecodersIgnored(split[0], k, decoders);
      var key := Parse(split[0], k, []);
      if key.Failure? {
        assert KeyValuePairOf(t, k, v, decoders) == Failure(key.error);
        assert KeyValuePairOf(t, k, v, []) == Failure(key.error);
      } else if |split| < 2 {
        assert KeyValuePairOf(t, k, v, decoders) == Failure(IndexOutOfRange);
        assert KeyValuePairOf(t, k, v, []) == Failure(IndexOutOfRange);
      } else {
        DecodersIgnored(split[1], v, decoders);
        var value := Parse(split[1], v, []);
        if value.Failure? {
          assert KeyValuePairOf(t, k, v, decoders) == Failure(value.error);
          assert KeyValuePairOf(t, k, v, []) == Failure(value.error);
        } else {
          assert KeyValuePairOf(t, k, v, decoders) == Success(KeyValue(key.value, value.value));
          assert KeyValuePairOf(t, k, v, []) == Success(KeyValue(key.value, value.value));
        }
      }
    }
  }

  /** Under decoders that respect shapes, a parsed value has the shape it was parsed as. */
  lemma {:induction false} ParseHasShape(text: string, shape: Shape, decoders: seq<Decoder>)
    requires WellTyped(decoders)
    requires Parse(text, shape, decoders).Success?
    ensures HasShape(Parse(text, shape, decoders).value, shape)
    decreases shape, 1
  {
    var t := Trim(text);
    if shape.Pair? {
      var k, v := shape.key, shape.value;
      assert Parse(text, shape, decoders) == KeyValuePairOf(t, k, v, decoders);
      PairHasShape(t, k, v, decoders);
    } else if !shape.Str? && !shape.Enum? {
      DecodedHasShape(t, shape, decoders);
    }
  }

  lemma {:induction false} PairHasShape(t: string, k: Shape, v: Shape, decoders: seq<Decoder>)
    requires WellTyped(decoders)
    requires KeyValuePairOf(t, k, v, decoders).Success?
    ensures HasShape(KeyValuePairOf(t, k, v, decoders).value, Pair(k, v))
    decreases Pair(k, v), 0
  {
    if IsBlank(t) {
      DefaultHasShape(k);
      DefaultHasShape(v);
    } else {
      var split := SplitAny(t, PairChars);
      ParseHasShape(split[0], k, decoders);
      ParseHasShape(split[1], v, decoders);
    }
  }

  lemma DecodedHasShape(t: string, shape: Shape, decoders: seq<Decoder>)
    requires WellTyped(decoders)
    requires !shape.Str? && !shape.Enum? && !shape.Pair?
    requires Dispatch(t, shape, decoders).Success?
    ensures HasShape(Dispatch(t, shape, decoders).value, shape)
  {
    DecoderOrder(decoders, t, shape);
    if FirstDecoded(decoders, t, shape).Some? {
      var i :| 0 <= i < |decoders| && decoders[i](t, shape) == FirstDecoded(decoders, t, shape) &&
        forall j :: 0 <= j < i ==> decoders[j](t, shape).None?;
      assert HasShape(decoders[i](t, shape).value, shape);
    }
  }

  // ---------------------------------------------------------------------------------------------
  // Round trip: the cell text written for a value reads back as that value

  /** The cell text for a value: a string as it stands, an enum member by name, an integer in decimal,
      a pair as key ':' value. */
  function Render(v: Value, shape: Shape): string
    decreases shape
  {
    match shape
    case Str => if v.Text? then v.s else ""
    case Enum(names) => if v.EnumMember? && v.ordinal < |names| then names[v.ordinal] else ""
    case Int => if v.Int32? then FormatInt(v.n) else ""
    case Pair(k, w) => if v.KeyValue? then Render(v.key, k) + ":" + Render(v.value, w) else ""
    case Custom(_) => ""
  }

  /** Values that survive rendering: untrimmable strings and names, a member that is the first of
      its name, a 32-bit integer, and a pair of non-pair parts free of pair characters. */
  predicate Renderable(v: Value, shape: Shape)
    decreases shape
  {
    match shape
    case Str => v.Text? && Trimmed(v.s)
    case Enum(names) =>
      && v.EnumMember? && v.ordinal < |names| && Trimmed(names[v.ordinal])
      && forall j :: 0 <= j < v.ordinal ==> names[j] != names[v.ordinal]
    case Int => v.Int32? && MinInt32 <= v.n <= MaxInt32
    case Pair(k, w) =>
      && v.KeyValue? && !k.Pair? && !w.Pair?
      && Renderable(v.key, k) && Renderable(v.value, w)
      && (forall i :: 0 <= i < |Render(v.key, k)| ==> Render(v.key, k)[i] !in PairChars)
      && (forall i :: 0 <= i < |Render(v.value, w)| ==> Render(v.value, w)[i] !in PairChars)
    case Custom(_) => false
  }

  lemma RenderTrimmed(v: Value, shape: Shape)
    requires Renderable(v, shape)
    ensures Trimmed(Render(v, shape))
  {
    if shape.Int? {
      FormatIntShape(v.n);
    } else if shape.Pair? {
      var k, w := shape.key, shape.value;
      var a, b := Render(v.key, k), Render(v.value, w);
      RenderTrimmed(v.key, k);
      RenderTrimmed(v.value, w);
      PairTextTrimmed(a, b);
    }
  }

  lemma PairTextTrimmed(a: string, b: string)
    requires Trimmed(a) && Trimmed(b)
    ensures Trimmed(a + ":" + b)
  {
    var s := a + [':'] + b;
    assert a + ":" + b == s;
    if a == [] {
      assert s[0] == ':';
    } else {
      assert s[0] == a[0];
    }
    if b == [] {
      assert s[|s| - 1] == ':';
    } else {
      assert s[|s| - 1] == b[|b| - 1];
    }
  }

  /** Without decoders, parsing the rendering of a renderable value gives the value back. */
  lemma {:induction false} ParseRender(v: Value, shape: Shape)
    requires Renderable(v, shape)
    ensures Parse(Render(v, shape), shape, []) == Success(v)
    decreases shape
  {
    if shape.Pair? {
      ParseRender(v.key, shape.key);
      ParseRender(v.value, shape.value);
      ParseRenderPair(v, shape.key, shape.value);
    } else {
      ParseRenderLeaf(v, shape);
    }
  }

  /** A value of a shape other than a pair reads back from its text. */
  lemma ParseRenderLeaf(v: Value, shape: Shape)
    requires Renderable(v, shape) && !shape.Pair?
    ensures Parse(Render(v, shape), shape, []) == Success(v)
  {
    match shape
    case Int =>
      assert Render(v, Int) == FormatInt(v.n);
      ParseRenderInt(v);
    case Str =>
      assert Render(v, Str) == v.s;
      TrimNoop(v.s);
      assert Parse(v.s, Str, []) == Success(Text(v.s));
    case Enum(names) =>
      assert Render(v, shape) == names[v.ordinal];
      ParseRenderEnum(v, names);
  }

  lemma ParseRenderInt(v: Value)
    requires v.Int32? && MinInt32 <= v.n <= MaxInt32
    ensures Parse(FormatInt(v.n), Int, []) == Success(v)
  {
    var t := FormatInt(v.n);
    ParseFormatInt(v.n);
    FormatIntTrimmed(v.n);
    ParseIntTrimmed(t);
  }

  lemma FormatIntTrimmed(n: int)
    ensures Trimmed(FormatInt(n))
  {
    FormatIntShape(n);
  }

  lemma ParseRenderEnum(v: Value, names: seq<string>)
    requires Renderable(v, Enum(names))
    ensures Parse(names[v.ordinal], Enum(names), []) == Success(v)
  {
    TrimNoop(names[v.ordinal]);
    var r := EnumParse(names[v.ordinal], names);
    assert r.Success?;
  }

  /** A pair reads back from its text when its key and its value do. */
  lemma ParseRenderPair(v: Value, k: Shape, w: Shape)
    requires Renderable(v, Pair(k, w))
    requires Parse(Render(v.key, k), k, []) == Success(v.key)
    requires Parse(Render(v.value, w), w, []) == Success(v.value)
    ensures Parse(Render(v, Pair(k, w)), Pair(k, w), []) == Success(v)
  {
    var a, b := Render(v.key, k), Render(v.value, w);
    var t := Render(v, Pair(k, w));
    assert t == a + ":" + b;
    PairTextSplit(a, b);
    RenderTrimmed(v, Pair(k, w));
    TrimNoop(t);
    assert Parse(t, Pair(k, w), []) == KeyValuePairOf(t, k, w, []);
    assert KeyValuePairOf(t, k, w, []) == Success(KeyValue(v.key, v.value));
  }

  /** A key and a value free of pair characters, joined by ':', split back into the two. */
  lemma PairTextSplit(a: string, b: string)
    requires forall i :: 0 <= i < |a| ==> a[i] !in PairChars
    requires forall i :: 0 <= i < |b| ==> b[i] !in PairChars
    ensures SplitAny(a + ":" + b, PairChars) == [a, b] && !IsBlank(a + ":" + b)
  {
    var t := a + ":" + b;
    assert t[|a|] == ':';
    assert t == Join([a, b], ':');
    JoinSplitAny([a, b], ':', PairChars);
  }

  /** The integer readings pinned by the engine's tests: "1" is 1 and "1.1f" is a format error. */
  lemma ParseIntExamples(one: string, point: string)
    requires one == "1" && point == "1.1f"
    ensures Parse(one, Int, []) == Success(Int32(1))
    ensures Parse(point, Int, []) == Failure(FormatError)
  {
    ParseOne(one);
    ParseDecimalPoint(point);
  }

  /** Without decoders, a trimmed text is read as an integer by Int32 conversion. */
  lemma ParseIntTrimmed(t: string)
    requires Trimmed(t)
    ensures Parse(t, Int, []) == ParseInt32(t)
  {
    TrimNoop(t);
    assert FirstDecoded([], t, Int).None?;
    assert Dispatch(t, Int, []) == ParseInt32(t);
  }

  lemma ParseOne(t: string)
    requires |t| == 1 && t[0] == '1'
    ensures Parse(t, Int, []) == Success(Int32(1))
  {
    ParseIntTrimmed(t);
    Int32One(t);
  }

  lemma Int32One(t: string)
    requires |t| == 1 && t[0] == '1'
    ensures ParseInt32(t) == Success(Int32(1))
  {
    assert AllDigits(t) && t[..0] == [];
    assert SignedValue(t) == DigitsValue(t) == 1;
  }

  lemma ParseDecimalPoint(t: string)
    requires |t| == 4 && t[0] == '1' && t[1] == '.' && t[3] == 'f'
    ensures Parse(t, Int, []) == Failure(FormatError)
  {
    ParseIntTrimmed(t);
    assert !IsDigit(t[1]);
  }
}
