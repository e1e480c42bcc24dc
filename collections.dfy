/** CsvParser.ArrayParse and DictionaryParse: a cell holding several values. */
module Collections {
  import opened Errors
  import opened Text
  import opened Shapes
  import opened ScalarParser

  /** CsvParser.ArraySplitChars. */
  const ArrayChars: set<char> := {',', '(', ')', '[', ']', '{', '}'}

  /** data.Split(ArraySplitChars, StringSplitOptions.RemoveEmptyEntries). */
  function Pieces(data: string): seq<string> {
    NonEmpty(SplitAny(data, ArrayChars))
  }

  // ---------------------------------------------------------------------------------------------
  // ArrayParse

  /** Parse applied to one element type with fixed decoders. */
  type Reader = string -> Result<Value>

  function ReaderOf(shape: Shape, decoders: seq<Decoder>): Reader {
    t => Parse(t, shape, decoders)
  }

  /** Reads the pieces left to right; the first failing piece decides the error. */
  function ParseAll(pieces: seq<string>, read: Reader): Result<seq<Value>>
    decreases |pieces|
  {
    if pieces == [] then Success([])
    else
      var init :- ParseAll(pieces[..|pieces| - 1], read);
      var last :- read(pieces[|pieces| - 1]);
      Success(init + [last])
  }

  /** What ArrayParse computes: the list of the parsed pieces. */
  function ArrayOf(data: string, shape: Shape, decoders: seq<Decoder>): Result<Value> {
    var items :- ParseAll(Pieces(data), ReaderOf(shape, decoders));
    Success(List(items))
  }

  /** ParseAll succeeds exactly when every piece parses, with one value per piece in order; otherwise
      its error is that of the first piece that fails. */
  lemma {:induction false} ParseAllSpec(pieces: seq<string>, read: Reader)
    ensures ParseAll(pieces, read).Success? <==> forall i :: 0 <= i < |pieces| ==> read(pieces[i]).Success?
    ensures ParseAll(pieces, read).Success? ==>
      |ParseAll(pieces, read).value| == |pieces| &&
      forall i :: 0 <= i < |pieces| ==> ParseAll(pieces, read).value[i] == read(pieces[i]).value
    ensures ParseAll(pieces, read).Failure? ==>
      exists i :: 0 <= i < |pieces| && read(pieces[i]).Failure? &&
        ParseAll(pieces, read).error == read(pieces[i]).error &&
        forall j :: 0 <= j < i ==> read(pieces[j]).Success?
    decreases |pieces|
  {
    if pieces != [] {
      var n := |pieces| - 1;
      var init := pieces[..n];
      ParseAllSpec(init, read);
      assert forall i :: 0 <= i < n ==> init[i] == pieces[i];
      if ParseAll(init, read).Failure? {
        var i :| 0 <= i < n && read(init[i]).Failure? && ParseAll(init, read).error == read(init[i]).error &&
          forall j :: 0 <= j < i ==> read(init[j]).Success?;
        assert read(pieces[i]).Failure?;
      }
    }
  }

  /** Once a prefix of the pieces fails, the whole list fails the same way. */
  lemma {:induction false} ParseAllFailExtends(pieces: seq<string>, m: nat, read: Reader)
    requires m <= |pieces| && ParseAll(pieces[..m], read).Failure?
    ensures ParseAll(pieces, read) == ParseAll(pieces[..m], read)
    decreases |pieces|
  {
    if m < |pieces| {
      var n := |pieces| - 1;
      assert pieces[..n][..m] == pieces[..m];
      ParseAllFailExtends(pieces[..n], m, read);
    } else {
      assert pieces[..m] == pieces;
    }
  }

  /** CsvParser.ArrayParse: splits on the array characters, drops empty pieces and appends each
      parsed piece to a fresh list. */
  method ArrayParse(data: string, shape: Shape, decoders: seq<Decoder>) returns (r: Result<Value>)
    ensures r == ArrayOf(data, shape, decoders)
  {
    var items := ReadEach(Pieces(data), ReaderOf(shape, decoders));
    if items.Failure? {
      return Failure(items.error);
    }
    return Success(List(items.value));
  }

  /** The loop of ArrayParse: reads the pieces in order and stops at the first failure. */
  method ReadEach(pieces: seq<string>, read: Reader) returns (r: Result<seq<Value>>)
    ensures r == ParseAll(pieces, read)
  {
    var list: seq<Value> := [];
    var k := 0;
    while k < |pieces|
      invariant 0 <= k <= |pieces|
      invariant ParseAll(pieces[..k], read) == Success(list)
    {
      assert pieces[..k + 1][..k] == pieces[..k];
      var value := read(pieces[k]);
      if value.Failure? {
        ParseAllFailExtends(pieces, k + 1, read);
        return Failure(value.error);
      }
      list := list + [value.value];
      k := k + 1;
    }
    assert pieces[..k] == pieces;
    return Success(list);
  }

  /** An array character ends the piece before it: the pieces of `x + [c] + y` are those of `x`
      followed by those of `y`, so brackets and commas separate alike and empty pieces vanish. */
  lemma PiecesAtDelim(x: string, c: char, y: string)
    requires c in ArrayChars
    ensures Pieces(x + [c] + y) == Pieces(x) + Pieces(y)
  {
    SplitAnyAtDelim(x, c, y, ArrayChars);
    NonEmptyAppend(SplitAny(x, ArrayChars), SplitAny(y, ArrayChars));
  }

  /** A non-empty text without array characters is one piece. */
  lemma PiecesWord(w: string)
    requires w != [] && forall i :: 0 <= i < |w| ==> w[i] !in ArrayChars
    ensures Pieces(w) == [w]
  {
    SplitAnyWord(w, ArrayChars);
    assert [w][1..] == [];
    assert NonEmpty([w]) == [w] + NonEmpty([]);
  }

  /** The engine's test case: "1,[2],{3,4},(5),6" read as integers is 1 to 6. */
  lemma ArrayExample(data: string)
    requires data == "1,[2],{3,4},(5),6"
    ensures ArrayOf(data, Int, []) == Success(List([Int32(1), Int32(2), Int32(3), Int32(4), Int32(5), Int32(6)]))
  {
    assert ArrayText(data);
    ArrayTextRead(data);
  }

  /** "1,[2],{3,4},(5),6", character by character. */
  predicate ArrayText(s: string) {
    && |s| == 17
    && s[0] == '1' && s[1] == ',' && s[2] == '[' && s[3] == '2' && s[4] == ']' && s[5] == ','
    && s[6] == '{' && s[7] == '3' && s[8] == ',' && s[9] == '4' && s[10] == '}' && s[11] == ','
    && s[12] == '(' && s[13] == '5' && s[14] == ')' && s[15] == ',' && s[16] == '6'
  }

  lemma ArrayTextRead(data: string)
    requires ArrayText(data)
    ensures ArrayOf(data, Int, []) == Success(List([Int32(1), Int32(2), Int32(3), Int32(4), Int32(5), Int32(6)]))
  {
    PiecesOfArrayText(data);
    var pieces := Pieces(data);
    DigitText(pieces[0], 1);
    DigitText(pieces[1], 2);
    DigitText(pieces[2], 3);
    DigitText(pieces[3], 4);
    DigitText(pieces[4], 5);
    DigitText(pieces[5], 6);
    ReadSix(pieces, ReaderOf(Int, []));
  }

  /** Six pieces each reading as its position plus one read as the list 1 to 6. */
  lemma ReadSix(pieces: seq<string>, read: Reader)
    requires |pieces| == 6
    requires read(pieces[0]) == Success(Int32(1)) && read(pieces[1]) == Success(Int32(2))
    requires read(pieces[2]) == Success(Int32(3)) && read(pieces[3]) == Success(Int32(4))
    requires read(pieces[4]) == Success(Int32(5)) && read(pieces[5]) == Success(Int32(6))
    ensures ParseAll(pieces, read) == Success([Int32(1), Int32(2), Int32(3), Int32(4), Int32(5), Int32(6)])
  {
    ParseAllSpec(pieces, read);
    var items := ParseAll(pieces, read).value;
    assert |items| == 6;
    assert items[0] == Int32(1) && items[1] == Int32(2) && items[2] == Int32(3);
    assert items[3] == Int32(4) && items[4] == Int32(5) && items[5] == Int32(6);
    assert items == [Int32(1), Int32(2), Int32(3), Int32(4), Int32(5), Int32(6)];
  }

  /** An array character at the front of a suffix adds no piece. */
  lemma PiecesSkip(s: string, k: nat)
    requires k < |s| && s[k] in ArrayChars
    ensures Pieces(s[k..]) == Pieces(s[k + 1..])
  {
    assert s[k..] == [] + [s[k]] + s[k + 1..];
    PiecesAtDelim([], s[k], s[k + 1..]);
    PiecesEmpty();
  }

  /** A suffix that starts with a word ended by an array character: that word is its first piece. */
  lemma PiecesTake(s: string, k: nat, n: nat)
    requires k < n < |s| && s[n] in ArrayChars
    requires forall i :: k <= i < n ==> s[i] !in ArrayChars
    ensures Pieces(s[k..]) == [s[k..n]] + Pieces(s[n + 1..])
  {
    assert s[k..] == s[k..n] + [s[n]] + s[n + 1..];
    PiecesAtDelim(s[k..n], s[n], s[n + 1..]);
    PiecesWord(s[k..n]);
  }

  /** The six pieces of the array test text are its six digits. */
  lemma PiecesOfArrayText(data: string)
    requires ArrayText(data)
    ensures |Pieces(data)| == 6
    ensures Pieces(data)[0] == [data[0]] && Pieces(data)[1] == [data[3]] && Pieces(data)[2] == [data[7]]
    ensures Pieces(data)[3] == [data[9]] && Pieces(data)[4] == [data[13]] && Pieces(data)[5] == [data[16]]
  {
    PiecesFront(data);
    PiecesBack(data);
    assert data[0..] == data;
    assert data[16..] == data[16..17];
  }

  lemma PiecesFront(data: string)
    requires ArrayText(data)
    ensures Pieces(data[0..]) == [data[0..1], data[3..4]] + Pieces(data[7..])
  {
    PiecesTake(data, 0, 1);
    PiecesSkip(data, 2);
    PiecesTake(data, 3, 4);
    PiecesSkip(data, 5);
    PiecesSkip(data, 6);
  }

  lemma PiecesBack(data: string)
    requires ArrayText(data)
    ensures Pieces(data[7..]) == [data[7..8], data[9..10], data[13..14], data[16..]]
  {
    PiecesTake(data, 7, 8);
    PiecesTake(data, 9, 10);
    PiecesTail(data);
  }

  lemma PiecesTail(data: string)
    requires ArrayText(data)
    ensures Pieces(data[11..]) == [data[13..14], data[16..]]
  {
    PiecesSkip(data, 11);
    PiecesSkip(data, 12);
    PiecesTake(data, 13, 14);
    PiecesSkip(data, 15);
    PiecesWord(data[16..]);
  }

  /** A one-digit text reads as that digit. */
  lemma DigitText(t: string, d: nat)
    requires 1 <= d <= 9 && t == [('0' as int + d) as char]
    ensures Parse(t, Int, []) == Success(Int32(d))
  {
    assert Digits(d) == t;
    FormatIntShape(d);
    ParseIntTrimmed(t);
    ParseFormatInt(d);
  }

  // ---------------------------------------------------------------------------------------------
  // DictionaryParse

  /** ArrayParse<string>: the pieces, each trimmed. */
  function Items(text: string): (items: seq<string>)
    ensures |items| == |Pieces(text)|
  {
    var pieces := Pieces(text);
    seq(|pieces|, i requires 0 <= i < |pieces| => Trim(pieces[i]))
  }

  /** The strings a list of string values holds. */
  function StringsOf(values: seq<Value>): (r: seq<string>)
    ensures |r| == |values|
  {
    seq(|values|, i requires 0 <= i < |values| => if values[i].Text? then values[i].s else "")
  }

  /** Reading a text as a list of strings never fails and gives its trimmed pieces. */
  lemma ArrayOfStr(text: string, decoders: seq<Decoder>)
    ensures ArrayOf(text, Str, decoders).Success?
    ensures ArrayOf(text, Str, decoders).value.List?
    ensures StringsOf(ArrayOf(text, Str, decoders).value.items) == Items(text)
  {
    var pieces := Pieces(text);
    var read := ReaderOf(Str, decoders);
    forall i | 0 <= i < |pieces| ensures read(pieces[i]) == Success(Text(Trim(pieces[i]))) {
      assert Dispatch(Trim(pieces[i]), Str, decoders) == Success(Text(Trim(pieces[i])));
    }
    ParseAllSpec(pieces, read);
    var values := ParseAll(pieces, read).value;
    forall i | 0 <= i < |values| ensures StringsOf(values)[i] == Items(text)[i] {
      assert values[i] == read(pieces[i]).value;
    }
    assert StringsOf(values) == Items(text);
  }

  /** The keys of the entries added so far. */
  function KeysOf(entries: seq<(Value, Value)>): set<Value> {
    set i | 0 <= i < |entries| :: entries[i].0
  }

  /** IDictionary.Add: an ArgumentException for a key already present. */
  function AddEntry(entries: seq<(Value, Value)>, key: Value, value: Value): Result<seq<(Value, Value)>> {
    if key in KeysOf(entries) then Failure(DuplicateKey) else Success(entries + [(key, value)])
  }

  /** One item of the pair layout: piece 0 of its split is the key and piece 1 the value. */
  function PairItem(item: string, readKey: Reader, readValue: Reader): Result<(Value, Value)> {
    var split := SplitAny(item, PairChars);
    var key :- readKey(split[0]);
    if |split| < 2 then Failure(IndexOutOfRange)
    else
      var value :- readValue(split[1]);
      Success((key, value))
  }

  /** An item that reads has at least two pieces, and its entry is the key read from the first and
      the value read from the second. */
  lemma PairItemSuccess(item: string, readKey: Reader, readValue: Reader)
    requires PairItem(item, readKey, readValue).Success?
    ensures |SplitAny(item, PairChars)| >= 2
    ensures readKey(SplitAny(item, PairChars)[0]).Success? && readValue(SplitAny(item, PairChars)[1]).Success?
    ensures PairItem(item, readKey, readValue).value ==
      (readKey(SplitAny(item, PairChars)[0]).value, readValue(SplitAny(item, PairChars)[1]).value)
  {
    var split := SplitAny(item, PairChars);
    assert readKey(split[0]).Success?;
  }

  /** The pair layout: every item is one entry, in order. */
  function PairEntries(items: seq<string>, readKey: Reader, readValue: Reader): Result<seq<(Value, Value)>>
    decreases |items|
  {
    if items == [] then Success([])
    else
      var init :- PairEntries(items[..|items| - 1], readKey, readValue);
      var entry :- PairItem(items[|items| - 1], readKey, readValue);
      AddEntry(init, entry.0, entry.1)
  }

  /** The flat layout: items 2j and 2j + 1 are the key and value of entry j. */
  function FlatEntries(items: seq<string>, readKey: Reader, readValue: Reader): Result<seq<(Value, Value)>>
    requires |items| % 2 == 0
    decreases |items|
  {
    if items == [] then Success([])
    else
      var n := |items|;
      var init :- FlatEntries(items[..n - 2], readKey, readValue);
      var key :- readKey(items[n - 2]);
      var value :- readValue(items[n - 1]);
      AddEntry(init, key, value)
  }

  /** What DictionaryParse computes: null for a text with no items; the pair layout when the first
      item holds a pair character; otherwise an odd number of items is an error and an even number
      pairs them up. */
  function DictionaryOf(text: string, k: Shape, v: Shape, decoders: seq<Decoder>): Result<Value> {
    var items := Items(text);
    var readKey, readValue := ReaderOf(k, decoders), ReaderOf(v, decoders);
    if items == [] then Success(Null)
    else if ContainsAny(items[0], PairChars) then
      var entries :- PairEntries(items, readKey, readValue);
      Success(Dict(entries))
    else if |items| % 2 == 1 then Failure(IndexOutOfRange)
    else
      var entries :- FlatEntries(items, readKey, readValue);
      Success(Dict(entries))
  }

  lemma {:induction false} PairFailExtends(items: seq<string>, m: nat, readKey: Reader, readValue: Reader)
    requires m <= |items| && PairEntries(items[..m], readKey, readValue).Failure?
    ensures PairEntries(items, readKey, readValue) == PairEntries(items[..m], readKey, readValue)
    decreases |items|
  {
    if m < |items| {
      var n := |items| - 1;
      assert items[..n][..m] == items[..m];
      PairFailExtends(items[..n], m, readKey, readValue);
    } else {
      assert items[..m] == items;
    }
  }

  lemma {:induction false} FlatFailExtends(items: seq<string>, m: nat, readKey: Reader, readValue: Reader)
    requires |items| % 2 == 0 && m % 2 == 0 && m <= |items|
    requires FlatEntries(items[..m], readKey, readValue).Failure?
    ensures FlatEntries(items, readKey, readValue) == FlatEntries(items[..m], readKey, readValue)
    decreases |items|
  {
    if m < |items| {
      var n := |items| - 2;
      assert items[..n][..m] == items[..m];
      FlatFailExtends(items[..n], m, readKey, readValue);
    } else {
      assert items[..m] == items;
    }
  }

  /** No key occurs twice. */
  predicate DistinctKeys(entries: seq<(Value, Value)>) {
    forall i, j :: 0 <= i < j < |entries| ==> entries[i].0 != entries[j].0
  }

  /** Adding an entry keeps the keys distinct, and fails exactly on a key already present. */
  lemma AddEntryDistinct(entries: seq<(Value, Value)>, key: Value, value: Value)
    requires DistinctKeys(entries)
    ensures AddEntry(entries, key, value).Success? <==> forall i :: 0 <= i < |entries| ==> entries[i].0 != key
    ensures AddEntry(entries, key, value).Success? ==> DistinctKeys(AddEntry(entries, key, value).value)
  {
    if key in KeysOf(entries) {
      var i :| 0 <= i < |entries| && entries[i].0 == key;
    }
  }

  /** The pair layout succeeds exactly when every item reads as a pair and no key repeats; the
      dictionary then holds one entry per item, in order. */
  lemma PairEntriesSpec(items: seq<string>, readKey: Reader, readValue: Reader)
    ensures PairEntries(items, readKey, readValue).Success? ==>
      var e := PairEntries(items, readKey, readValue).value;
      |e| == |items| && DistinctKeys(e) &&
      forall j :: 0 <= j < |items| ==> PairItem(items[j], readKey, readValue) == Success(e[j])
    ensures (forall j :: 0 <= j < |items| ==> PairItem(items[j], readKey, readValue).Success?) &&
      (forall i, j :: 0 <= i < j < |items| ==>
        PairItem(items[i], readKey, readValue).value.0 != PairItem(items[j], readKey, readValue).value.0)
      ==> PairEntries(items, readKey, readValue).Success?
  {
    PairEntriesSound(items, readKey, readValue);
    if (forall j :: 0 <= j < |items| ==> PairItem(items[j], readKey, readValue).Success?) &&
      (forall i, j :: 0 <= i < j < |items| ==>
        PairItem(items[i], readKey, readValue).value.0 != PairItem(items[j], readKey, readValue).value.0)
    {
      PairEntriesComplete(items, readKey, readValue);
    }
  }

  /** A pair-layout dictionary that reads holds, as entry j, item j read, with distinct keys. */
  lemma {:induction false} PairEntriesSound(items: seq<string>, readKey: Reader, readValue: Reader)
    ensures PairEntries(items, readKey, readValue).Success? ==>
      var e := PairEntries(items, readKey, readValue).value;
      |e| == |items| && DistinctKeys(e) &&
      forall j :: 0 <= j < |items| ==> PairItem(items[j], readKey, readValue) == Success(e[j])
    decreases |items|
  {
    if items != [] {
      var n := |items| - 1;
      var init := items[..n];
      PairEntriesSound(init, readKey, readValue);
      assert forall j :: 0 <= j < n ==> init[j] == items[j];
      var r := PairEntries(init, readKey, readValue);
      var last := PairItem(items[n], readKey, readValue);
      if r.Success? && last.Success? {
        AddEntryDistinct(r.value, last.value.0, last.value.1);
      }
    }
  }

  /** Items that all read as pairs, with no key read twice, always make a dictionary. */
  lemma {:induction false} PairEntriesComplete(items: seq<string>, readKey: Reader, readValue: Reader)
    requires forall j :: 0 <= j < |items| ==> PairItem(items[j], readKey, readValue).Success?
    requires forall i, j :: 0 <= i < j < |items| ==>
      PairItem(items[i], readKey, readValue).value.0 != PairItem(items[j], readKey, readValue).value.0
    ensures PairEntries(items, readKey, readValue).Success?
    decreases |items|
  {
    if items != [] {
      var n := |items| - 1;
      var init := items[..n];
      forall j | 0 <= j < n ensures PairItem(init[j], readKey, readValue).Success? {
        assert init[j] == items[j];
      }
      forall i, j | 0 <= i < j < n
        ensures PairItem(init[i], readKey, readValue).value.0 != PairItem(init[j], readKey, readValue).value.0
      {
        assert init[i] == items[i] && init[j] == items[j];
      }
      PairEntriesComplete(init, readKey, readValue);
      PairEntriesSound(init, readKey, readValue);
      var r := PairEntries(init, readKey, readValue).value;
      var last := PairItem(items[n], readKey, readValue).value;
      forall i | 0 <= i < |r| ensures r[i].0 != last.0 {
        assert init[i] == items[i];
        assert PairItem(items[i], readKey, readValue) == Success(r[i]);
      }
      AddEntryDistinct(r, last.0, last.1);
    }
  }

  /** The flat layout succeeds exactly when every item reads (even ones as keys, odd ones as values)
      and no key repeats; entry j then pairs items 2j and 2j + 1. */
  lemma FlatEntriesSpec(items: seq<string>, readKey: Reader, readValue: Reader)
    requires |items| % 2 == 0
    ensures FlatEntries(items, readKey, readValue).Success? ==>
      var e := FlatEntries(items, readKey, readValue).value;
      2 * |e| == |items| && DistinctKeys(e) &&
      forall j :: 0 <= j < |e| ==>
        readKey(items[2 * j]) == Success(e[j].0) && readValue(items[2 * j + 1]) == Success(e[j].1)
    ensures (forall j :: 0 <= j < |items| ==> (if j % 2 == 0 then readKey(items[j]) else readValue(items[j])).Success?) &&
      (forall i, j :: 0 <= i < j < |items| / 2 ==> readKey(items[2 * i]).value != readKey(items[2 * j]).value)
      ==> FlatEntries(items, readKey, readValue).Success?
  {
    FlatEntriesSound(items, readKey, readValue);
    if (forall j :: 0 <= j < |items| ==> (if j % 2 == 0 then readKey(items[j]) else readValue(items[j])).Success?) &&
      (forall i, j :: 0 <= i < j < |items| / 2 ==> readKey(items[2 * i]).value != readKey(items[2 * j]).value)
    {
      FlatEntriesComplete(items, readKey, readValue);
    }
  }

  /** A flat dictionary that reads holds, as entry j, items 2j and 2j + 1 read, with distinct keys. */
  lemma {:induction false} FlatEntriesSound(items: seq<string>, readKey: Reader, readValue: Reader)
    requires |items| % 2 == 0
    ensures FlatEntries(items, readKey, readValue).Success? ==>
      var e := FlatEntries(items, readKey, readValue).value;
      2 * |e| == |items| && DistinctKeys(e) &&
      forall j :: 0 <= j < |e| ==>
        readKey(items[2 * j]) == Success(e[j].0) && readValue(items[2 * j + 1]) == Success(e[j].1)
    decreases |items|
  {
    if items != [] {
      var n := |items| - 2;
      var init := items[..n];
      FlatEntriesSound(init, readKey, readValue);
      assert forall j :: 0 <= j < n ==> init[j] == items[j];
      var r := FlatEntries(init, readKey, readValue);
      var key, value := readKey(items[n]), readValue(items[n + 1]);
      if r.Success? && key.Success? && value.Success? {
        AddEntryDistinct(r.value, key.value, value.value);
      }
    }
  }

  /** Items that all read, with no key read twice, always make a flat dictionary. */
  lemma {:induction false} FlatEntriesComplete(items: seq<string>, readKey: Reader, readValue: Reader)
    requires |items| % 2 == 0
    requires forall j :: 0 <= j < |items| ==> (if j % 2 == 0 then readKey(items[j]) else readValue(items[j])).Success?
    requires forall i, j :: 0 <= i < j < |items| / 2 ==> readKey(items[2 * i]).value != readKey(items[2 * j]).value
    ensures FlatEntries(items, readKey, readValue).Success?
    decreases |items|
  {
    if items != [] {
      var n := |items| - 2;
      var init := items[..n];
      forall j | 0 <= j < n ensures (if j % 2 == 0 then readKey(init[j]) else readValue(init[j])).Success? {
        assert init[j] == items[j];
      }
      forall i, j | 0 <= i < j < n / 2 ensures readKey(init[2 * i]).value != readKey(init[2 * j]).value {
        assert init[2 * i] == items[2 * i] && init[2 * j] == items[2 * j];
      }
      FlatEntriesComplete(init, readKey, readValue);
      FlatEntriesSound(init, readKey, readValue);
      var r := FlatEntries(init, readKey, readValue).value;
      assert n % 2 == 0 && (n + 1) % 2 == 1 && 2 * (n / 2) == n;
      var key, value := readKey(items[n]), readValue(items[n + 1]);
      assert key.Success? && value.Success?;
      forall i | 0 <= i < |r| ensures r[i].0 != key.value {
        assert init[2 * i] == items[2 * i];
        assert readKey(items[2 * i]) == Success(r[i].0);
        assert readKey(items[2 * i]).value != readKey(items[2 * (n / 2)]).value;
      }
      AddEntryDistinct(r, key.value, value.value);
    }
  }

  /** CsvParser.DictionaryParse: reads the text as a list of strings, returns null when it is empty,
      and otherwise adds one entry per item (pair layout) or per two items (flat layout). */
  method DictionaryParse(text: string, k: Shape, v: Shape, decoders: seq<Decoder>) returns (r: Result<Value>)
    ensures r == DictionaryOf(text, k, v, decoders)
  {
    var parsed := ArrayParse(text, Str, decoders);
    ArrayOfStr(text, decoders);
    var items := StringsOf(parsed.value.items);
    if |items| == 0 {
      return Success(Null);
    }
    var entries: Result<seq<(Value, Value)>>;
    if ContainsAny(items[0], PairChars) {
      entries := AddPairs(items, ReaderOf(k, decoders), ReaderOf(v, decoders));
    } else if |items| % 2 == 1 {
      return Failure(IndexOutOfRange);
    } else {
      entries := AddFlat(items, ReaderOf(k, decoders), ReaderOf(v, decoders));
    }
    if entries.Failure? {
      return Failure(entries.error);
    }
    return Success(Dict(entries.value));
  }

  /** The loop of DictionaryParse over items that each hold a key and a value. */
  method AddPairs(items: seq<string>, readKey: Reader, readValue: Reader) returns (r: Result<seq<(Value, Value)>>)
    ensures r == PairEntries(items, readKey, readValue)
  {
    var entries: seq<(Value, Value)> := [];
    var i := 0;
    while i < |items|
      invariant 0 <= i <= |items|
      invariant PairEntries(items[..i], readKey, readValue) == Success(entries)
    {
      assert items[..i + 1][..i] == items[..i];
      var split := SplitAny(items[i], PairChars);
      var key := readKey(split[0]);
      if key.Failure? {
        PairFailExtends(items, i + 1, readKey, readValue);
        return Failure(key.error);
      }
      if |split| < 2 {
        PairFailExtends(items, i + 1, readKey, readValue);
        return Failure(IndexOutOfRange);
      }
      var value := readValue(split[1]);
      if value.Failure? {
        PairFailExtends(items, i + 1, readKey, readValue);
        return Failure(value.error);
      }
      if key.value in KeysOf(entries) {
        PairFailExtends(items, i + 1, readKey, readValue);
        return Failure(DuplicateKey);
      }
      entries := entries + [(key.value, value.value)];
      i := i + 1;
    }
    assert items[..i] == items;
    return Success(entries);
  }

  /** The loop of DictionaryParse over items that alternate keys and values. */
  method AddFlat(items: seq<string>, readKey: Reader, readValue: Reader) returns (r: Result<seq<(Value, Value)>>)
    requires |items| % 2 == 0
    ensures r == FlatEntries(items, readKey, readValue)
  {
    var entries: seq<(Value, Value)> := [];
    var i := 0;
    while i < |items|
      invariant 0 <= i <= |items| && i % 2 == 0
      invariant FlatEntries(items[..i], readKey, readValue) == Success(entries)
    {
      assert items[..i + 2][..i] == items[..i];
      var key := readKey(items[i]);
      if key.Failure? {
        FlatFailExtends(items, i + 2, readKey, readValue);
        return Failure(key.error);
      }
      var value := readValue(items[i + 1]);
      if value.Failure? {
        FlatFailExtends(items, i + 2, readKey, readValue);
        return Failure(value.error);
      }
      if key.value in KeysOf(entries) {
        FlatFailExtends(items, i + 2, readKey, readValue);
        return Failure(DuplicateKey);
      }
      entries := entries + [(key.value, value.value)];
      i := i + 2;
    }
    assert items[..i] == items;
    return Success(entries);
  }

  // ---------------------------------------------------------------------------------------------
  // The engine's dictionary test cases

  /** "1,2,3" has an odd number of items and no pair character: an IndexOutOfRangeException,
      whatever the key and value types. */
  lemma DictionaryOddExample(text: string, k: Shape, v: Shape, decoders: seq<Decoder>)
    requires text == "1,2,3"
    ensures DictionaryOf(text, k, v, decoders) == Failure(IndexOutOfRange)
  {
    assert OddText(text);
    OddTextRead(text, k, v, decoders);
  }

  /** "1,2,3", character by character. */
  predicate OddText(s: string) {
    |s| == 5 && s[0] == '1' && s[1] == ',' && s[2] == '2' && s[3] == ',' && s[4] == '3'
  }

  /** The first item of the odd test text is its first digit, and it has three. */
  lemma OddTextItems(text: string)
    requires OddText(text)
    ensures |Items(text)| == 3 && Items(text)[0] == [text[0]]
  {
    assert text[0..] == text;
    PiecesTake(text, 0, 1);
    PiecesTake(text, 2, 3);
    PiecesWord(text[4..]);
    assert |Pieces(text)| == 3 && Pieces(text)[0] == [text[0]];
    TrimNoop(Pieces(text)[0]);
  }

  lemma OddTextRead(text: string, k: Shape, v: Shape, decoders: seq<Decoder>)
    requires OddText(text)
    ensures DictionaryOf(text, k, v, decoders) == Failure(IndexOutOfRange)
  {
    OddTextItems(text);
    DigitNoPair(Items(text)[0]);
    DictionaryOdd(text, k, v, decoders);
  }

  lemma DictionaryOdd(text: string, k: Shape, v: Shape, decoders: seq<Decoder>)
    requires |Items(text)| % 2 == 1 && !ContainsAny(Items(text)[0], PairChars)
    ensures DictionaryOf(text, k, v, decoders) == Failure(IndexOutOfRange)
  {
  }

  /** Four pieces reading, alternately as keys and values, as 1, 2, 3 and 4. */
  lemma FlatFour(items: seq<string>, readKey: Reader, readValue: Reader)
    requires |items| == 4
    requires readKey(items[0]) == Success(Int32(1)) && readValue(items[1]) == Success(Int32(2))
    requires readKey(items[2]) == Success(Int32(3)) && readValue(items[3]) == Success(Int32(4))
    ensures FlatEntries(items, readKey, readValue) == Success([(Int32(1), Int32(2)), (Int32(3), Int32(4))])
  {
    var half := items[..2];
    assert half[..0] == [];
    assert FlatEntries(half[..0], readKey, readValue) == Success([]);
    assert half[0] == items[0] && half[1] == items[1];
    assert Int32(1) !in KeysOf([]);
    var e1: seq<(Value, Value)> := [(Int32(1), Int32(2))];
    assert [] + e1 == e1;
    assert AddEntry([], Int32(1), Int32(2)) == Success(e1);
    assert FlatEntries(half, readKey, readValue) == Success(e1);
    assert items[..2] == half;
    assert Int32(3) !in KeysOf(e1);
    assert AddEntry(e1, Int32(3), Int32(4)) == Success(e1 + [(Int32(3), Int32(4))]);
    assert e1 + [(Int32(3), Int32(4))] == [(Int32(1), Int32(2)), (Int32(3), Int32(4))];
  }

  lemma DictionaryFlat(text: string, k: Shape, v: Shape, decoders: seq<Decoder>)
    requires Items(text) != [] && !ContainsAny(Items(text)[0], PairChars) && |Items(text)| % 2 == 0
    requires FlatEntries(Items(text), ReaderOf(k, decoders), ReaderOf(v, decoders)).Success?
    ensures DictionaryOf(text, k, v, decoders) ==
      Success(Dict(FlatEntries(Items(text), ReaderOf(k, decoders), ReaderOf(v, decoders)).value))
  {
  }

  /** Pieces with no white space at either end are their own items. */
  lemma ItemsUntrimmed(text: string)
    requires forall i :: 0 <= i < |Pieces(text)| ==> Trimmed(Pieces(text)[i])
    ensures Items(text) == Pieces(text)
  {
    var pieces := Pieces(text);
    forall i | 0 <= i < |pieces|
      ensures Items(text)[i] == pieces[i]
    {
      TrimNoop(pieces[i]);
    }
  }

  /** "1,2,3,4" read as a dictionary of integers: 1 maps to 2 and 3 to 4. */
  lemma DictionaryFlatExample(text: string)
    requires text == "1,2,3,4"
    ensures DictionaryOf(text, Int, Int, []) == Success(Dict([(Int32(1), Int32(2)), (Int32(3), Int32(4))]))
  {
    assert FlatText(text);
    FlatTextRead(text);
  }

  /** "1,2,3,4", character by character. */
  predicate FlatText(s: string) {
    && |s| == 7
    && s[0] == '1' && s[1] == ',' && s[2] == '2' && s[3] == ',' && s[4] == '3' && s[5] == ',' && s[6] == '4'
  }

  /** The four pieces of the flat test text are its four digits. */
  lemma PiecesOfFlatText(text: string)
    requires FlatText(text)
    ensures |Pieces(text)| == 4
    ensures Pieces(text)[0] == [text[0]] && Pieces(text)[1] == [text[2]]
    ensures Pieces(text)[2] == [text[4]] && Pieces(text)[3] == [text[6]]
  {
    assert text[0..] == text;
    PiecesTake(text, 0, 1);
    PiecesTake(text, 2, 3);
    PiecesTake(text, 4, 5);
    PiecesWord(text[6..]);
    assert text[6..] == text[6..7];
  }

  /** ... and so are its four items. */
  lemma FlatTextItems(text: string)
    requires FlatText(text)
    ensures |Items(text)| == 4
    ensures Items(text)[0] == [text[0]] && Items(text)[1] == [text[2]]
    ensures Items(text)[2] == [text[4]] && Items(text)[3] == [text[6]]
  {
    PiecesOfFlatText(text);
    FourDigitItems(text, Pieces(text));
  }

  lemma FourDigitItems(text: string, pieces: seq<string>)
    requires pieces == Pieces(text) && |pieces| == 4
    requires forall i :: 0 <= i < 4 ==> |pieces[i]| == 1 && '1' <= pieces[i][0] <= '9'
    ensures Items(text) == pieces
  {
    forall i | 0 <= i < 4
      ensures Items(text)[i] == pieces[i]
    {
      TrimNoop(pieces[i]);
    }
  }

  lemma FlatTextRead(text: string)
    requires FlatText(text)
    ensures DictionaryOf(text, Int, Int, []) == Success(Dict([(Int32(1), Int32(2)), (Int32(3), Int32(4))]))
  {
    FlatTextDigits(text);
    DictionaryFlatRead(text);
  }

  /** The four items of the flat test text read as 1 to 4, and the first holds no pair character. */
  lemma FlatTextDigits(text: string)
    requires FlatText(text)
    ensures |Items(text)| == 4 && !ContainsAny(Items(text)[0], PairChars)
    ensures Parse(Items(text)[0], Int, []) == Success(Int32(1)) && Parse(Items(text)[1], Int, []) == Success(Int32(2))
    ensures Parse(Items(text)[2], Int, []) == Success(Int32(3)) && Parse(Items(text)[3], Int, []) == Success(Int32(4))
  {
    FlatTextItems(text);
    var items := Items(text);
    DigitText(items[0], 1);
    DigitText(items[1], 2);
    DigitText(items[2], 3);
    DigitText(items[3], 4);
    DigitNoPair(items[0]);
  }

  /** A single digit holds no pair character. */
  lemma DigitNoPair(s: string)
    requires |s| == 1 && IsDigit(s[0])
    ensures !ContainsAny(s, PairChars)
  {
  }

  /** Four items reading as 1 to 4, the first without a pair character, make a flat dictionary. */
  lemma DictionaryFlatRead(text: string)
    requires |Items(text)| == 4 && !ContainsAny(Items(text)[0], PairChars)
    requires Parse(Items(text)[0], Int, []) == Success(Int32(1)) && Parse(Items(text)[1], Int, []) == Success(Int32(2))
    requires Parse(Items(text)[2], Int, []) == Success(Int32(3)) && Parse(Items(text)[3], Int, []) == Success(Int32(4))
    ensures DictionaryOf(text, Int, Int, []) == Success(Dict([(Int32(1), Int32(2)), (Int32(3), Int32(4))]))
  {
    var read := ReaderOf(Int, []);
    FlatFour(Items(text), read, read);
    DictionaryFlat(text, Int, Int, []);
  }

  lemma PiecesEmpty()
    ensures Pieces([]) == []
  {
    assert SplitAny([], ArrayChars) == [[]];
  }

  /** A word between an opening and a closing bracket is one piece. */
  lemma PiecesBracketed(w: string, open: char, close: char)
    requires w != [] && forall i :: 0 <= i < |w| ==> w[i] !in ArrayChars
    requires open in ArrayChars && close in ArrayChars
    ensures Pieces([open] + w + [close]) == [w]
  {
    var rest := w + [close];
    assert [open] + w + [close] == [] + [open] + rest;
    PiecesAtDelim([], open, rest);
    assert rest == w + [close] + [];
    PiecesAtDelim(w, close, []);
    PiecesWord(w);
    PiecesEmpty();
  }

  lemma PiecesPair(text: string)
    requires text == "1:2,(3>4)"
    ensures Pieces(text) == ["1:2", "3>4"]
  {
    var x, w := text[..3], text[5..8];
    assert x == "1:2" && w == "3>4";
    assert text == x + [','] + ([text[4]] + w + [text[8]]);
    PiecesAtDelim(x, ',', [text[4]] + w + [text[8]]);
    PiecesWord(x);
    PiecesBracketed(w, text[4], text[8]);
  }

  /** A key and a value around one pair character, each a digit. */
  lemma PairItemDigits(item: string, a: nat, c: char, b: nat)
    requires 1 <= a <= 9 && 1 <= b <= 9 && c in PairChars
    requires item == [('0' as int + a) as char, c, ('0' as int + b) as char]
    ensures PairItem(item, ReaderOf(Int, []), ReaderOf(Int, [])) == Success((Int32(a), Int32(b)))
  {
    var x, y := item[..1], item[2..];
    assert item == x + [c] + y;
    SplitAnyAtDelim(x, c, y, PairChars);
    SplitAnyWord(x, PairChars);
    SplitAnyWord(y, PairChars);
    DigitText(x, a);
    DigitText(y, b);
  }

  lemma ItemsPair(text: string)
    requires Pieces(text) == ["1:2", "3>4"]
    ensures Items(text) == ["1:2", "3>4"]
  {
    var pieces := Pieces(text);
    assert pieces[0][0] == '1' && pieces[0][2] == '2';
    assert pieces[1][0] == '3' && pieces[1][2] == '4';
    ItemsUntrimmed(text);
  }

  /** Two items reading as the pairs (1, 2) and (3, 4). */
  lemma PairTwo(items: seq<string>, readKey: Reader, readValue: Reader)
    requires |items| == 2
    requires PairItem(items[0], readKey, readValue) == Success((Int32(1), Int32(2)))
    requires PairItem(items[1], readKey, readValue) == Success((Int32(3), Int32(4)))
    ensures PairEntries(items, readKey, readValue) == Success([(Int32(1), Int32(2)), (Int32(3), Int32(4))])
  {
    var first := items[..1];
    assert first[..0] == [];
    assert first[0] == items[0];
    assert Int32(1) !in KeysOf([]);
    var e1: seq<(Value, Value)> := [(Int32(1), Int32(2))];
    assert [] + e1 == e1;
    assert PairEntries(first, readKey, readValue) == Success(e1);
    assert Int32(3) !in KeysOf(e1);
    assert e1 + [(Int32(3), Int32(4))] == [(Int32(1), Int32(2)), (Int32(3), Int32(4))];
  }

  lemma DictionaryPair(text: string, k: Shape, v: Shape, decoders: seq<Decoder>)
    requires Items(text) != [] && ContainsAny(Items(text)[0], PairChars)
    requires PairEntries(Items(text), ReaderOf(k, decoders), ReaderOf(v, decoders)).Success?
    ensures DictionaryOf(text, k, v, decoders) ==
      Success(Dict(PairEntries(Items(text), ReaderOf(k, decoders), ReaderOf(v, decoders)).value))
  {
  }

  /** The engine's test case: "1:2,(3>4)" read as a dictionary of integers takes the pair layout,
      so 1 maps to 2 and 3 to 4. */
  lemma DictionaryPairExample(text: string)
    requires text == "1:2,(3>4)"
    ensures DictionaryOf(text, Int, Int, []) == Success(Dict([(Int32(1), Int32(2)), (Int32(3), Int32(4))]))
  {
    PiecesPair(text);
    ItemsPair(text);
    var items := Items(text);
    assert items[0][1] == ':';
    assert ContainsAny(items[0], PairChars);
    var read := ReaderOf(Int, []);
    assert items[0] == [('0' as int + 1) as char, ':', ('0' as int + 2) as char];
    assert items[1] == [('0' as int + 3) as char, '>', ('0' as int + 4) as char];
    PairItemDigits(items[0], 1, ':', 2);
    PairItemDigits(items[1], 3, '>', 4);
    PairTwo(items, read, read);
    DictionaryPair(text, Int, Int, []);
  }
}
