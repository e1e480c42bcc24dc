/** The record mapper of CsvParser: DeserializeObject picks the parser for one field type,
    DeserializeTo fills the fields of a fresh record from one row, and GetSubListDictionary /
    DeserializeSubList read a block of continuation rows into a list of nested records. */
module Records {
  import opened Errors
  import opened Text
  import opened Shapes
  import opened ScalarParser
  import opened Collections
  import opened CsvTable

  // ---------------------------------------------------------------------------------------------
  // DeserializeObject

  /** CsvParser.DeserializeObject: arrays and lists go to ArrayParse, dictionaries to
      DictionaryParse, everything else to Parse. ArrayParse builds a List<T> for an array type too.
      A list of records reached here (not through a `[]` row) is read like any list of a reference
      type. */
  function DeserializeObject(data: string, ty: FieldType, decoders: seq<Decoder>): Result<Value> {
    match ty
    case Scalar(s) => Parse(data, s, decoders)
    case ArrayField(e) => ArrayOf(data, e, decoders)
    case ListOf(e) => ArrayOf(data, e, decoders)
    case DictOf(k, v) => DictionaryOf(data, k, v, decoders)
    case RecordList(name, _) => ArrayOf(data, Custom(name), decoders)
  }

  /** A value a field of type `ty` can hold: a scalar of its shape, a list of elements of the
      element shape, null or a dictionary with distinct keys of the key and value shapes. A `T[]`
      field holds only arrays, and the engine never builds one. */
  predicate Fits(v: Value, ty: FieldType) {
    match ty
    case Scalar(s) => HasShape(v, s)
    case ArrayField(_) => false
    case ListOf(e) => v.List? && forall i :: 0 <= i < |v.items| ==> HasShape(v.items[i], e)
    case DictOf(k, w) =>
      v.Null? ||
      (v.Dict? && DistinctKeys(v.entries) &&
       forall i :: 0 <= i < |v.entries| ==> HasShape(v.entries[i].0, k) && HasShape(v.entries[i].1, w))
    case RecordList(name, _) => v.List? && forall i :: 0 <= i < |v.items| ==> HasShape(v.items[i], Custom(name))
  }

  /** Under decoders that respect shapes, whatever DeserializeObject returns fits the field type,
      except that an array field gets the List<T> ArrayParse builds. */
  lemma DeserializeObjectFits(data: string, ty: FieldType, decoders: seq<Decoder>)
    requires WellTyped(decoders)
    requires DeserializeObject(data, ty, decoders).Success?
    ensures !ty.ArrayField? ==> Fits(DeserializeObject(data, ty, decoders).value, ty)
    ensures ty.ArrayField? ==> Fits(DeserializeObject(data, ty, decoders).value, ListOf(ty.elem))
  {
    match ty
    case Scalar(s) =>
      ParseHasShape(data, s, decoders);
    case ArrayField(e) =>
      ListFits(data, e, decoders);
    case ListOf(e) =>
      ListFits(data, e, decoders);
    case DictOf(k, w) =>
      DictFits(data, k, w, decoders);
    case RecordList(name, _) =>
      ListFits(data, Custom(name), decoders);
  }

  /** The runtime type test of FieldInfo.SetValue: a scalar field takes a value of its shape, a
      list field a list, a dictionary field null or a dictionary, and a `T[]` field only an array,
      which the engine never builds. */
  predicate Assignable(v: Value, ty: FieldType) {
    match ty
    case Scalar(s) => HasShape(v, s)
    case ArrayField(_) => false
    case ListOf(_) => v.List?
    case DictOf(_, _) => v.Null? || v.Dict?
    case RecordList(_, _) => v.List?
  }

  /** FieldInfo.SetValue: stores a value the field's type accepts and throws ArgumentException for
      any other. */
  function SetValue(v: Value, ty: FieldType): Result<Value> {
    if Assignable(v, ty) then Success(v) else Failure(ArgumentMismatch)
  }

  /** `field.SetValue(instance, DeserializeObject(cell, field.FieldType, ...))`: the value a field
      ends up holding, or the error of the parse or of the assignment. */
  function StoredValue(cell: string, ty: FieldType, decoders: seq<Decoder>): Result<Value> {
    var v :- DeserializeObject(cell, ty, decoders);
    SetValue(v, ty)
  }

  /** Under decoders that respect shapes, a cell is stored exactly when it deserializes into a field
      that is not an array, and then as the deserialized value; an array field never takes the list
      ArrayParse returns. */
  lemma StoredValueSpec(cell: string, ty: FieldType, decoders: seq<Decoder>)
    requires WellTyped(decoders)
    ensures StoredValue(cell, ty, decoders).Success? <==>
      DeserializeObject(cell, ty, decoders).Success? && !ty.ArrayField?
    ensures StoredValue(cell, ty, decoders).Success? ==>
      StoredValue(cell, ty, decoders).value == DeserializeObject(cell, ty, decoders).value
    ensures ty.ArrayField? && DeserializeObject(cell, ty, decoders).Success? ==>
      StoredValue(cell, ty, decoders) == Failure(ArgumentMismatch)
  {
    if DeserializeObject(cell, ty, decoders).Success? {
      DeserializeObjectFits(cell, ty, decoders);
    }
  }

  lemma ListFits(data: string, e: Shape, decoders: seq<Decoder>)
    requires WellTyped(decoders)
    requires ArrayOf(data, e, decoders).Success?
    ensures ArrayOf(data, e, decoders).value.List?
    ensures forall i :: 0 <= i < |ArrayOf(data, e, decoders).value.items| ==>
      HasShape(ArrayOf(data, e, decoders).value.items[i], e)
  {
    var pieces := Pieces(data);
    ParseAllSpec(pieces, ReaderOf(e, decoders));
    var items := ArrayOf(data, e, decoders).value.items;
    forall i | 0 <= i < |items| ensures HasShape(items[i], e) {
      ParseHasShape(pieces[i], e, decoders);
    }
  }

  lemma DictFits(data: string, k: Shape, w: Shape, decoders: seq<Decoder>)
    requires WellTyped(decoders)
    requires DictionaryOf(data, k, w, decoders).Success?
    ensures Fits(DictionaryOf(data, k, w, decoders).value, DictOf(k, w))
  {
    var items := Items(data);
    var readKey, readValue := ReaderOf(k, decoders), ReaderOf(w, decoders);
    if items != [] {
      if ContainsAny(items[0], PairChars) {
        assert PairEntries(items, readKey, readValue).Success?;
        PairFits(items, k, w, decoders);
      } else {
        assert FlatEntries(items, readKey, readValue).Success?;
        FlatFits(items, k, w, decoders);
      }
    }
  }

  lemma PairFits(items: seq<string>, k: Shape, w: Shape, decoders: seq<Decoder>)
    requires WellTyped(decoders)
    requires PairEntries(items, ReaderOf(k, decoders), ReaderOf(w, decoders)).Success?
    ensures Fits(Dict(PairEntries(items, ReaderOf(k, decoders), ReaderOf(w, decoders)).value), DictOf(k, w))
  {
    var readKey, readValue := ReaderOf(k, decoders), ReaderOf(w, decoders);
    PairEntriesSpec(items, readKey, readValue);
    var e := PairEntries(items, readKey, readValue).value;
    forall j | 0 <= j < |e| ensures HasShape(e[j].0, k) && HasShape(e[j].1, w) {
      PairItemFits(items[j], k, w, decoders);
    }
  }

  lemma PairItemFits(item: string, k: Shape, w: Shape, decoders: seq<Decoder>)
    requires WellTyped(decoders)
    requires PairItem(item, ReaderOf(k, decoders), ReaderOf(w, decoders)).Success?
    ensures HasShape(PairItem(item, ReaderOf(k, decoders), ReaderOf(w, decoders)).value.0, k)
    ensures HasShape(PairItem(item, ReaderOf(k, decoders), ReaderOf(w, decoders)).value.1, w)
  {
    var readKey, readValue := ReaderOf(k, decoders), ReaderOf(w, decoders);
    PairItemSuccess(item, readKey, readValue);
    var split := SplitAny(item, PairChars);
    assert readKey(split[0]) == Parse(split[0], k, decoders);
    assert readValue(split[1]) == Parse(split[1], w, decoders);
    ParseHasShape(split[0], k, decoders);
    ParseHasShape(split[1], w, decoders);
  }

  lemma FlatFits(items: seq<string>, k: Shape, w: Shape, decoders: seq<Decoder>)
    requires WellTyped(decoders) && |items| % 2 == 0
    requires FlatEntries(items, ReaderOf(k, decoders), ReaderOf(w, decoders)).Success?
    ensures Fits(Dict(FlatEntries(items, ReaderOf(k, decoders), ReaderOf(w, decoders)).value), DictOf(k, w))
  {
    var readKey, readValue := ReaderOf(k, decoders), ReaderOf(w, decoders);
    FlatEntriesSpec(items, readKey, readValue);
    var e := FlatEntries(items, readKey, readValue).value;
    forall j | 0 <= j < |e| ensures HasShape(e[j].0, k) && HasShape(e[j].1, w) {
      ParseHasShape(items[2 * j], k, decoders);
      ParseHasShape(items[2 * j + 1], w, decoders);
    }
  }

  // ---------------------------------------------------------------------------------------------
  // DeserializeTo

  /** A field DeserializeTo sets: the row has a column of its name and it is not marked ParseIgnore. */
  predicate Assigned(f: Field, data: Row) {
    f.name in data && !f.ignored
  }

  /** No two fields of a record type share a name. */
  predicate DistinctNames(fields: seq<Field>) {
    forall i, j :: 0 <= i < j < |fields| ==> fields[i].name != fields[j].name
  }

  /** The fields set so far, after visiting the fields in declaration order; the first field whose
      cell fails to parse aborts the record. */
  function RecordOf(fields: seq<Field>, data: Row, decoders: seq<Decoder>): Result<map<string, Value>>
    decreases |fields|
  {
    if fields == [] then Success(map[])
    else
      var init :- RecordOf(fields[..|fields| - 1], data, decoders);
      var f := fields[|fields| - 1];
      if !Assigned(f, data) then Success(init)
      else
        var v :- StoredValue(data[f.name], f.ty, decoders);
        Success(init[f.name := v])
  }

  /** What DeserializeTo returns: the record of the fields set; a field not in it keeps its default. */
  function Record(fields: seq<Field>, data: Row, decoders: seq<Decoder>): Result<Value> {
    var m :- RecordOf(fields, data, decoders);
    Success(Rec(m))
  }

  /** The value a record holds in a field: the one set, or the field type's default. */
  function FieldValue(rec: map<string, Value>, f: Field): Value {
    if f.name in rec then rec[f.name] else FieldDefault(f.ty)
  }

  /** DeserializeTo succeeds exactly when the cell of every assigned field deserializes. */
  lemma RecordOfSuccess(fields: seq<Field>, data: Row, decoders: seq<Decoder>)
    ensures RecordOf(fields, data, decoders).Success? <==>
      forall i :: 0 <= i < |fields| && Assigned(fields[i], data) ==>
        StoredValue(data[fields[i].name], fields[i].ty, decoders).Success?
  {
    if RecordOf(fields, data, decoders).Success? {
      RecordOfSound(fields, data, decoders);
    }
    if forall i :: 0 <= i < |fields| && Assigned(fields[i], data) ==>
        StoredValue(data[fields[i].name], fields[i].ty, decoders).Success?
    {
      RecordOfComplete(fields, data, decoders);
    }
  }

  /** A record that deserializes had every assigned cell deserialize. */
  lemma {:induction false} RecordOfSound(fields: seq<Field>, data: Row, decoders: seq<Decoder>)
    requires RecordOf(fields, data, decoders).Success?
    ensures forall i :: 0 <= i < |fields| && Assigned(fields[i], data) ==>
      StoredValue(data[fields[i].name], fields[i].ty, decoders).Success?
    decreases |fields|
  {
    if fields != [] {
      var n := |fields| - 1;
      var init := fields[..n];
      assert RecordOf(init, data, decoders).Success?;
      RecordOfSound(init, data, decoders);
      forall i | 0 <= i < n && Assigned(fields[i], data)
        ensures StoredValue(data[fields[i].name], fields[i].ty, decoders).Success?
      {
        assert fields[i] == init[i];
      }
    }
  }

  /** When every assigned cell deserializes, so does the record. */
  lemma {:induction false} RecordOfComplete(fields: seq<Field>, data: Row, decoders: seq<Decoder>)
    requires forall i :: 0 <= i < |fields| && Assigned(fields[i], data) ==>
      StoredValue(data[fields[i].name], fields[i].ty, decoders).Success?
    ensures RecordOf(fields, data, decoders).Success?
    decreases |fields|
  {
    if fields != [] {
      var n := |fields| - 1;
      var init := fields[..n];
      forall i | 0 <= i < n && Assigned(init[i], data)
        ensures StoredValue(data[init[i].name], init[i].ty, decoders).Success?
      {
        assert init[i] == fields[i];
      }
      RecordOfComplete(init, data, decoders);
    }
  }

  /** A failure is that of the first assigned field, in declaration order, whose cell fails. */
  lemma {:induction false} RecordOfFailure(fields: seq<Field>, data: Row, decoders: seq<Decoder>)
    requires RecordOf(fields, data, decoders).Failure?
    ensures exists i :: (0 <= i < |fields| && Assigned(fields[i], data) &&
      StoredValue(data[fields[i].name], fields[i].ty, decoders) == Failure(RecordOf(fields, data, decoders).error) &&
      forall j :: 0 <= j < i && Assigned(fields[j], data) ==> StoredValue(data[fields[j].name], fields[j].ty, decoders).Success?)
    decreases |fields|
  {
    var n := |fields| - 1;
    var init := fields[..n];
    var r := RecordOf(init, data, decoders);
    if r.Failure? {
      RecordOfFailure(init, data, decoders);
      var i :| 0 <= i < n && Assigned(init[i], data) &&
        StoredValue(data[init[i].name], init[i].ty, decoders) == Failure(r.error) &&
        forall j :: 0 <= j < i && Assigned(init[j], data) ==> StoredValue(data[init[j].name], init[j].ty, decoders).Success?;
      assert fields[i] == init[i];
      assert forall j :: 0 <= j < i ==> fields[j] == init[j];
    } else {
      RecordOfSuccess(init, data, decoders);
      assert forall j :: 0 <= j < n ==> fields[j] == init[j];
    }
  }

  /** A record that deserializes sets exactly the assigned fields, each to the value of its cell;
      every other field keeps its default. */
  lemma RecordOfFields(fields: seq<Field>, data: Row, decoders: seq<Decoder>)
    requires DistinctNames(fields)
    requires RecordOf(fields, data, decoders).Success?
    ensures forall x :: x in RecordOf(fields, data, decoders).value ==>
      exists i :: 0 <= i < |fields| && fields[i].name == x && Assigned(fields[i], data)
    ensures forall i :: 0 <= i < |fields| && Assigned(fields[i], data) ==>
      fields[i].name in RecordOf(fields, data, decoders).value &&
      StoredValue(data[fields[i].name], fields[i].ty, decoders).Success? &&
      RecordOf(fields, data, decoders).value[fields[i].name] == StoredValue(data[fields[i].name], fields[i].ty, decoders).value
    ensures forall i :: 0 <= i < |fields| && !Assigned(fields[i], data) ==>
      FieldValue(RecordOf(fields, data, decoders).value, fields[i]) == FieldDefault(fields[i].ty)
  {
    RecordOfKeys(fields, data, decoders);
    RecordOfValues(fields, data, decoders);
    assert forall i, j :: 0 <= i < |fields| && 0 <= j < |fields| && fields[i].name == fields[j].name ==> i == j;
  }

  /** Only assigned fields are set. */
  lemma {:induction false} RecordOfKeys(fields: seq<Field>, data: Row, decoders: seq<Decoder>)
    requires RecordOf(fields, data, decoders).Success?
    ensures forall x :: x in RecordOf(fields, data, decoders).value ==>
      exists i :: 0 <= i < |fields| && fields[i].name == x && Assigned(fields[i], data)
    decreases |fields|
  {
    var m := RecordOf(fields, data, decoders).value;
    if fields != [] {
      var n := |fields| - 1;
      var init := fields[..n];
      var f := fields[n];
      RecordOfKeys(init, data, decoders);
      var m0 := RecordOf(init, data, decoders).value;
      assert m.Keys <= m0.Keys + {f.name};
      forall x | x in m ensures exists i :: 0 <= i < |fields| && fields[i].name == x && Assigned(fields[i], data) {
        if x !in m0 {
          assert x == f.name && Assigned(f, data);
        } else {
          var i :| 0 <= i < n && init[i].name == x && Assigned(init[i], data);
          assert fields[i] == init[i];
        }
      }
    }
  }

  /** Every assigned field is set to the value of its cell. */
  lemma {:induction false} RecordOfValues(fields: seq<Field>, data: Row, decoders: seq<Decoder>)
    requires DistinctNames(fields)
    requires RecordOf(fields, data, decoders).Success?
    ensures forall i :: 0 <= i < |fields| && Assigned(fields[i], data) ==>
      fields[i].name in RecordOf(fields, data, decoders).value &&
      StoredValue(data[fields[i].name], fields[i].ty, decoders).Success? &&
      RecordOf(fields, data, decoders).value[fields[i].name] == StoredValue(data[fields[i].name], fields[i].ty, decoders).value
    decreases |fields|
  {
    if fields != [] {
      var n := |fields| - 1;
      var init := fields[..n];
      var f := fields[n];
      assert DistinctNames(init);
      RecordOfValues(init, data, decoders);
      forall i | 0 <= i < n && Assigned(fields[i], data)
        ensures fields[i].name in RecordOf(fields, data, decoders).value &&
          StoredValue(data[fields[i].name], fields[i].ty, decoders).Success? &&
          RecordOf(fields, data, decoders).value[fields[i].name] == StoredValue(data[fields[i].name], fields[i].ty, decoders).value
      {
        assert fields[i] == init[i] && fields[i].name != f.name;
      }
    }
  }

  /** Only the columns named by fields matter: two rows that agree on those give the same record,
      so columns no field is named after are ignored. */
  lemma {:induction false} RecordIgnoresOtherColumns(fields: seq<Field>, data: Row, other: Row, decoders: seq<Decoder>)
    requires forall i :: 0 <= i < |fields| ==>
      (fields[i].name in data <==> fields[i].name in other) &&
      (fields[i].name in data ==> data[fields[i].name] == other[fields[i].name])
    ensures RecordOf(fields, data, decoders) == RecordOf(fields, other, decoders)
    decreases |fields|
  {
    if fields != [] {
      var n := |fields| - 1;
      assert forall i :: 0 <= i < n ==> fields[..n][i] == fields[i];
      RecordIgnoresOtherColumns(fields[..n], data, other, decoders);
    }
  }

  lemma {:induction false} RecordFailExtends(fields: seq<Field>, m: nat, data: Row, decoders: seq<Decoder>)
    requires m <= |fields| && RecordOf(fields[..m], data, decoders).Failure?
    ensures RecordOf(fields, data, decoders) == RecordOf(fields[..m], data, decoders)
    decreases |fields|
  {
    if m < |fields| {
      var n := |fields| - 1;
      assert fields[..n][..m] == fields[..m];
      RecordFailExtends(fields[..n], m, data, decoders);
    } else {
      assert fields[..m] == fields;
    }
  }

  /** One field of the loop: an unassigned field leaves the record as it is, an assigned one sets
      its cell's value or ends the whole record with the cell's error. */
  lemma RecordStep(fields: seq<Field>, i: nat, data: Row, decoders: seq<Decoder>, instance: map<string, Value>)
    requires i < |fields| && RecordOf(fields[..i], data, decoders) == Success(instance)
    ensures !Assigned(fields[i], data) ==> RecordOf(fields[..i + 1], data, decoders) == Success(instance)
    ensures Assigned(fields[i], data) ==>
      var value := StoredValue(data[fields[i].name], fields[i].ty, decoders);
      (value.Success? ==> RecordOf(fields[..i + 1], data, decoders) == Success(instance[fields[i].name := value.value])) &&
      (value.Failure? ==> RecordOf(fields, data, decoders) == Failure(value.error))
  {
    assert fields[..i + 1][..i] == fields[..i];
    if Assigned(fields[i], data) && StoredValue(data[fields[i].name], fields[i].ty, decoders).Failure? {
      RecordFailExtends(fields, i + 1, data, decoders);
    }
  }

  /** CsvParser.DeserializeTo: creates a record with every field at its default and sets, field by
      field in declaration order, each field the row has a column for and that is not ignored. */
  method DeserializeTo(fields: seq<Field>, data: Row, decoders: seq<Decoder>) returns (r: Result<Value>)
    ensures r == Record(fields, data, decoders)
  {
    var instance: map<string, Value> := map[];
    var i := 0;
    while i < |fields|
      invariant 0 <= i <= |fields|
      invariant RecordOf(fields[..i], data, decoders) == Success(instance)
    {
      var field := fields[i];
      RecordStep(fields, i, data, decoders, instance);
      if field.name in data && !field.ignored {
        var value := DeserializeObject(data[field.name], field.ty, decoders);
        if value.Failure? {
          return Failure(value.error);
        }
        var stored := SetValue(value.value, field.ty);
        if stored.Failure? {
          return Failure(stored.error);
        }
        instance := instance[field.name := stored.value];
      }
      i := i + 1;
    }
    assert fields[..i] == fields;
    return Success(Rec(instance));
  }

  // ---------------------------------------------------------------------------------------------
  // Records of several rows

  /** Reads every row with `read`, in row order; the first row that fails aborts the list. */
  function ReadAll(read: Row -> Result<Value>, rows: seq<Row>): Result<seq<Value>>
    decreases |rows|
  {
    if rows == [] then Success([])
    else
      var init :- ReadAll(read, rows[..|rows| - 1]);
      var item :- read(rows[|rows| - 1]);
      Success(init + [item])
  }

  /** A list that reads holds what each row reads as, in row order. */
  lemma {:induction false} ReadAllSound(read: Row -> Result<Value>, rows: seq<Row>)
    requires ReadAll(read, rows).Success?
    ensures |ReadAll(read, rows).value| == |rows|
    ensures forall i :: 0 <= i < |rows| ==> read(rows[i]) == Success(ReadAll(read, rows).value[i])
    decreases |rows|
  {
    if rows != [] {
      var n := |rows| - 1;
      var init := rows[..n];
      assert ReadAll(read, init).Success?;
      ReadAllSound(read, init);
      var v0 := ReadAll(read, init).value;
      var v := ReadAll(read, rows).value;
      assert v == v0 + [read(rows[n]).value];
      forall i | 0 <= i < n ensures read(rows[i]) == Success(v[i]) {
        assert rows[i] == init[i];
      }
    }
  }

  /** Rows that all read make a list. */
  lemma {:induction false} ReadAllComplete(read: Row -> Result<Value>, rows: seq<Row>)
    requires forall i :: 0 <= i < |rows| ==> read(rows[i]).Success?
    ensures ReadAll(read, rows).Success?
    decreases |rows|
  {
    if rows != [] {
      var n := |rows| - 1;
      var init := rows[..n];
      forall i | 0 <= i < n ensures read(init[i]).Success? {
        assert init[i] == rows[i];
      }
      ReadAllComplete(read, init);
    }
  }

  /** A list that fails does so as its first failing row. */
  lemma {:induction false} ReadAllFailure(read: Row -> Result<Value>, rows: seq<Row>)
    requires ReadAll(read, rows).Failure?
    ensures exists i :: (0 <= i < |rows| && read(rows[i]) == Failure(ReadAll(read, rows).error) &&
      forall j :: 0 <= j < i ==> read(rows[j]).Success?)
    decreases |rows|
  {
    var n := |rows| - 1;
    var init := rows[..n];
    var r := ReadAll(read, init);
    if r.Failure? {
      ReadAllFailure(read, init);
      var i :| 0 <= i < n && read(init[i]) == Failure(r.error) &&
        forall j :: 0 <= j < i ==> read(init[j]).Success?;
      assert rows[i] == init[i];
      forall j | 0 <= j < i ensures read(rows[j]).Success? {
        assert rows[j] == init[j];
      }
    } else {
      ReadAllSound(read, init);
      assert read(rows[n]) == Failure(ReadAll(read, rows).error);
      forall j | 0 <= j < n ensures read(rows[j]).Success? {
        assert rows[j] == init[j];
      }
    }
  }

  /** Once a prefix fails, the rows after it are never read. */
  lemma {:induction false} ReadAllFailExtends(read: Row -> Result<Value>, rows: seq<Row>, m: nat)
    requires m <= |rows| && ReadAll(read, rows[..m]).Failure?
    ensures ReadAll(read, rows) == ReadAll(read, rows[..m])
    decreases |rows|
  {
    if m < |rows| {
      var n := |rows| - 1;
      assert rows[..n][..m] == rows[..m];
      ReadAllFailExtends(read, rows[..n], m);
    } else {
      assert rows[..m] == rows;
    }
  }

  /** DeserializeTo of a record type, as a reader of rows. */
  function RecordReader(fields: seq<Field>, decoders: seq<Decoder>): Row -> Result<Value> {
    row => Record(fields, row, decoders)
  }

  /** One record per row, in order; the first row that fails aborts the list. */
  function RecordsOf(fields: seq<Field>, rows: seq<Row>, decoders: seq<Decoder>): Result<seq<Value>> {
    ReadAll(RecordReader(fields, decoders), rows)
  }

  /** The list of records succeeds exactly when every row's record does; it then holds one record per
      row, in row order, and otherwise fails as the first failing row does. */
  lemma RecordsOfSpec(fields: seq<Field>, rows: seq<Row>, decoders: seq<Decoder>)
    ensures RecordsOf(fields, rows, decoders).Success? <==>
      forall i :: 0 <= i < |rows| ==> Record(fields, rows[i], decoders).Success?
    ensures RecordsOf(fields, rows, decoders).Success? ==>
      |RecordsOf(fields, rows, decoders).value| == |rows| &&
      forall i :: 0 <= i < |rows| ==> RecordsOf(fields, rows, decoders).value[i] == Record(fields, rows[i], decoders).value
    ensures RecordsOf(fields, rows, decoders).Failure? ==>
      exists i :: 0 <= i < |rows| && Record(fields, rows[i], decoders) == Failure(RecordsOf(fields, rows, decoders).error) &&
        forall j :: 0 <= j < i ==> Record(fields, rows[j], decoders).Success?
  {
    if RecordsOf(fields, rows, decoders).Success? {
      RecordsOfSound(fields, rows, decoders);
    } else {
      RecordsOfFailure(fields, rows, decoders);
      if forall i :: 0 <= i < |rows| ==> Record(fields, rows[i], decoders).Success? {
        RecordsOfComplete(fields, rows, decoders);
      }
    }
  }

  /** A list of records that reads holds the record of each row, in row order. */
  lemma RecordsOfSound(fields: seq<Field>, rows: seq<Row>, decoders: seq<Decoder>)
    requires RecordsOf(fields, rows, decoders).Success?
    ensures |RecordsOf(fields, rows, decoders).value| == |rows|
    ensures forall i :: 0 <= i < |rows| ==>
      Record(fields, rows[i], decoders).Success? && RecordsOf(fields, rows, decoders).value[i] == Record(fields, rows[i], decoders).value
  {
    var read := RecordReader(fields, decoders);
    ReadAllSound(read, rows);
    assert forall i :: 0 <= i < |rows| ==> read(rows[i]) == Record(fields, rows[i], decoders);
  }

  /** Rows that all read make a list of records. */
  lemma RecordsOfComplete(fields: seq<Field>, rows: seq<Row>, decoders: seq<Decoder>)
    requires forall i :: 0 <= i < |rows| ==> Record(fields, rows[i], decoders).Success?
    ensures RecordsOf(fields, rows, decoders).Success?
  {
    var read := RecordReader(fields, decoders);
    assert forall i :: 0 <= i < |rows| ==> read(rows[i]) == Record(fields, rows[i], decoders);
    ReadAllComplete(read, rows);
  }

  /** A list of records that fails does so as its first failing row. */
  lemma RecordsOfFailure(fields: seq<Field>, rows: seq<Row>, decoders: seq<Decoder>)
    requires RecordsOf(fields, rows, decoders).Failure?
    ensures exists i :: (0 <= i < |rows| &&
      Record(fields, rows[i], decoders) == Failure(RecordsOf(fields, rows, decoders).error) &&
      forall j :: 0 <= j < i ==> Record(fields, rows[j], decoders).Success?)
  {
    var read := RecordReader(fields, decoders);
    ReadAllFailure(read, rows);
    assert forall i :: 0 <= i < |rows| ==> read(rows[i]) == Record(fields, rows[i], decoders);
  }

  // ---------------------------------------------------------------------------------------------
  // GetSubListDictionary

  /** The header map of a block: each column of the start row whose cell does not end in "[]",
      mapped to that cell (the name its column takes in the nested records). */
  function HeaderMap(start: Row): map<string, string> {
    map k | k in start && !EndsWith(start[k], "[]") :: start[k]
  }

  /** Two distinct columns of the row that the header map sends to the same name. */
  predicate Collides(row: Row, hm: map<string, string>) {
    exists a, b :: a in row && b in row && a in hm && b in hm && a != b && hm[a] == hm[b]
  }

  /** A continuation row re-keyed through the header map: the columns the map knows, under their new
      names. Dictionary.Add throws when two of them get the same name. */
  function ReKey(row: Row, hm: map<string, string>): Result<Row> {
    if Collides(row, hm) then Failure(DuplicateKey)
    else Success(map k | k in row && k in hm :: hm[k] := row[k])
  }

  /** The re-keyed row holds exactly the header-mapped columns, each under its new name. */
  lemma ReKeySpec(row: Row, hm: map<string, string>)
    ensures ReKey(row, hm).Success? <==> !Collides(row, hm)
    ensures ReKey(row, hm).Success? ==>
      (forall h :: h in ReKey(row, hm).value <==> exists k :: k in row && k in hm && hm[k] == h) &&
      (forall k :: k in row && k in hm ==> ReKey(row, hm).value[hm[k]] == row[k])
  {
    if !Collides(row, hm) {
      var r := ReKey(row, hm).value;
      forall h | h in r ensures exists k :: k in row && k in hm && hm[k] == h {
        var k :| k in row && k in hm && hm[k] == h;
      }
    }
  }

  /** A row that continues a block: its "Key" cell is the continuation marker "#". */
  predicate Continues(row: Row) {
    "Key" in row && row["Key"] == "#"
  }

  /** The end of the run of continuation rows that starts at `i`. */
  function BlockEnd(data: seq<Row>, i: nat): (e: nat)
    requires i <= |data|
    ensures i <= e <= |data|
    ensures forall j :: i <= j < e ==> Continues(data[j])
    ensures e < |data| ==> !Continues(data[e])
    decreases |data| - i
  {
    if i == |data| || !Continues(data[i]) then i else BlockEnd(data, i + 1)
  }

  /** Every row of the table re-keyed through the header map, whether or not it is in the block. */
  function ReKeys(data: seq<Row>, hm: map<string, string>): (rks: seq<Result<Row>>)
    ensures |rks| == |data|
  {
    seq(|data|, j requires 0 <= j < |data| => ReKey(data[j], hm))
  }

  /** The rows of a block from index `i` on, given what re-keying each row gives: each continuation
      row's re-keyed row, up to the first row that is not one; a row without a "Key" column throws. */
  function Block(data: seq<Row>, rks: seq<Result<Row>>, i: nat): Result<seq<Row>>
    requires |rks| == |data| && i <= |data|
    decreases |data| - i
  {
    if i == |data| then Success([])
    else if "Key" !in data[i] then Failure(KeyNotFound)
    else if data[i]["Key"] != "#" then Success([])
    else
      var row :- rks[i];
      var rest :- Block(data, rks, i + 1);
      Success([row] + rest)
  }

  /** The rows of a block from index `i` on, each continuation row re-keyed through `hm`. */
  function SubRows(data: seq<Row>, hm: map<string, string>, i: nat): Result<seq<Row>>
    requires i <= |data|
  {
    Block(data, ReKeys(data, hm), i)
  }

  /** What GetSubListDictionary returns for the block whose header row is `start`. */
  function SubListRows(data: seq<Row>, start: nat): Result<seq<Row>>
    requires start < |data|
  {
    SubRows(data, HeaderMap(data[start]), start + 1)
  }

  lemma {:induction false} BlockSuccess(data: seq<Row>, rks: seq<Result<Row>>, i: nat)
    requires |rks| == |data| && i <= |data|
    ensures Block(data, rks, i).Success? <==>
      (BlockEnd(data, i) == |data| || "Key" in data[BlockEnd(data, i)]) &&
      forall j :: i <= j < BlockEnd(data, i) ==> rks[j].Success?
    ensures Block(data, rks, i).Failure? ==>
      Block(data, rks, i).error == KeyNotFound ||
      exists j :: i <= j < BlockEnd(data, i) && rks[j] == Failure(Block(data, rks, i).error)
    decreases |data| - i
  {
    if i < |data| && Continues(data[i]) {
      BlockSuccess(data, rks, i + 1);
      assert BlockEnd(data, i) == BlockEnd(data, i + 1);
    }
  }

  /** The block succeeds exactly when the row that ends the run of continuation rows has a "Key"
      column and every row of the run re-keys; a failure is a missing "Key" column or a duplicate name. */
  lemma SubRowsSuccess(data: seq<Row>, hm: map<string, string>, i: nat)
    requires i <= |data|
    ensures SubRows(data, hm, i).Success? <==>
      (BlockEnd(data, i) == |data| || "Key" in data[BlockEnd(data, i)]) &&
      forall j :: i <= j < BlockEnd(data, i) ==> ReKey(data[j], hm).Success?
    ensures SubRows(data, hm, i).Failure? ==> SubRows(data, hm, i).error in {KeyNotFound, DuplicateKey}
  {
    var rks := ReKeys(data, hm);
    BlockSuccess(data, rks, i);
    var e := BlockEnd(data, i);
    assert forall j :: i <= j < e ==> rks[j] == ReKey(data[j], hm);
    var b := Block(data, rks, i);
    if b.Failure? && b.error != KeyNotFound {
      var j :| i <= j < e && rks[j] == Failure(b.error);
      assert ReKey(data[j], hm).Failure?;
    }
  }

  lemma {:induction false} BlockContent(data: seq<Row>, rks: seq<Result<Row>>, i: nat)
    requires |rks| == |data| && i <= |data| && Block(data, rks, i).Success?
    ensures |Block(data, rks, i).value| == BlockEnd(data, i) - i
    ensures forall j :: i <= j < BlockEnd(data, i) ==> rks[j] == Success(Block(data, rks, i).value[j - i])
    decreases |data| - i
  {
    if i < |data| && Continues(data[i]) {
      BlockContent(data, rks, i + 1);
      assert BlockEnd(data, i) == BlockEnd(data, i + 1);
      var rest := Block(data, rks, i + 1).value;
      var r := Block(data, rks, i).value;
      assert r == [rks[i].value] + rest;
      forall j | i < j < BlockEnd(data, i) ensures rks[j] == Success(r[j - i]) {
        assert r[j - i] == rest[j - (i + 1)];
      }
    }
  }

  /** The block holds one re-keyed row per continuation row of the maximal run, in order. */
  lemma SubRowsContent(data: seq<Row>, hm: map<string, string>, i: nat)
    requires i <= |data| && SubRows(data, hm, i).Success?
    ensures |SubRows(data, hm, i).value| == BlockEnd(data, i) - i
    ensures forall j :: i <= j < BlockEnd(data, i) ==> ReKey(data[j], hm) == Success(SubRows(data, hm, i).value[j - i])
  {
    var rks := ReKeys(data, hm);
    BlockContent(data, rks, i);
    forall j | i <= j < BlockEnd(data, i) ensures ReKey(data[j], hm) == Success(SubRows(data, hm, i).value[j - i]) {
      assert rks[j] == ReKey(data[j], hm);
    }
  }

  lemma {:induction false} BlockLocal(data: seq<Row>, other: seq<Row>, rks: seq<Result<Row>>, oks: seq<Result<Row>>, i: nat)
    requires |rks| == |data| && |oks| == |other|
    requires i < |data| && BlockEnd(data, i) < |data| && BlockEnd(data, i) < |other|
    requires forall j :: i <= j <= BlockEnd(data, i) ==> other[j] == data[j] && oks[j] == rks[j]
    ensures Block(other, oks, i) == Block(data, rks, i)
    decreases |data| - i
  {
    if Continues(data[i]) {
      BlockLocal(data, other, rks, oks, i + 1);
    }
  }

  /** Rows after the one that ends the block are never examined: a table that agrees with `data` up
      to and including that row gives the same block. */
  lemma SubRowsLocal(data: seq<Row>, other: seq<Row>, hm: map<string, string>, i: nat)
    requires i < |data| && BlockEnd(data, i) < |data| && BlockEnd(data, i) < |other|
    requires forall j :: i <= j <= BlockEnd(data, i) ==> other[j] == data[j]
    ensures SubRows(other, hm, i) == SubRows(data, hm, i)
  {
    var rks, oks := ReKeys(data, hm), ReKeys(other, hm);
    forall j | i <= j <= BlockEnd(data, i) ensures other[j] == data[j] && oks[j] == rks[j] {
      assert oks[j] == ReKey(other[j], hm);
    }
    BlockLocal(data, other, rks, oks, i);
  }

  /** One row of the block loop: a row without a "Key" column throws, a row whose "Key" is not "#"
      ends the block, and a continuation row's re-keyed row is put in front of the rest. */
  lemma BlockStep(data: seq<Row>, rks: seq<Result<Row>>, i: nat)
    requires |rks| == |data| && i < |data|
    ensures "Key" !in data[i] ==> Block(data, rks, i) == Failure(KeyNotFound)
    ensures "Key" in data[i] && data[i]["Key"] != "#" ==> Block(data, rks, i) == Success([])
    ensures Continues(data[i]) && rks[i].Failure? ==> Block(data, rks, i) == Failure(rks[i].error)
    ensures Continues(data[i]) && rks[i].Success? ==>
      Block(data, rks, i) ==
        (if Block(data, rks, i + 1).Success? then Success([rks[i].value] + Block(data, rks, i + 1).value)
         else Block(data, rks, i + 1))
  {
  }

  /** Moving the block loop past a continuation row that re-keys: the rows collected so far gain
      that row, and the rest of the block starts one row further on. */
  lemma BlockAdvance(data: seq<Row>, rks: seq<Result<Row>>, i: nat, collected: seq<Row>, total: Result<seq<Row>>)
    requires |rks| == |data| && i < |data| && Continues(data[i]) && rks[i].Success?
    requires total ==
      (if Block(data, rks, i).Success? then Success(collected + Block(data, rks, i).value) else Block(data, rks, i))
    ensures total ==
      (if Block(data, rks, i + 1).Success? then Success((collected + [rks[i].value]) + Block(data, rks, i + 1).value)
       else Block(data, rks, i + 1))
  {
    BlockStep(data, rks, i);
    var rest := Block(data, rks, i + 1);
    if rest.Success? {
      assert collected + ([rks[i].value] + rest.value) == (collected + [rks[i].value]) + rest.value;
    }
  }

  /** The first loop of GetSubListDictionary: every column of the start row whose cell does not end
      in "[]", mapped to that cell. */
  method HeaderMapOf(start: Row) returns (headerMap: map<string, string>)
    ensures headerMap == HeaderMap(start)
  {
    headerMap := map[];
    var keys := start.Keys;
    while keys != {}
      invariant keys <= start.Keys
      invariant headerMap == map k | k in start && k !in keys && !EndsWith(start[k], "[]") :: start[k]
      decreases keys
    {
      var key :| key in keys;
      if !EndsWith(start[key], "[]") {
        headerMap := headerMap[key := start[key]];
      }
      keys := keys - {key};
    }
  }

  /** CsvParser.GetSubListDictionary: builds the header map from the start row, then re-keys the
      following rows while their "Key" cell is "#". */
  method GetSubListDictionary(data: seq<Row>, startIndex: nat) returns (r: Result<seq<Row>>)
    requires startIndex < |data|
    ensures r == SubListRows(data, startIndex)
  {
    var headerMap := HeaderMapOf(data[startIndex]);
    ghost var rks := ReKeys(data, headerMap);
    var objData: seq<Row> := [];
    var i := startIndex + 1;
    assert Block(data, rks, i).Success? ==> objData + Block(data, rks, i).value == Block(data, rks, i).value;
    while i < |data|
      invariant startIndex + 1 <= i <= |data|
      invariant SubListRows(data, startIndex) ==
        (if Block(data, rks, i).Success? then Success(objData + Block(data, rks, i).value)
         else Block(data, rks, i))
    {
      var dataLine := data[i];
      if "Key" !in dataLine {
        BlockStep(data, rks, i);
        return Failure(KeyNotFound);
      }
      if dataLine["Key"] != "#" {
        BlockStep(data, rks, i);
        break;
      }
      var rowData := ReKeyRow(dataLine, headerMap);
      assert rks[i] == rowData;
      if rowData.Failure? {
        BlockStep(data, rks, i);
        return Failure(rowData.error);
      }
      BlockAdvance(data, rks, i, objData, SubListRows(data, startIndex));
      objData := objData + [rowData.value];
      i := i + 1;
    }
    assert objData + [] == objData;
    return Success(objData);
  }

  /** The inner loop of GetSubListDictionary: copies the header-mapped columns of one row under
      their new names, throwing when a name is taken twice. */
  method ReKeyRow(row: Row, hm: map<string, string>) returns (r: Result<Row>)
    ensures r == ReKey(row, hm)
  {
    var rowData: Row := map[];
    ghost var done: set<string> := {};
    var rest := row.Keys;
    while rest != {}
      invariant rest <= row.Keys && done == row.Keys - rest
      invariant forall a, b :: a in done && b in done && a in hm && b in hm && a != b ==> hm[a] != hm[b]
      invariant forall k :: k in done && k in hm ==> hm[k] in rowData && rowData[hm[k]] == row[k]
      invariant forall h :: h in rowData ==> exists k :: k in done && k in hm && hm[k] == h
      decreases rest
    {
      var key :| key in rest;
      if key in hm {
        if hm[key] in rowData {
          ghost var b :| b in done && b in hm && hm[b] == hm[key];
          assert Collides(row, hm);
          return Failure(DuplicateKey);
        }
        rowData := rowData[hm[key] := row[key]];
      }
      rest := rest - {key};
      done := done + {key};
    }
    assert done == row.Keys;
    ReKeyComplete(row, hm, rowData);
    return Success(rowData);
  }

  /** A row built with every header-mapped column under its new name, and nothing else, is the
      re-keyed row. */
  lemma ReKeyComplete(row: Row, hm: map<string, string>, rowData: Row)
    requires forall a, b :: a in row && b in row && a in hm && b in hm && a != b ==> hm[a] != hm[b]
    requires forall k :: k in row && k in hm ==> hm[k] in rowData && rowData[hm[k]] == row[k]
    requires forall h :: h in rowData ==> exists k :: k in row && k in hm && hm[k] == h
    ensures ReKey(row, hm) == Success(rowData)
  {
    assert !Collides(row, hm);
    ReKeySpec(row, hm);
    var expected := ReKey(row, hm).value;
    forall h | h in expected ensures h in rowData && rowData[h] == expected[h] {
      var k :| k in row && k in hm && hm[k] == h;
    }
    forall h | h in rowData ensures h in expected {
      var k :| k in row && k in hm && hm[k] == h;
    }
    assert rowData.Keys == expected.Keys;
    assert rowData == expected;
  }

  // ---------------------------------------------------------------------------------------------
  // DeserializeSubList

  /** The element type of a `[]` sub-list field, `type.GetGenericArguments()[0]`: a record type
      with its fields, or a type read by its shape. */
  datatype Element = RecordType(fields: seq<Field>) | ShapeType(shape: Shape)

  /** The first generic argument of a field type: the element of a list, the key of a dictionary or
      of a Key/Value struct; a non-generic type (a scalar, an array) has none. */
  function SubType(ty: FieldType): Option<Element> {
    match ty
    case RecordList(_, fields) => Some(RecordType(fields))
    case ListOf(e) => Some(ShapeType(e))
    case DictOf(k, _) => Some(ShapeType(k))
    case Scalar(Pair(k, _)) => Some(ShapeType(k))
    case _ => None
  }

  /** DeserializeTo(subType, row) for a type read by its shape. An integer is created as 0, and
      its public fields are the constants MaxValue and MinValue, which SetValue cannot write; a string
      has no parameterless constructor; a Key/Value struct sets its Key and Value fields from the
      columns of those names. */
  function ShapeInstance(shape: Shape, row: Row, decoders: seq<Decoder>): Result<Value> {
    match shape
    case Int =>
      if "MaxValue" in row then
        var _ :- Parse(row["MaxValue"], Int, decoders);
        Failure(ConstantField)
      else if "MinValue" in row then
        var _ :- Parse(row["MinValue"], Int, decoders);
        Failure(ConstantField)
      else Success(Int32(0))
    case Str => Failure(MissingConstructor)
    case Pair(k, w) =>
      var key :- if "Key" in row then StoredValue(row["Key"], Scalar(k), decoders) else Success(Default(k));
      var value :- if "Value" in row then StoredValue(row["Value"], Scalar(w), decoders) else Success(Default(w));
      Success(KeyValue(key, value))
    case Enum(_) => Failure(SubListUnsupported)
    case Custom(_) => Failure(SubListUnsupported)
  }

  /** DeserializeTo(subType, row): one element of a sub-list. */
  function ElementOf(el: Element, row: Row, decoders: seq<Decoder>): Result<Value> {
    match el
    case RecordType(fields) => Record(fields, row, decoders)
    case ShapeType(shape) => ShapeInstance(shape, row, decoders)
  }

  /** DeserializeTo(subType, _) as a reader of rows. */
  function ElementReader(el: Element, decoders: seq<Decoder>): Row -> Result<Value> {
    row => ElementOf(el, row, decoders)
  }

  /** One element per row, in order; the first row that fails aborts the list. */
  function ElementsOf(el: Element, rows: seq<Row>, decoders: seq<Decoder>): Result<seq<Value>> {
    ReadAll(ElementReader(el, decoders), rows)
  }

  /** What DeserializeSubList computes: IndexOutOfRange for a field type without a generic
      argument, otherwise the block's rows, each read by DeserializeTo as an element of that
      argument's type. Whether the field can hold the list is SetValue's concern. */
  function SubListOf(data: seq<Row>, start: nat, ty: FieldType, decoders: seq<Decoder>): Result<Value>
    requires start < |data|
  {
    if SubType(ty).None? then Failure(IndexOutOfRange)
    else
      var rows :- SubListRows(data, start);
      var items :- ElementsOf(SubType(ty).value, rows, decoders);
      Success(List(items))
  }

  /** A sub-list holds one element per row of the maximal run of continuation rows after the start
      row. */
  lemma SubListLength(data: seq<Row>, start: nat, ty: FieldType, decoders: seq<Decoder>)
    requires start < |data| && SubListOf(data, start, ty, decoders).Success?
    ensures SubType(ty).Some? && SubListOf(data, start, ty, decoders).value.List?
    ensures |SubListOf(data, start, ty, decoders).value.items| == BlockEnd(data, start + 1) - start - 1
  {
    var hm := HeaderMap(data[start]);
    var rows := SubRows(data, hm, start + 1).value;
    SubRowsContent(data, hm, start + 1);
    ReadAllSound(ElementReader(SubType(ty).value, decoders), rows);
  }

  /** Element j of a sub-list is continuation row j, re-keyed through the start row's header map
      and read as the list's element type. */
  lemma SubListItem(data: seq<Row>, start: nat, ty: FieldType, decoders: seq<Decoder>, j: nat)
    requires start < |data| && SubListOf(data, start, ty, decoders).Success?
    requires j < BlockEnd(data, start + 1) - start - 1
    ensures SubType(ty).Some? && SubListOf(data, start, ty, decoders).value.List?
    ensures ReKey(data[start + 1 + j], HeaderMap(data[start])).Success?
    ensures j < |SubListOf(data, start, ty, decoders).value.items|
    ensures ElementOf(SubType(ty).value, ReKey(data[start + 1 + j], HeaderMap(data[start])).value, decoders) ==
      Success(SubListOf(data, start, ty, decoders).value.items[j])
  {
    var hm := HeaderMap(data[start]);
    var rows := SubListRows(data, start).value;
    var el := SubType(ty).value;
    var read := ElementReader(el, decoders);
    var items := ReadAll(read, rows).value;
    assert SubListOf(data, start, ty, decoders) == Success(List(items));
    SubRowsContent(data, hm, start + 1);
    ReadAllSound(read, rows);
    var row := rows[j];
    assert ReKey(data[start + 1 + j], hm) == Success(row);
    assert read(row) == Success(items[j]);
    assert read(row) == ElementOf(el, row, decoders);
  }

  /** A sub-list can be stored in its field exactly when the field is a list: a dictionary or
      Key/Value field is handed a List of its key type. */
  lemma SubListStored(data: seq<Row>, start: nat, ty: FieldType, decoders: seq<Decoder>)
    requires start < |data| && SubListOf(data, start, ty, decoders).Success?
    ensures SetValue(SubListOf(data, start, ty, decoders).value, ty).Success? <==> ty.ListOf? || ty.RecordList?
  {
  }

  /** Under decoders that respect shapes, a sub-list of a list field fits the field: every element
      has the element type's shape. */
  lemma SubListFits(data: seq<Row>, start: nat, ty: FieldType, decoders: seq<Decoder>)
    requires WellTyped(decoders)
    requires start < |data| && SubListOf(data, start, ty, decoders).Success?
    requires ty.ListOf? || ty.RecordList?
    ensures Fits(SubListOf(data, start, ty, decoders).value, ty)
  {
    var el := SubType(ty).value;
    var rows := SubListRows(data, start).value;
    var read := ElementReader(el, decoders);
    ReadAllSound(read, rows);
    var items := ReadAll(read, rows).value;
    assert SubListOf(data, start, ty, decoders).value == List(items);
    forall i | 0 <= i < |items| ensures ElementHasShape(el, items[i]) {
      assert read(rows[i]) == ElementOf(el, rows[i], decoders);
      ElementFits(el, rows[i], decoders);
    }
  }

  /** The shape of an element: a record is a custom value, any other element has its own shape. */
  predicate ElementHasShape(el: Element, v: Value) {
    match el
    case RecordType(_) => v.Rec?
    case ShapeType(shape) => HasShape(v, shape)
  }

  /** Under decoders that respect shapes, an element that reads has the element type's shape. */
  lemma ElementFits(el: Element, row: Row, decoders: seq<Decoder>)
    requires WellTyped(decoders)
    requires ElementOf(el, row, decoders).Success?
    ensures ElementHasShape(el, ElementOf(el, row, decoders).value)
  {
    if el.ShapeType? && el.shape.Pair? {
      var k, w := el.shape.key, el.shape.value;
      if "Key" in row {
        StoredValueSpec(row["Key"], Scalar(k), decoders);
        DeserializeObjectFits(row["Key"], Scalar(k), decoders);
      } else {
        DefaultHasShape(k);
      }
      if "Value" in row {
        StoredValueSpec(row["Value"], Scalar(w), decoders);
        DeserializeObjectFits(row["Value"], Scalar(w), decoders);
      } else {
        DefaultHasShape(w);
      }
    }
  }

  /** DeserializeTo(subType, row) inside DeserializeSubList: a record type goes through the field
      loop, any other type is read by its shape. */
  method DeserializeElement(el: Element, row: Row, decoders: seq<Decoder>) returns (r: Result<Value>)
    ensures r == ElementOf(el, row, decoders)
  {
    match el
    case RecordType(fields) =>
      r := DeserializeTo(fields, row, decoders);
    case ShapeType(shape) =>
      r := ShapeInstance(shape, row, decoders);
  }

  /** The loop of DeserializeSubList: adds one element per block row to a new list, in order. */
  method AddElements(el: Element, rows: seq<Row>, decoders: seq<Decoder>) returns (r: Result<seq<Value>>)
    ensures r == ElementsOf(el, rows, decoders)
  {
    ghost var read := ElementReader(el, decoders);
    var list: seq<Value> := [];
    var k := 0;
    while k < |rows|
      invariant 0 <= k <= |rows|
      invariant ReadAll(read, rows[..k]) == Success(list)
    {
      assert rows[..k + 1][..k] == rows[..k];
      var item := DeserializeElement(el, rows[k], decoders);
      assert read(rows[k]) == item;
      if item.Failure? {
        ReadAllFailExtends(read, rows, k + 1);
        return Failure(item.error);
      }
      list := list + [item.value];
      k := k + 1;
    }
    assert rows[..k] == rows;
    return Success(list);
  }

  /** CsvParser.DeserializeSubList: takes the first generic argument of the field type, extracts
      the block and adds one element per block row to a new list. */
  method DeserializeSubList(data: seq<Row>, startIndex: nat, ty: FieldType, decoders: seq<Decoder>)
    returns (r: Result<Value>)
    requires startIndex < |data|
    ensures r == SubListOf(data, startIndex, ty, decoders)
  {
    var subType := SubType(ty);
    if subType.None? {
      return Failure(IndexOutOfRange);
    }
    var subData := GetSubListDictionary(data, startIndex);
    if subData.Failure? {
      return Failure(subData.error);
    }
    var items := AddElements(subType.value, subData.value, decoders);
    if items.Failure? {
      return Failure(items.error);
    }
    return Success(List(items.value));
  }
}
