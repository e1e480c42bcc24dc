/** The two ways GoogleSheetConfigsImporter turns a parsed sheet into configs: one config per row
    (GoogleSheetConfigsImporter.OnImport), or one config for the whole sheet with one field per row
    (GoogleSheetSingleConfigSubListImporter.Deserialize). */
module ConfigsImporter {
  import opened Errors
  import opened Text
  import opened Shapes
  import opened CsvTable
  import opened Records

  // ---------------------------------------------------------------------------------------------
  // One config per row

  /** GoogleSheetConfigsImporter.OnImport: appends to a list the config DeserializeTo reads from
      each row, in row order, with no user decoders. */
  method OnImport(data: seq<Row>, fields: seq<Field>) returns (r: Result<seq<Value>>)
    ensures r == RecordsOf(fields, data, [])
    ensures r.Success? ==>
      |r.value| == |data| && forall i :: 0 <= i < |data| ==> Record(fields, data[i], []) == Success(r.value[i])
  {
    var configs: seq<Value> := [];
    var i := 0;
    while i < |data|
      invariant 0 <= i <= |data|
      invariant RecordsOf(fields, data[..i], []) == Success(configs)
    {
      assert data[..i + 1][..i] == data[..i];
      var config := DeserializeTo(fields, data[i], []);
      if config.Failure? {
        ReadAllFailExtends(RecordReader(fields, []), data, i + 1);
        return Failure(config.error);
      }
      configs := configs + [config.value];
      i := i + 1;
    }
    assert data[..i] == data;
    RecordsOfSpec(fields, data, []);
    return Success(configs);
  }

  // ---------------------------------------------------------------------------------------------
  // One config for the whole sheet: each row names a field in its "Key" cell

  /** The field name a "Key" cell gives: when the cell ends in "[]" (a sub-list row), the cell with
      every "[]" removed; otherwise the cell itself. */
  function FieldNameOf(key: string): string {
    if EndsWith(key, "[]") then Replace(key, "[]", "") else key
  }

  /** Type.GetField(name): the field declared with that name, if any. */
  function FieldNamed(fields: seq<Field>, name: string): (r: Option<Field>)
    ensures r.Some? ==> r.value in fields && r.value.name == name
    ensures r.None? ==> forall i :: 0 <= i < |fields| ==> fields[i].name != name
  {
    if fields == [] then None
    else if fields[0].name == name then Some(fields[0])
    else FieldNamed(fields[1..], name)
  }

  /** What one row does to the config: nothing, or set the named field to a value. */
  type Update = Option<(string, Value)>

  /** What row `i` contributes: nothing when its "Key" names no field; for a sub-list row the
      elements of the block that follows it; otherwise its "Value" cell read for the field's type.
      Either value then goes through SetValue, which fails when the field cannot hold it. */
  function RowValue(data: seq<Row>, i: nat, fields: seq<Field>, decoders: seq<Decoder>): Result<Update>
    requires i < |data|
  {
    var row := data[i];
    if "Key" !in row then Failure(KeyNotFound)
    else
      var key := row["Key"];
      var field := FieldNamed(fields, FieldNameOf(key));
      if field.None? then Success(None)
      else if EndsWith(key, "[]") then
        var v :- SubListOf(data, i, field.value.ty, decoders);
        var stored :- SetValue(v, field.value.ty);
        Success(Some((field.value.name, stored)))
      else if "Value" !in row then Failure(KeyNotFound)
      else
        var v :- StoredValue(row["Value"], field.value.ty, decoders);
        Success(Some((field.value.name, v)))
  }

  /** The outcome of every row, in row order. */
  function RowValues(data: seq<Row>, fields: seq<Field>, decoders: seq<Decoder>): (us: seq<Result<Update>>)
    ensures |us| == |data|
  {
    RowsBefore(data, |data|, fields, decoders)
  }

  /** The outcomes of the first `n` rows. */
  function RowsBefore(data: seq<Row>, n: nat, fields: seq<Field>, decoders: seq<Decoder>): (us: seq<Result<Update>>)
    requires n <= |data|
    ensures |us| == n
  {
    if n == 0 then [] else RowsBefore(data, n - 1, fields, decoders) + [RowValue(data, n - 1, fields, decoders)]
  }

  /** Outcome `i` of the first `n` is row `i`'s. */
  lemma {:induction false} RowsBeforeAt(data: seq<Row>, n: nat, fields: seq<Field>, decoders: seq<Decoder>, i: nat)
    requires i < n <= |data|
    ensures RowsBefore(data, n, fields, decoders)[i] == RowValue(data, i, fields, decoders)
    decreases n
  {
    if i < n - 1 {
      RowsBeforeAt(data, n - 1, fields, decoders, i);
    }
  }

  /** Outcome `i` of the sheet is row `i`'s. */
  lemma RowValuesAt(data: seq<Row>, fields: seq<Field>, decoders: seq<Decoder>, i: nat)
    requires i < |data|
    ensures RowValues(data, fields, decoders)[i] == RowValue(data, i, fields, decoders)
  {
    RowsBeforeAt(data, |data|, fields, decoders, i);
  }

  /** A config with one row's update applied: the field it names now holds its value. */
  function Apply(config: map<string, Value>, u: Update): map<string, Value> {
    if u.None? then config else config[u.value.0 := u.value.1]
  }

  /** The fields set after applying the first `n` row outcomes in order; the first failure ends it. */
  function ConfigAfter(us: seq<Result<Update>>, n: nat): Result<map<string, Value>>
    requires n <= |us|
  {
    if n == 0 then Success(map[])
    else
      var config :- ConfigAfter(us, n - 1);
      var update :- us[n - 1];
      Success(Apply(config, update))
  }

  /** What the single-config importer produces: the config after every row. */
  function SingleConfig(data: seq<Row>, fields: seq<Field>, decoders: seq<Decoder>): Result<Value> {
    var config :- ConfigAfter(RowValues(data, fields, decoders), |data|);
    Success(Rec(config))
  }

  /** Outcome `j` sets the field named `x`. */
  predicate Sets(us: seq<Result<Update>>, j: nat, x: string)
    requires j < |us|
  {
    us[j].Success? && us[j].value.Some? && us[j].value.value.0 == x
  }

  lemma {:induction false} ConfigFailExtends(us: seq<Result<Update>>, m: nat, n: nat)
    requires m <= n <= |us| && ConfigAfter(us, m).Failure?
    ensures ConfigAfter(us, n) == ConfigAfter(us, m)
    decreases n
  {
    if m < n {
      ConfigFailExtends(us, m, n - 1);
    }
  }

  /** One step of the loop: a failing outcome ends it with its error, any other is applied. */
  lemma ConfigStep(us: seq<Result<Update>>, i: nat, config: map<string, Value>, update: Result<Update>)
    requires i < |us| && ConfigAfter(us, i) == Success(config) && us[i] == update
    ensures update.Success? ==> ConfigAfter(us, i + 1) == Success(Apply(config, update.value))
    ensures update.Failure? ==> ConfigAfter(us, |us|) == Failure(update.error)
  {
    if update.Failure? {
      ConfigFailExtends(us, i + 1, |us|);
    }
  }

  /** The body of the single-config loop for row `i`: a "Key" ending in "[]" opens a sub-list whose
      records are read from the rows after it; any other "Key" is read from the row's "Value" cell;
      a "Key" that names no field leaves the config as it is. */
  method ReadRow(data: seq<Row>, i: nat, fields: seq<Field>, decoders: seq<Decoder>)
    returns (r: Result<Update>)
    requires i < |data|
    ensures r == RowValue(data, i, fields, decoders)
  {
    var row := data[i];
    if "Key" !in row {
      return Failure(KeyNotFound);
    }
    var fieldName := row["Key"];
    var isSubList := EndsWith(fieldName, "[]");
    if isSubList {
      fieldName := Replace(fieldName, "[]", "");
    }
    var field := FieldNamed(fields, fieldName);
    if field.None? {
      return Success(None);
    }
    var value: Result<Value>;
    if isSubList {
      value := DeserializeSubList(data, i, field.value.ty, decoders);
    } else if "Value" !in row {
      return Failure(KeyNotFound);
    } else {
      value := DeserializeObject(row["Value"], field.value.ty, decoders);
    }
    if value.Failure? {
      return Failure(value.error);
    }
    var stored := SetValue(value.value, field.value.ty);
    if stored.Failure? {
      return Failure(stored.error);
    }
    return Success(Some((field.value.name, stored.value)));
  }

  /** GoogleSheetSingleConfigSubListImporter.Deserialize: visits the rows in index order and sets the
      field each one names; the first row that fails ends the import with its error. */
  method Deserialize(data: seq<Row>, fields: seq<Field>, decoders: seq<Decoder>) returns (r: Result<Value>)
    ensures r == SingleConfig(data, fields, decoders)
  {
    ghost var us := RowValues(data, fields, decoders);
    var config: map<string, Value> := map[];
    var i := 0;
    while i < |data|
      invariant 0 <= i <= |data|
      invariant ConfigAfter(us, i) == Success(config)
    {
      var update := ReadRow(data, i, fields, decoders);
      RowValuesAt(data, fields, decoders, i);
      ConfigStep(us, i, config, update);
      if update.Failure? {
        return Failure(update.error);
      }
      config := Apply(config, update.value);
      i := i + 1;
    }
    return Success(Rec(config));
  }

  // ---------------------------------------------------------------------------------------------
  // Properties of the single-config loop

  /** The loop succeeds exactly when every row it visits does, and otherwise fails with the error of
      the first row that fails. */
  lemma {:induction false} ConfigSuccess(us: seq<Result<Update>>, n: nat)
    requires n <= |us|
    ensures ConfigAfter(us, n).Success? <==> forall j :: 0 <= j < n ==> us[j].Success?
    ensures ConfigAfter(us, n).Failure? ==>
      exists j :: 0 <= j < n && us[j] == Failure(ConfigAfter(us, n).error) && forall l :: 0 <= l < j ==> us[l].Success?
    decreases n
  {
    if n > 0 {
      ConfigSuccess(us, n - 1);
      if ConfigAfter(us, n - 1).Success? && us[n - 1].Failure? {
        assert us[n - 1] == Failure(ConfigAfter(us, n).error);
      }
    }
  }

  /** Every field the config holds was set by some row, so a field no row names keeps its default. */
  lemma {:induction false} ConfigKeysNamed(us: seq<Result<Update>>, n: nat, x: string)
    requires n <= |us| && ConfigAfter(us, n).Success? && x in ConfigAfter(us, n).value
    ensures exists j :: 0 <= j < n && Sets(us, j, x)
    decreases n
  {
    if Sets(us, n - 1, x) {
    } else {
      ConfigKeysNamed(us, n - 1, x);
    }
  }

  /** A field holds the value of the LAST row that sets it. */
  lemma {:induction false} LastRowWins(us: seq<Result<Update>>, n: nat, j: nat, x: string, v: Value)
    requires j < n <= |us| && ConfigAfter(us, n).Success?
    requires us[j] == Success(Some((x, v)))
    requires forall l :: j < l < n ==> !Sets(us, l, x)
    ensures x in ConfigAfter(us, n).value && ConfigAfter(us, n).value[x] == v
    decreases n
  {
    if j < n - 1 {
      assert !Sets(us, n - 1, x);
      LastRowWins(us, n - 1, j, x, v);
    }
  }

  /** A row whose "Key" names no field is passed over without error. */
  lemma SkipUnknown(data: seq<Row>, fields: seq<Field>, decoders: seq<Decoder>, i: nat)
    requires i < |data| && "Key" in data[i]
    requires forall f :: f in fields ==> f.name != FieldNameOf(data[i]["Key"])
    ensures RowValue(data, i, fields, decoders) == Success(None)
    ensures ConfigAfter(RowValues(data, fields, decoders), i + 1) == ConfigAfter(RowValues(data, fields, decoders), i)
  {
    RowValuesAt(data, fields, decoders, i);
  }

  /** Continuation rows ("#" in the "Key" column) of a sub-list are passed over the same way, as no
      field can be named "#". */
  lemma SkipContinuation(data: seq<Row>, fields: seq<Field>, decoders: seq<Decoder>, i: nat)
    requires i < |data| && Continues(data[i])
    requires forall f :: f in fields ==> f.name != "#"
    ensures ConfigAfter(RowValues(data, fields, decoders), i + 1) == ConfigAfter(RowValues(data, fields, decoders), i)
  {
    assert !EndsWith("#", "[]");
    SkipUnknown(data, fields, decoders, i);
  }

  /** Removing "[]" from a field name followed by "[]" gives the name back, when the name itself
      holds no "[]". */
  lemma SubListKeyName(name: string)
    requires forall i :: !OccursAt(name, "[]", i)
    ensures FieldNameOf(name + "[]") == name
  {
    var s := name + "[]";
    assert EndsWith(s, "[]") by {
      assert s[|s| - 2..] == "[]";
    }
    forall i | 0 <= i < |name| ensures !OccursAt(s, "[]", i) {
      if i + 2 <= |name| {
        assert !OccursAt(name, "[]", i);
        assert s[i..i + 2] == name[i..i + 2];
      } else {
        assert s[i..i + 2][1] == s[i + 1] == '[';
      }
    }
    ReplaceKeepsPrefix(name, "[]", "[]", "");
    assert Replace("[]", "[]", "") == "" + Replace([], "[]", "");
    assert name + "" == name;
  }

  /** A row whose "Key" is a field's name followed by "[]" sets that field to the sub-list that starts
      at the row; a row whose "Key" is the name itself sets it to its "Value" cell. */
  lemma RowValueCases(data: seq<Row>, fields: seq<Field>, decoders: seq<Decoder>, i: nat, f: Field)
    requires i < |data| && "Key" in data[i]
    requires FieldNamed(fields, f.name) == Some(f)
    requires forall k :: !OccursAt(f.name, "[]", k)
    ensures data[i]["Key"] == f.name + "[]" ==>
      RowValue(data, i, fields, decoders) ==
        (var v :- SubListOf(data, i, f.ty, decoders); var stored :- SetValue(v, f.ty); Success(Some((f.name, stored))))
    ensures data[i]["Key"] == f.name && "Value" in data[i] ==>
      RowValue(data, i, fields, decoders) ==
        (var v :- StoredValue(data[i]["Value"], f.ty, decoders); Success(Some((f.name, v))))
  {
    if data[i]["Key"] == f.name + "[]" {
      SubListKeyName(f.name);
    } else if data[i]["Key"] == f.name {
      assert !EndsWith(f.name, "[]") by {
        assert !OccursAt(f.name, "[]", |f.name| - 2);
      }
    }
  }
}
