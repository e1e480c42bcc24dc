/** The editor tool that finds every config importer, orders them, and imports one sheet:
    GoogleSheetToolImporter.GetAllImporters and GoogleSheetToolImporter.ImportSheetAsync. */
module ToolImporter {
  import opened Errors
  import opened Text
  import opened Shapes
  import opened CsvTable

  // ---------------------------------------------------------------------------------------------
  // Finding the importers

  /** What reflection tells about one type of a loaded assembly: its name, whether it is abstract or
      an interface, whether it implements IGoogleSheetConfigsImporter, and the ImportOrder of its
      GoogleSheetImportOrderAttribute, if it carries one. */
  datatype TypeInfo = TypeInfo(name: string, isAbstract: bool, isInterface: bool, isImporter: bool, importOrder: Option<int>)

  /** One importer found: the name of its type and its import order. */
  datatype ImportData = ImportData(typeName: string, importOrder: int)

  /** A type is instantiated as an importer when it is concrete and implements the interface. */
  predicate Instantiated(t: TypeInfo) {
    !t.isAbstract && !t.isInterface && t.isImporter
  }

  /** The import order of a type: its attribute's value, or Int32.MaxValue without the attribute. */
  function OrderOf(t: TypeInfo): (r: int)
    ensures t.importOrder.None? ==> r == MaxInt32
  {
    if t.importOrder.Some? then t.importOrder.value else MaxInt32
  }

  function DataOf(t: TypeInfo): ImportData {
    ImportData(t.name, OrderOf(t))
  }

  /** The importers of one assembly, in the order of its types. */
  function ImportersIn(types: seq<TypeInfo>): seq<ImportData>
    decreases |types|
  {
    if types == [] then []
    else
      var last := types[|types| - 1];
      ImportersIn(types[..|types| - 1]) + (if Instantiated(last) then [DataOf(last)] else [])
  }

  /** The importers of the first `n` assemblies, assembly by assembly. */
  function Collected(assemblies: seq<seq<TypeInfo>>, n: nat): seq<ImportData>
    requires n <= |assemblies|
  {
    if n == 0 then [] else Collected(assemblies, n - 1) + ImportersIn(assemblies[n - 1])
  }

  /** Scanning one more type adds it when it is instantiated. */
  lemma ImportersStep(types: seq<TypeInfo>, k: nat)
    requires k < |types|
    ensures ImportersIn(types[..k + 1]) ==
      ImportersIn(types[..k]) + (if Instantiated(types[k]) then [DataOf(types[k])] else [])
  {
    assert types[..k + 1][..k] == types[..k];
  }

  /** An assembly contributes exactly its concrete importer types. */
  lemma ImportersInSpec(types: seq<TypeInfo>, d: ImportData)
    ensures d in ImportersIn(types) <==> exists k :: 0 <= k < |types| && Instantiated(types[k]) && d == DataOf(types[k])
  {
    if d in ImportersIn(types) {
      ImportersInSound(types, d);
    }
    if exists k :: 0 <= k < |types| && Instantiated(types[k]) && d == DataOf(types[k]) {
      var k :| 0 <= k < |types| && Instantiated(types[k]) && d == DataOf(types[k]);
      ImportersInComplete(types, k, d);
    }
  }

  /** Every importer an assembly contributes comes from one of its concrete importer types. */
  lemma {:induction false} ImportersInSound(types: seq<TypeInfo>, d: ImportData)
    requires d in ImportersIn(types)
    ensures exists k :: 0 <= k < |types| && Instantiated(types[k]) && d == DataOf(types[k])
    decreases |types|
  {
    var n := |types| - 1;
    var last := types[n];
    assert ImportersIn(types) == ImportersIn(types[..n]) + (if Instantiated(last) then [DataOf(last)] else []);
    if d in ImportersIn(types[..n]) {
      ImportersInSound(types[..n], d);
      var k :| 0 <= k < n && Instantiated(types[..n][k]) && d == DataOf(types[..n][k]);
      assert types[k] == types[..n][k];
    } else {
      assert Instantiated(types[n]) && d == DataOf(types[n]);
    }
  }

  /** Every concrete importer type of an assembly is contributed. */
  lemma {:induction false} ImportersInComplete(types: seq<TypeInfo>, k: nat, d: ImportData)
    requires k < |types| && Instantiated(types[k]) && d == DataOf(types[k])
    ensures d in ImportersIn(types)
    decreases |types|
  {
    var n := |types| - 1;
    var last := types[n];
    assert ImportersIn(types) == ImportersIn(types[..n]) + (if Instantiated(last) then [DataOf(last)] else []);
    if k < n {
      assert types[..n][k] == types[k];
      ImportersInComplete(types[..n], k, d);
    }
  }

  /** The importers found are exactly the concrete importer types of the assemblies scanned. */
  lemma {:induction false} CollectedSpec(assemblies: seq<seq<TypeInfo>>, n: nat, d: ImportData)
    requires n <= |assemblies|
    ensures d in Collected(assemblies, n) <==>
      exists i, k :: 0 <= i < n && 0 <= k < |assemblies[i]| && Instantiated(assemblies[i][k]) && d == DataOf(assemblies[i][k])
    decreases n
  {
    if n > 0 {
      CollectedSpec(assemblies, n - 1, d);
      ImportersInSpec(assemblies[n - 1], d);
    }
  }

  // ---------------------------------------------------------------------------------------------
  // The order the importers run in

  /** string.Compare(a, b, StringComparison.Ordinal), reduced to its sign: the first differing
      character decides, and a proper prefix comes first. */
  function OrdinalCompare(a: string, b: string): (r: int)
    ensures -1 <= r <= 1
    ensures r == 0 <==> a == b
  {
    if a == [] && b == [] then 0
    else if a == [] then -1
    else if b == [] then 1
    else if a[0] < b[0] then -1
    else if a[0] > b[0] then 1
    else
      assert a == [a[0]] + a[1..] && b == [b[0]] + b[1..];
      OrdinalCompare(a[1..], b[1..])
  }

  /** Int32.CompareTo, reduced to its sign. */
  function IntCompare(x: int, y: int): int {
    if x < y then -1 else if x > y then 1 else 0
  }

  /** The comparison GetAllImporters sorts with: by import order, and by type name between importers
      of the same order. */
  function Compare(x: ImportData, y: ImportData): int {
    if x.importOrder == y.importOrder then OrdinalCompare(x.typeName, y.typeName)
    else IntCompare(x.importOrder, y.importOrder)
  }

  /** `x` may come before `y`. */
  predicate Le(x: ImportData, y: ImportData) {
    Compare(x, y) <= 0
  }

  /** Each importer may come before every later one. */
  predicate Sorted(s: seq<ImportData>) {
    forall i, j :: 0 <= i < j < |s| ==> Le(s[i], s[j])
  }

  lemma {:induction false} OrdinalAntisymmetric(a: string, b: string)
    ensures OrdinalCompare(b, a) == -OrdinalCompare(a, b)
    decreases |a|
  {
    if a != [] && b != [] && a[0] == b[0] {
      OrdinalAntisymmetric(a[1..], b[1..]);
    }
  }

  lemma {:induction false} OrdinalTransitive(a: string, b: string, c: string)
    requires OrdinalCompare(a, b) <= 0 && OrdinalCompare(b, c) <= 0
    ensures OrdinalCompare(a, c) <= 0
    decreases |a|
  {
    if a != [] && b != [] && c != [] && a[0] == b[0] == c[0] {
      OrdinalTransitive(a[1..], b[1..], c[1..]);
    }
  }

  /** The comparison is antisymmetric: swapping the arguments flips the sign. */
  lemma CompareAntisymmetric(x: ImportData, y: ImportData)
    ensures Compare(y, x) == -Compare(x, y)
  {
    OrdinalAntisymmetric(x.typeName, y.typeName);
  }

  /** The comparison is transitive, so the sort is well defined. */
  lemma CompareTransitive(x: ImportData, y: ImportData, z: ImportData)
    requires Le(x, y) && Le(y, z)
    ensures Le(x, z)
  {
    if x.importOrder == y.importOrder == z.importOrder {
      OrdinalTransitive(x.typeName, y.typeName, z.typeName);
    }
  }

  /** Two importers tie only when they have the same order and the same type name. */
  lemma CompareTies(x: ImportData, y: ImportData)
    ensures Compare(x, y) == 0 <==> x == y
  {
  }

  /** An importer without the attribute runs after every importer whose order is below Int32.MaxValue. */
  lemma UnorderedLast(t: TypeInfo, x: ImportData)
    requires t.importOrder.None? && x.importOrder < MaxInt32
    ensures Compare(x, DataOf(t)) < 0 && Compare(DataOf(t), x) > 0
  {
  }

  /** List.Sort with the comparison above, as an insertion sort over the array: afterwards the
      importers are in order and are the same importers as before. */
  method SortImporters(a: array<ImportData>)
    modifies a
    ensures Sorted(a[..])
    ensures multiset(a[..]) == multiset(old(a[..]))
  {
    var i := 0;
    while i < a.Length
      invariant 0 <= i <= a.Length
      invariant SortedBelow(a[..], i)
      invariant multiset(a[..]) == multiset(old(a[..]))
    {
      var j := i;
      while j > 0 && !Le(a[j - 1], a[j])
        invariant 0 <= j <= i
        invariant SortedExcept(a[..], i, j)
        invariant multiset(a[..]) == multiset(old(a[..]))
      {
        InsertSwap(a[..], i, j);
        a[j - 1], a[j] := a[j], a[j - 1];
        j := j - 1;
      }
      InsertDone(a[..], i, j);
      i := i + 1;
    }
  }

  /** The first `n` importers are in order. */
  predicate SortedBelow(s: seq<ImportData>, n: nat)
    requires n <= |s|
  {
    forall k, l :: 0 <= k < l < n ==> Le(s[k], s[l])
  }

  /** The first `n + 1` importers are in order, except that the one at `j` may be out of place. */
  predicate SortedExcept(s: seq<ImportData>, n: nat, j: nat)
    requires n < |s|
  {
    forall k, l :: 0 <= k < l <= n && l != j ==> Le(s[k], s[l])
  }

  /** Moving the out-of-place importer one step down keeps the rest in order and the contents. */
  lemma InsertSwap(s: seq<ImportData>, n: nat, j: nat)
    requires 0 < j <= n < |s| && SortedExcept(s, n, j) && !Le(s[j - 1], s[j])
    ensures SortedExcept(s[j - 1 := s[j]][j := s[j - 1]], n, j - 1)
    ensures multiset(s[j - 1 := s[j]][j := s[j - 1]]) == multiset(s)
  {
    CompareAntisymmetric(s[j - 1], s[j]);
  }

  /** Once the out-of-place importer follows one it may come after, the first `n + 1` are in order. */
  lemma InsertDone(s: seq<ImportData>, n: nat, j: nat)
    requires j <= n < |s| && SortedExcept(s, n, j) && (j == 0 || Le(s[j - 1], s[j]))
    ensures SortedBelow(s, n + 1)
  {
    forall k | 0 <= k < j ensures Le(s[k], s[j]) {
      if k < j - 1 {
        CompareTransitive(s[k], s[j - 1], s[j]);
      }
    }
  }

  /** The inner loop of GetAllImporters: the concrete importers of one assembly, in type order. */
  method ScanTypes(types: seq<TypeInfo>) returns (found: seq<ImportData>)
    ensures found == ImportersIn(types)
  {
    found := [];
    var k := 0;
    while k < |types|
      invariant 0 <= k <= |types|
      invariant found == ImportersIn(types[..k])
    {
      ImportersStep(types, k);
      var t := types[k];
      if !t.isAbstract && !t.isInterface && t.isImporter {
        var importOrder := MaxInt32;
        if t.importOrder.Some? {
          importOrder := t.importOrder.value;
        }
        found := found + [ImportData(t.name, importOrder)];
      }
      k := k + 1;
    }
    assert types[..k] == types;
  }

  /** GetAllImporters: scans every type of every loaded assembly, keeps the concrete importers with
      their order, and sorts them. */
  method GetAllImporters(assemblies: seq<seq<TypeInfo>>) returns (importers: seq<ImportData>)
    ensures Sorted(importers)
    ensures multiset(importers) == multiset(Collected(assemblies, |assemblies|))
  {
    var found: seq<ImportData> := [];
    var i := 0;
    while i < |assemblies|
      invariant 0 <= i <= |assemblies|
      invariant found == Collected(assemblies, i)
    {
      var more := ScanTypes(assemblies[i]);
      found := found + more;
      i := i + 1;
    }
    var a := new ImportData[|found|](j requires 0 <= j < |found| => found[j]);
    assert a[..] == found;
    SortImporters(a);
    importers := a[..];
  }

  // ---------------------------------------------------------------------------------------------
  // Importing one sheet

  /** The CSV export address ImportSheetAsync downloads from: "edit#" becomes "export?format=csv&",
      and a spreadsheet id that is not blank replaces the characters between "/d/" and "/edit#",
      with the positions taken in the address before the replacement. String.Remove fails when that
      span does not fit. */
  function SheetUrl(url: string, spreadsheetId: string): Result<string> {
    var indexStart := IndexOf(url, "/d/") + 3;
    var indexCount := IndexOf(url, "/edit#") - indexStart;
    var replaced := Replace(url, "edit#", "export?format=csv&");
    if IsBlank(spreadsheetId) then Success(replaced)
    else if indexCount < 0 || indexStart + indexCount > |replaced| then Failure(ArgumentOutOfRange)
    else Success(replaced[..indexStart] + spreadsheetId + replaced[indexStart + indexCount..])
  }

  /** Replacing with a text at least as long as the pattern never shortens the string. */
  lemma {:induction false} ReplaceLonger(s: string, pat: string, rep: string)
    requires pat != [] && |pat| <= |rep|
    ensures |s| <= |Replace(s, pat, rep)|
    decreases |s|
  {
    if |s| >= |pat| {
      if s[..|pat|] == pat {
        ReplaceLonger(s[|pat|..], pat, rep);
      } else {
        ReplaceLonger(s[1..], pat, rep);
      }
    }
  }

  /** Replacing changes nothing in a string the pattern does not occur in. */
  lemma ReplaceAbsent(s: string, pat: string, rep: string)
    requires pat != [] && forall i :: 0 <= i < |s| ==> !OccursAt(s, pat, i)
    ensures Replace(s, pat, rep) == s
  {
    assert s + [] == s;
    ReplaceKeepsPrefix(s, [], pat, rep);
  }

  /** The address is built without error exactly when the id is blank or "/edit#" occurs no earlier
      than three characters after the first "/d/". */
  lemma SheetUrlFails(url: string, spreadsheetId: string)
    ensures SheetUrl(url, spreadsheetId).Failure? <==>
      !IsBlank(spreadsheetId) && IndexOf(url, "/edit#") < IndexOf(url, "/d/") + 3
  {
    ReplaceLonger(url, "edit#", "export?format=csv&");
  }

  /** The positions ImportSheetAsync finds in an edit address `pre/d/ID/edit#frag`. */
  lemma EditUrlIndices(pre: string, id0: string, frag: string)
    requires forall i :: 0 <= i < |pre| ==> !OccursAt(pre + "/d/" + id0 + "/edit#" + frag, "/d/", i)
    requires forall i :: 0 <= i < |pre| + |id0| + 4 ==> !OccursAt(pre + "/d/" + id0 + "/edit#" + frag, "edit#", i)
    ensures IndexOf(pre + "/d/" + id0 + "/edit#" + frag, "/d/") == |pre|
    ensures IndexOf(pre + "/d/" + id0 + "/edit#" + frag, "/edit#") == |pre| + 3 + |id0|
  {
    var url := pre + "/d/" + id0 + "/edit#" + frag;
    var p := |pre|;
    var q := p + 3 + |id0|;
    assert OccursAt(url, "/d/", p) by {
      assert url[p..p + 3] == "/d/";
    }
    assert OccursAt(url, "/edit#", q) by {
      assert url[q..q + 6] == "/edit#";
    }
    forall i | 0 <= i < q ensures !OccursAt(url, "/edit#", i) {
      assert !OccursAt(url, "edit#", i + 1);
      if i + 6 <= |url| {
        assert url[i + 1..i + 6] == url[i..i + 6][1..];
      }
    }
  }

  /** Replacing in a string that starts with the pattern and has no other occurrence. */
  lemma ReplaceLeading(pat: string, rest: string, rep: string)
    requires pat != [] && forall i :: 0 <= i < |rest| ==> !OccursAt(rest, pat, i)
    ensures Replace(pat + rest, pat, rep) == rep + rest
  {
    var s := pat + rest;
    assert s[..|pat|] == pat && s[|pat|..] == rest;
    ReplaceAbsent(rest, pat, rep);
  }

  /** A pattern absent from the tail of a string is absent from the tail taken on its own. */
  lemma AbsentInSuffix(s: string, k: nat, pat: string)
    requires k <= |s| && forall i :: k <= i < |s| ==> !OccursAt(s, pat, i)
    ensures forall i :: 0 <= i < |s| - k ==> !OccursAt(s[k..], pat, i)
  {
    forall i | 0 <= i < |s| - k ensures !OccursAt(s[k..], pat, i) {
      if OccursAt(s[k..], pat, i) {
        assert s[k..][i..i + |pat|] == s[k + i..k + i + |pat|];
        assert OccursAt(s, pat, k + i);
      }
    }
  }

  /** Replacing in `url == x + (pat + frag)` where that `pat` is the only occurrence touches only it. */
  lemma ReplaceOnly(url: string, x: string, pat: string, rep: string, frag: string)
    requires pat != [] && url == x + (pat + frag)
    requires forall i :: 0 <= i < |url| && i != |x| ==> !OccursAt(url, pat, i)
    ensures Replace(url, pat, rep) == x + (rep + frag)
  {
    var y := pat + frag;
    forall i | 0 <= i < |x| ensures !OccursAt(x + y, pat, i) {
      assert i != |x|;
    }
    ReplaceKeepsPrefix(x, y, pat, rep);
    var k := |x| + |pat|;
    forall i | k <= i < |url| ensures !OccursAt(url, pat, i) {
      assert i != |x|;
    }
    AbsentInSuffix(url, k, pat);
    assert url[k..] == frag;
    ReplaceLeading(pat, frag, rep);
    assert Replace(y, pat, rep) == rep + frag;
  }

  /** Replacing in `head + slash + pat + frag` where that `pat` is the only occurrence touches only
      it; `sp` and `sr` are `slash + pat` and `slash + rep` written as one string. */
  lemma ReplaceAfter(head: string, slash: string, pat: string, rep: string, frag: string, sp: string, sr: string)
    requires pat != [] && sp == slash + pat && sr == slash + rep
    requires forall i :: 0 <= i < |head + sp + frag| && i != |head| + |slash| ==> !OccursAt(head + sp + frag, pat, i)
    ensures Replace(head + sp + frag, pat, rep) == head + sr + frag
  {
    var url := head + sp + frag;
    var x := head + slash;
    assert url == x + (pat + frag);
    forall i | 0 <= i < |url| && i != |x| ensures !OccursAt(url, pat, i) {
      assert i != |head| + |slash|;
    }
    ReplaceOnly(url, x, pat, rep, frag);
    assert x + (rep + frag) == head + sr + frag;
  }

  /** The replacement in an edit address `pre/d/ID/edit#frag` with a single "edit#" touches only it. */
  lemma EditUrlReplaced(pre: string, id0: string, frag: string)
    requires forall i :: 0 <= i < |pre + "/d/" + id0 + "/edit#" + frag| && i != |pre| + |id0| + 4 ==>
      !OccursAt(pre + "/d/" + id0 + "/edit#" + frag, "edit#", i)
    ensures Replace(pre + "/d/" + id0 + "/edit#" + frag, "edit#", "export?format=csv&") ==
      pre + "/d/" + id0 + "/export?format=csv&" + frag
  {
    var head := pre + "/d/" + id0;
    assert |head| + 1 == |pre| + |id0| + 4;
    assert "/edit#" == "/" + "edit#";
    assert "/export?format=csv&" == "/" + "export?format=csv&";
    ReplaceAfter(head, "/", "edit#", "export?format=csv&", frag, "/edit#", "/export?format=csv&");
  }

  /** For an edit address `pre/d/ID/edit#frag` whose first "/d/" is the one before the id and whose
      only "edit#" is the one after it, the result is the export address of the same sheet, or of
      the sheet named by a non-blank id. */
  lemma SheetUrlRewrite(pre: string, id0: string, frag: string, spreadsheetId: string)
    requires forall i :: 0 <= i < |pre| ==> !OccursAt(pre + "/d/" + id0 + "/edit#" + frag, "/d/", i)
    requires forall i :: 0 <= i < |pre + "/d/" + id0 + "/edit#" + frag| && i != |pre| + |id0| + 4 ==>
      !OccursAt(pre + "/d/" + id0 + "/edit#" + frag, "edit#", i)
    ensures SheetUrl(pre + "/d/" + id0 + "/edit#" + frag, spreadsheetId) ==
      Success(pre + "/d/" + (if IsBlank(spreadsheetId) then id0 else spreadsheetId) + "/export?format=csv&" + frag)
  {
    var url := pre + "/d/" + id0 + "/edit#" + frag;
    var p := |pre|;
    var q := p + 3 + |id0|;
    EditUrlIndices(pre, id0, frag);
    EditUrlReplaced(pre, id0, frag);
    var replaced := pre + "/d/" + id0 + "/export?format=csv&" + frag;
    if !IsBlank(spreadsheetId) {
      assert replaced[..p + 3] == pre + "/d/";
      assert replaced[q..] == "/export?format=csv&" + frag;
      assert SheetUrl(url, spreadsheetId) == Success(replaced[..p + 3] + spreadsheetId + replaced[q..]);
      assert replaced[..p + 3] + spreadsheetId + replaced[q..] == pre + "/d/" + spreadsheetId + "/export?format=csv&" + frag;
    } else {
      assert SheetUrl(url, spreadsheetId) == Success(replaced);
    }
  }

  /** The part of ImportSheetAsync after the download: the downloaded text is converted; no rows
      means the sheet was not CSV and nothing is imported (None), otherwise the importer's Import
      receives the rows. */
  method ImportSheet(text: string) returns (r: Result<Option<seq<Row>>>)
    ensures r.Failure? <==> Table(text).Failure?
    ensures r.Failure? ==> r.error == DuplicateKey
    ensures r.Success? ==> (r.value.None? <==> forall i :: !CrLfAt(text, i))
    ensures r.Success? && r.value.Some? ==>
      r.value.value == Table(text).value && |r.value.value| == |SplitLines(text)| - 1 > 0
  {
    TableRowCount(text);
    var values := ConvertCsv(text);
    if values.Failure? {
      return Failure(values.error);
    }
    if |values.value| == 0 {
      return Success(None);
    }
    return Success(Some(values.value));
  }
}
