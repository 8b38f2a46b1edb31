/** The collection validator (`EsmcolValidate`): schema validation of a
    collection document, the cross-check of its catalog file's columns, and
    the five-counter status tally. */
module Esmcol {
  import opened Values
  import opened Io
  import opened Text
  import opened Common

  // ---------------------------------------------------------------------
  // Python's `in` and `[]` on a parsed value

  /** `key in container`: a dict tests its keys, a list its elements and a
      string its substrings; anything else raises TypeError. */
  function PyIn(key: string, container: Json): (r: Result<bool, PyError>)
    ensures r.Ok? <==> container.JObj? || container.JArr? || container.JStr?
    ensures r.Err? ==> r.error == TypeError
    ensures container.JObj? ==> (r == Ok(true) <==> key in container.fields)
    ensures container.JStr? && container.s == key ==> r == Ok(true)
  {
    match container
    case JObj(m) => Ok(key in m)
    case JArr(items) => Ok(JStr(key) in items)
    case JStr(s) => Ok(IsSubstring(key, s))
    case _ => Err(TypeError)
  }

  /** `container[key]` with a string key: only a dict can answer. */
  function PyGet(container: Json, key: string): (r: Result<Json, PyError>)
    ensures r.Ok? <==> container.JObj? && key in container.fields
    ensures container.JObj? && key !in container.fields ==> r == Err(KeyError(key))
    ensures r.Ok? ==> r.value == container.fields[key]
    ensures !container.JObj? ==> r == Err(TypeError)
  {
    match container
    case JObj(m) => if key in m then Ok(m[key]) else Err(KeyError(key))
    case _ => Err(TypeError)
  }

  // ---------------------------------------------------------------------
  // validate_csv

  /** The `cat_error_message` of the cross-check. */
  datatype CatalogMsg =
    | MutuallyExclusive
      // "'format' and 'format_column_name' are mutually exclusive"
    | ExtraColumns(catalogFile: Json, extra: set<string>)
      // "Catalog file: <catalog_file> contains <extra> columns that are not found in esm collection spec."
    | CouldNotRead(catalogFile: Json)
      // "Could not read catalog file: <catalog_file>"
    | ReadFailure(text: string)
      // the text of any other exception raised while reading the catalog
    | Unhashable(kind: string)
      // the TypeError of `set(columns)` when a column name is a list or a dict

  /** What `validate_csv` returns, or the exception it lets escape. */
  datatype CheckOutcome =
    | Verdict(valid: bool, error: Option<CatalogMsg>)
    | Raised(exc: PyError)

  /** `[item['column_name'] for item in items]`. */
  function ItemNames(items: seq<Json>): (r: Result<seq<Json>, PyError>)
    ensures r.Ok? <==> forall i :: 0 <= i < |items| ==> PyGet(items[i], "column_name").Ok?
    ensures r.Ok? ==> |r.value| == |items|
    ensures r.Ok? ==> forall i :: 0 <= i < |items| ==> r.value[i] == PyGet(items[i], "column_name").value
    ensures r.Err? ==> exists i :: 0 <= i < |items| && PyGet(items[i], "column_name") == Err(r.error)
                                   && forall j :: 0 <= j < i ==> PyGet(items[j], "column_name").Ok?
    decreases |items|
  {
    if |items| == 0 then Ok([])
    else
      match PyGet(items[0], "column_name")
      case Err(e) => Err(e)
      case Ok(name) =>
        match ItemNames(items[1..])
        case Err(e) =>
          assert forall j :: 1 <= j < |items| ==> items[j] == items[1..][j - 1];
          Err(e)
        case Ok(rest) => Ok([name] + rest)
  }

  /** The comprehension over `attributes`: a list gives each item's
      `column_name`; iterating an empty dict or empty string gives nothing;
      a non-empty dict or string yields items that cannot be subscripted by a
      string, and anything else is not iterable. */
  function ColumnNames(attributes: Json): (r: Result<seq<Json>, PyError>)
    ensures r.Ok? && attributes.JArr? ==> |r.value| == |attributes.items|
    ensures r.Ok? && !attributes.JArr? ==> r.value == []
    ensures r.Err? ==> r.error == TypeError || r.error == KeyError("column_name")
    ensures attributes.JArr? ==> r == ItemNames(attributes.items)
    ensures attributes == JObj(map[]) || attributes == JStr("") ==> r == Ok([])
    ensures (|| (attributes.JObj? && |attributes.fields| > 0)
             || (attributes.JStr? && attributes.s != "")
             || !(attributes.JArr? || attributes.JObj? || attributes.JStr?)) ==> r == Err(TypeError)
  {
    match attributes
    case JArr(items) => ItemNames(items)
    case JObj(m) => if |m| == 0 then Ok([]) else Err(TypeError)
    case JStr(s) => if s == "" then Ok([]) else Err(TypeError)
    case _ => Err(TypeError)
  }

  /** The expected columns: the attributes' names, then
      `assets['format_column_name']` when present, then `assets['column_name']`. */
  function ExpectedColumns(attributes: Json, assets: Json): (r: Result<seq<Json>, PyError>)
    ensures r.Ok? ==> assets.JObj? && "column_name" in assets.fields && ColumnNames(attributes).Ok?
    ensures r.Ok? ==>
      var names := ColumnNames(attributes).value;
      && |r.value| == |names| + (if "format_column_name" in assets.fields then 2 else 1)
      && r.value[..|names|] == names
      && ("format_column_name" in assets.fields ==> r.value[|names|] == assets.fields["format_column_name"])
      && r.value[|r.value| - 1] == assets.fields["column_name"]
    ensures r.Err? ==> r.error == TypeError || r.error.KeyError?
  {
    match ColumnNames(attributes)
    case Err(e) => Err(e)
    case Ok(names) =>
      match PyIn("format_column_name", assets)
      case Err(e) => Err(e)
      case Ok(hasFormatColumn) =>
        var withFormat :=
          if hasFormatColumn then
            (match PyGet(assets, "format_column_name")
             case Err(e) => Err(e)
             case Ok(v) => Ok(names + [v]))
          else Ok(names);
        match withFormat
        case Err(e) => Err(e)
        case Ok(cols) =>
          match PyGet(assets, "column_name")
          case Err(e) => Err(e)
          case Ok(v) => Ok(cols + [v])
  }

  /** The kind of the first column name that cannot be put in a set. */
  function FirstUnhashable(columns: seq<Json>): (r: Option<string>)
    ensures r.None? <==> forall i :: 0 <= i < |columns| ==> !columns[i].JArr? && !columns[i].JObj?
    decreases |columns|
  {
    if |columns| == 0 then None
    else if columns[0].JArr? then Some("list")
    else if columns[0].JObj? then Some("dict")
    else
      var r := FirstUnhashable(columns[1..]);
      assert forall i :: 1 <= i < |columns| ==> columns[i] == columns[1..][i - 1];
      r
  }

  /** The `try` block of `validate_csv`: read the catalog, then compare the
      expected set `x` with the header set `y`; only `x ⊆ y` with `y ⊄ x`
      is flagged. */
  function CompareWithCatalog(catalogFile: Json, columns: seq<Json>, csv: CsvRead): (r: CheckOutcome)
    ensures r.Verdict?
    ensures r.valid <==> r.error.None?
    ensures r.valid ==> csv.CsvOk?
  {
    match csv
    case CsvNotFound => Verdict(false, Some(CouldNotRead(catalogFile)))
    case CsvFailed(text) => Verdict(false, Some(ReadFailure(text)))
    case CsvOk(actual) =>
      match FirstUnhashable(columns)
      case Some(kind) => Verdict(false, Some(Unhashable(kind)))
      case None =>
        var x := set c | c in columns;
        var y := set a | a in actual :: JStr(a);
        if x <= y && !(y <= x) then
          Verdict(false, Some(ExtraColumns(catalogFile, set a | a in actual && JStr(a) !in x)))
        else Verdict(true, None)
  }

  /** `validate_csv(content)` for a document whose catalog file reads as
      `readCsv` says. Missing keys raise KeyError before anything is read. */
  function CrossCheck(content: map<string, Json>, readCsv: Json -> CsvRead): (r: CheckOutcome)
    ensures r.Verdict? ==> (r.valid <==> r.error.None?)
    ensures r.Verdict? ==> "catalog_file" in content && "attributes" in content && "assets" in content
    ensures r.Raised? ==> r.exc == TypeError || r.exc.KeyError?
    ensures r.Verdict? && r.valid ==> readCsv(content["catalog_file"]).CsvOk?
  {
    if "catalog_file" !in content then Raised(KeyError("catalog_file"))
    else if "attributes" !in content then Raised(KeyError("attributes"))
    else if "assets" !in content then Raised(KeyError("assets"))
    else
      var catalogFile, attributes, assets := content["catalog_file"], content["attributes"], content["assets"];
      match PyIn("format", assets)
      case Err(e) => Raised(e)
      case Ok(hasFormat) =>
        var both := if hasFormat then PyIn("format_column_name", assets) else Ok(false);
        match both
        case Err(e) => Raised(e)
        case Ok(exclusive) =>
          if exclusive then Verdict(false, Some(MutuallyExclusive))
          else
            match ExpectedColumns(attributes, assets)
            case Err(e) => Raised(e)
            case Ok(columns) => CompareWithCatalog(catalogFile, columns, readCsv(catalogFile))
  }

  /** The comprehension over `attributes`, item by item. */
  method AttributeColumns(attributes: Json) returns (r: Result<seq<Json>, PyError>)
    ensures r == ColumnNames(attributes)
  {
    if !attributes.JArr? {
      return ColumnNames(attributes);
    }
    var items := attributes.items;
    var columns: seq<Json> := [];
    var i := 0;
    while i < |items|
      invariant 0 <= i <= |items|
      invariant |columns| == i
      invariant forall j :: 0 <= j < i ==> PyGet(items[j], "column_name").Ok?
      invariant forall j :: 0 <= j < i ==> columns[j] == PyGet(items[j], "column_name").value
    {
      var name := PyGet(items[i], "column_name");
      if name.Err? {
        var expected := ItemNames(items);
        assert expected.Err?;
        var k :| 0 <= k < |items| && PyGet(items[k], "column_name") == Err(expected.error)
                 && forall j :: 0 <= j < k ==> PyGet(items[j], "column_name").Ok?;
        assert k == i;
        return Err(name.error);
      }
      columns := columns + [name.value];
      i := i + 1;
    }
    var expected := ItemNames(items);
    assert expected.value == columns;
    return Ok(columns);
  }

  /** `validate_csv`, building `columns` by appending. */
  method ValidateCsv(content: map<string, Json>, readCsv: Json -> CsvRead) returns (r: CheckOutcome)
    ensures r == CrossCheck(content, readCsv)
  {
    if "catalog_file" !in content {
      return Raised(KeyError("catalog_file"));
    }
    if "attributes" !in content {
      return Raised(KeyError("attributes"));
    }
    if "assets" !in content {
      return Raised(KeyError("assets"));
    }
    var catalogFile := content["catalog_file"];
    var attributes := content["attributes"];
    var assets := content["assets"];
    var hasFormat := PyIn("format", assets);
    if hasFormat.Err? {
      return Raised(hasFormat.error);
    }
    if hasFormat.value {
      var hasFormatColumn := PyIn("format_column_name", assets);
      if hasFormatColumn.value {
        return Verdict(false, Some(MutuallyExclusive));
      }
    }
    var names := AttributeColumns(attributes);
    if names.Err? {
      return Raised(names.error);
    }
    var columns := names.value;
    var formatColumn := PyIn("format_column_name", assets);
    if formatColumn.value {
      var v := PyGet(assets, "format_column_name");
      if v.Err? {
        return Raised(v.error);
      }
      columns := columns + [v.value];
    }
    var assetColumn := PyGet(assets, "column_name");
    if assetColumn.Err? {
      return Raised(assetColumn.error);
    }
    columns := columns + [assetColumn.value];
    assert ExpectedColumns(attributes, assets) == Ok(columns);
    r := CompareWithCatalog(catalogFile, columns, readCsv(catalogFile));
  }

  /** Declaring both asset formats is invalid, whatever the catalog file holds:
      the decision is taken before the file is read. */
  lemma MutualExclusionIgnoresCatalog(content: map<string, Json>, readCsv1: Json -> CsvRead, readCsv2: Json -> CsvRead)
    requires "catalog_file" in content && "attributes" in content && "assets" in content
    requires content["assets"].JObj?
    requires "format" in content["assets"].fields && "format_column_name" in content["assets"].fields
    ensures CrossCheck(content, readCsv1) == Verdict(false, Some(MutuallyExclusive))
    ensures CrossCheck(content, readCsv1) == CrossCheck(content, readCsv2)
  {
  }

  /** For a list of attribute dicts and an asset dict, the expected columns are
      the attributes' names in order, then the format column if declared, then
      the asset column. */
  lemma ExpectedColumnsOrder(items: seq<Json>, assets: map<string, Json>)
    requires forall i :: 0 <= i < |items| ==> items[i].JObj? && "column_name" in items[i].fields
    requires "column_name" in assets
    ensures var r := ExpectedColumns(JArr(items), JObj(assets));
      var f := if "format_column_name" in assets then 1 else 0;
      && r.Ok?
      && |r.value| == |items| + f + 1
      && (forall i :: 0 <= i < |items| ==> r.value[i] == items[i].fields["column_name"])
      && ("format_column_name" in assets ==> r.value[|items|] == assets["format_column_name"])
      && r.value[|r.value| - 1] == assets["column_name"]
  {
    var names := ItemNames(items);
    assert names.Ok?;
  }

  /** The asymmetric rule: with every expected name hashable, the catalog is
      invalid exactly when every expected column is one of its header names
      and some header name is not expected; the message names those extra
      header names. An equal header and a header missing an expected column
      are both valid. */
  lemma {:induction false} ExtraColumnsIff(catalogFile: Json, columns: seq<Json>, actual: set<string>)
    requires FirstUnhashable(columns).None?
    ensures var r := CompareWithCatalog(catalogFile, columns, CsvOk(actual));
      && r.Verdict?
      && (!r.valid <==>
            (forall c :: c in columns ==> c.JStr? && c.s in actual)
            && (exists a :: a in actual && JStr(a) !in columns))
      && (!r.valid ==> r.error == Some(ExtraColumns(catalogFile, set a | a in actual && JStr(a) !in columns)))
      && (r.valid ==> r.error.None?)
  {
    var x := set c | c in columns;
    var y := set a | a in actual :: JStr(a);
    var allIn := forall c :: c in columns ==> c.JStr? && c.s in actual;
    var someExtra := exists a :: a in actual && JStr(a) !in columns;
    if allIn {
      forall c | c in x ensures c in y {
        assert c.JStr? && c.s in actual;
      }
    }
    if x <= y {
      forall c | c in columns ensures c.JStr? && c.s in actual {
        assert c in x;
      }
    }
    if someExtra {
      var a :| a in actual && JStr(a) !in columns;
      assert JStr(a) in y && JStr(a) !in x;
    }
    if !(y <= x) {
      var e :| e in y && e !in x;
      var a :| a in actual && JStr(a) == e;
      assert a in actual && JStr(a) !in columns;
    }
    var extra1 := set a | a in actual && JStr(a) !in x;
    var extra2 := set a | a in actual && JStr(a) !in columns;
    assert extra1 == extra2;
  }

  /** Header names equal to the expected columns: valid. */
  lemma EqualColumnsValid(catalogFile: Json, names: seq<string>, actual: set<string>)
    requires actual == set n | n in names
    ensures CompareWithCatalog(catalogFile, seq(|names|, i requires 0 <= i < |names| => JStr(names[i])), CsvOk(actual))
            == Verdict(true, None)
  {
    var columns := seq(|names|, i requires 0 <= i < |names| => JStr(names[i]));
    assert FirstUnhashable(columns).None?;
    ExtraColumnsIff(catalogFile, columns, actual);
    forall a | a in actual ensures JStr(a) in columns {
      var i :| 0 <= i < |names| && names[i] == a;
      assert columns[i] == JStr(a);
    }
  }

  /** An expected column the header lacks: valid, not flagged. */
  lemma MissingColumnValid(catalogFile: Json, columns: seq<Json>, actual: set<string>, missing: string)
    requires FirstUnhashable(columns).None?
    requires JStr(missing) in columns && missing !in actual
    ensures CompareWithCatalog(catalogFile, columns, CsvOk(actual)) == Verdict(true, None)
  {
    ExtraColumnsIff(catalogFile, columns, actual);
  }

  /** A missing catalog file, or any other read error, is invalid with the
      matching message, once the expected columns are built. */
  lemma CatalogReadErrors(catalogFile: Json, columns: seq<Json>, text: string)
    ensures CompareWithCatalog(catalogFile, columns, CsvNotFound) == Verdict(false, Some(CouldNotRead(catalogFile)))
    ensures CompareWithCatalog(catalogFile, columns, CsvFailed(text)) == Verdict(false, Some(ReadFailure(text)))
  {
  }

  /** A recognised collection that lacks `catalog_file` makes the cross-check
      raise KeyError, which escapes the run. */
  lemma MissingCatalogFileRaises(content: map<string, Json>, readCsv: Json -> CsvRead)
    requires "catalog_file" !in content
    ensures CrossCheck(content, readCsv) == Raised(KeyError("catalog_file"))
  {
  }

  // ---------------------------------------------------------------------
  // The status tally

  /** The five counters of a status dict. */
  datatype Counts = Counts(
    collectionsValid: int, collectionsInvalid: int,
    catalogValid: int, catalogInvalid: int,
    unknown: int)

  const ZeroCounts := Counts(0, 0, 0, 0, 0)

  /** Counter-wise sum. */
  function AddCounts(a: Counts, b: Counts): Counts
  {
    Counts(a.collectionsValid + b.collectionsValid, a.collectionsInvalid + b.collectionsInvalid,
           a.catalogValid + b.catalogValid, a.catalogInvalid + b.catalogInvalid,
           a.unknown + b.unknown)
  }

  predicate NonNegative(c: Counts)
  {
    c.collectionsValid >= 0 && c.collectionsInvalid >= 0 && c.catalogValid >= 0
    && c.catalogInvalid >= 0 && c.unknown >= 0
  }

  /** Adding non-negative counts never decreases a counter. */
  lemma AddCountsMonotone(a: Counts, b: Counts)
    requires NonNegative(b)
    ensures var s := AddCounts(a, b);
      s.collectionsValid >= a.collectionsValid && s.collectionsInvalid >= a.collectionsInvalid
      && s.catalogValid >= a.catalogValid && s.catalogInvalid >= a.catalogInvalid
      && s.unknown >= a.unknown
    ensures NonNegative(a) ==> NonNegative(AddCounts(a, b))
  {
  }

  /** The mutable status dict: its five counters and any other top-level key
      (such as the misspelt 'unkown' of the load-error branch). */
  class Status {
    var collectionsValid: int
    var collectionsInvalid: int
    var catalogValid: int
    var catalogInvalid: int
    var unknown: int
    var others: map<string, int>

    function Counters(): Counts
      reads this
    {
      Counts(collectionsValid, collectionsInvalid, catalogValid, catalogInvalid, unknown)
    }

    /** A status with every counter at 0. */
    constructor ()
      ensures Counters() == ZeroCounts && others == map[]
    {
      collectionsValid, collectionsInvalid := 0, 0;
      catalogValid, catalogInvalid := 0, 0;
      unknown := 0;
      others := map[];
    }

    /** `_update_status`: adds each of the five counters of `newStatus` into
      `oldStatus` in place and returns `oldStatus`; other keys of either dict
      play no part. */
    static method UpdateStatus(oldStatus: Status, newStatus: Status) returns (r: Status)
      modifies oldStatus
      ensures r == oldStatus
      ensures oldStatus.Counters() == AddCounts(old(oldStatus.Counters()), old(newStatus.Counters()))
      ensures oldStatus.others == old(oldStatus.others)
    {
      oldStatus.collectionsValid := oldStatus.collectionsValid + newStatus.collectionsValid;
      oldStatus.collectionsInvalid := oldStatus.collectionsInvalid + newStatus.collectionsInvalid;
      oldStatus.catalogValid := oldStatus.catalogValid + newStatus.catalogValid;
      oldStatus.catalogInvalid := oldStatus.catalogInvalid + newStatus.catalogInvalid;
      oldStatus.unknown := oldStatus.unknown + newStatus.unknown;
      return oldStatus;
    }
  }

  // ---------------------------------------------------------------------
  // _validate

  /** The message dict of one file. */
  datatype Report =
    | LoadErrorReport(descriptor: ErrorDescriptor)
    | CollectionReport(validEsmcol: bool, errorMessage: Option<string>,
                       validEsmcat: bool, catErrorMessage: Option<CatalogMsg>, path: string)
    | PathReport(path: string)

  /** What `_validate` returns as values: its message, its counters and its
      other status keys; or the exception that escapes it. */
  datatype Outcome =
    | Done(report: Report, counts: Counts, stray: map<string, int>)
    | Fails(error: PyError)

  /** 1 for the counter that matches the verdict, 0 for the other. */
  function Flag(b: bool): int
  {
    if b then 1 else 0
  }

  /** `_validate(path)` when the memoised `fetch_spec('collection')` would
      give `spec`. */
  function ValidateOutcome(path: string, env: Env, spec: SpecResult): Outcome
  {
    var loaded := FetchAndParse(path, env);
    match loaded
    case IoFailure => Fails(IoError)
    case DecodeError => Done(LoadErrorReport(Describe(path, loaded)), ZeroCounts, map["unkown" := 1])
    case NotFound => Done(LoadErrorReport(Describe(path, loaded)), ZeroCounts, map["unkown" := 1])
    case Loaded(doc) =>
      if !IsCollection(doc) then Done(PathReport(path), ZeroCounts, map[])
      else
        match spec
        case VersionError => Fails(VersionException)
        case Aborted => Fails(SystemExit(1))
        case Fetched(schema) =>
          var check := ValidateJson(env.schemaCheck(doc, schema));
          match CrossCheck(doc.fields, env.readCsv)
          case Raised(e) => Fails(e)
          case Verdict(ok, msg) =>
            Done(CollectionReport(check.valid, check.error, ok, msg, path),
                 Counts(Flag(check.valid), Flag(!check.valid), Flag(ok), Flag(!ok), 0), map[])
  }

  /** An exception escapes only from an unclassified load failure or from a
      recognised collection; a completed run reports the verdicts exactly for
      a recognised collection, has the stray `'unkown'` key exactly for a load
      error, and names the path in every other message. */
  lemma OutcomeShape(path: string, env: Env, spec: SpecResult)
    ensures var r := ValidateOutcome(path, env, spec);
      && (r.Fails? ==> FetchAndParse(path, env).IoFailure? || Recognised(path, env))
      && (r.Done? ==> (r.report.CollectionReport? <==> Recognised(path, env)))
      && (r.Done? ==> ("unkown" in r.stray <==> FetchAndParse(path, env).DecodeError? || FetchAndParse(path, env).NotFound?))
      && (r.Done? && !r.report.LoadErrorReport? ==> r.report.path == path)
  {
  }

  /** The input document loads and is recognised as a collection. */
  predicate Recognised(path: string, env: Env)
  {
    FetchAndParse(path, env).Loaded? && IsCollection(FetchAndParse(path, env).doc)
  }

  /** A recognised collection gives exactly one collections counter and one
      catalog_files counter, each from its own verdict, and no unknown; the
      message carries both verdicts, both messages and the path. */
  lemma RecognisedCounts(path: string, env: Env, schema: Json)
    requires Recognised(path, env)
    requires CrossCheck(FetchAndParse(path, env).doc.fields, env.readCsv).Verdict?
    ensures var doc := FetchAndParse(path, env).doc;
      var check := ValidateJson(env.schemaCheck(doc, schema));
      var cat := CrossCheck(doc.fields, env.readCsv);
      var o := ValidateOutcome(path, env, Fetched(schema));
      && o.Done?
      && o.counts.collectionsValid + o.counts.collectionsInvalid == 1
      && (o.counts.collectionsValid == 1 <==> env.schemaCheck(doc, schema).Accepts?)
      && o.counts.catalogValid + o.counts.catalogInvalid == 1
      && (o.counts.catalogValid == 1 <==> cat.valid)
      && o.counts.unknown == 0
      && o.stray == map[]
      && o.report == CollectionReport(check.valid, check.error, cat.valid, cat.error, path)
  {
  }

  /** A load error returns the descriptor (which has no path) with all five
      counters at 0 and a stray 'unkown' key, so a following run leaves the
      tallied `unknown` as it was. */
  lemma LoadErrorLeavesUnknown(path: string, env: Env, spec: SpecResult, tally: Counts)
    requires FetchAndParse(path, env).DecodeError? || FetchAndParse(path, env).NotFound?
    ensures var o := ValidateOutcome(path, env, spec);
      && o == Done(LoadErrorReport(Describe(path, FetchAndParse(path, env))), ZeroCounts, map["unkown" := 1])
      && AddCounts(tally, o.counts) == tally
      && AddCounts(tally, o.counts).unknown == tally.unknown
  {
    var loaded := FetchAndParse(path, env);
    var o := ValidateOutcome(path, env, spec);
    assert o == Done(LoadErrorReport(Describe(path, loaded)), ZeroCounts, map["unkown" := 1]);
  }

  /** A document that is not a dict, or has none of the collection fields,
      contributes nothing and reports only its path. */
  lemma UnrecognisedIsIgnored(path: string, env: Env, spec: SpecResult)
    requires FetchAndParse(path, env).Loaded? && !IsCollection(FetchAndParse(path, env).doc)
    ensures ValidateOutcome(path, env, spec) == Done(PathReport(path), ZeroCounts, map[])
  {
  }

  /** A schema that cannot be obtained escapes as an exception, only for a
      recognised document. */
  lemma SpecFailureEscapes(path: string, env: Env)
    requires Recognised(path, env)
    ensures ValidateOutcome(path, env, VersionError) == Fails(VersionException)
    ensures ValidateOutcome(path, env, Aborted) == Fails(SystemExit(1))
  {
  }

  /** A sample collection: one attribute `a`, asset column `b`, catalog `t.csv`. */
  function SampleDoc(): Json
  {
    JObj(map[
      "esmcat_version" := JStr("1.0"), "id" := JStr("x"), "description" := JStr("d"),
      "catalog_file" := JStr("t.csv"),
      "attributes" := JArr([JObj(map["column_name" := JStr("a")])]),
      "assets" := JObj(map["column_name" := JStr("b")])])
  }

  /** The sample's expected columns are `a` then `b`. */
  lemma SampleColumns()
    ensures SampleDoc().JObj? && IsCollection(SampleDoc())
    ensures forall readCsv: Json -> CsvRead ::
      CrossCheck(SampleDoc().fields, readCsv) == CompareWithCatalog(JStr("t.csv"), [JStr("a"), JStr("b")], readCsv(JStr("t.csv")))
  {
    var content := SampleDoc().fields;
    assert "esmcat_version" in content;
    var items := [JObj(map["column_name" := JStr("a")])];
    var assets := map["column_name" := JStr("b")];
    assert content["catalog_file"] == JStr("t.csv");
    assert content["attributes"] == JArr(items);
    assert content["assets"] == JObj(assets);
    assert "format" !in assets && "format_column_name" !in assets;
    ExpectedColumnsOrder(items, assets);
    var cols := ExpectedColumns(JArr(items), JObj(assets)).value;
    assert cols == [JStr("a"), JStr("b")];
  }

  /** A sample whose schema check passes and whose catalog header is `a, b`:
      one valid collection and one valid catalog file, nothing unknown. */
  lemma SampleEqualHeader(path: string, env: Env, schema: Json)
    requires FetchAndParse(path, env) == Loaded(SampleDoc())
    requires env.schemaCheck(SampleDoc(), schema) == Accepts
    requires env.readCsv(JStr("t.csv")) == CsvOk({"a", "b"})
    ensures ValidateOutcome(path, env, Fetched(schema)).Done?
    ensures ValidateOutcome(path, env, Fetched(schema)).counts == Counts(1, 0, 1, 0, 0)
  {
    SampleColumns();
    EqualColumnsValid(JStr("t.csv"), ["a", "b"], {"a", "b"});
    assert seq(2, i requires 0 <= i < 2 => JStr(["a", "b"][i])) == [JStr("a"), JStr("b")];
  }

  /** The same sample with an extra header column: the catalog file is
      invalid, the collection stays valid. */
  lemma SampleExtraHeader(path: string, env: Env, schema: Json)
    requires FetchAndParse(path, env) == Loaded(SampleDoc())
    requires env.schemaCheck(SampleDoc(), schema) == Accepts
    requires env.readCsv(JStr("t.csv")) == CsvOk({"a", "b", "extra"})
    ensures ValidateOutcome(path, env, Fetched(schema)).Done?
    ensures ValidateOutcome(path, env, Fetched(schema)).counts == Counts(1, 0, 0, 1, 0)
  {
    SampleColumns();
    var columns := [JStr("a"), JStr("b")];
    ExtraColumnsIff(JStr("t.csv"), columns, {"a", "b", "extra"});
    assert "extra" in {"a", "b", "extra"} && JStr("extra") !in columns;
  }

  /** Every completed outcome adds 0 or 1 to each category, 1 to both
      categories exactly for a recognised collection, and never touches
      `unknown`: the tally stays non-negative and each category's total is
      at most the number of recognised collections. */
  lemma OutcomeCountsBounded(path: string, env: Env, spec: SpecResult)
    ensures var o := ValidateOutcome(path, env, spec);
      o.Done? ==>
        && NonNegative(o.counts)
        && o.counts.unknown == 0
        && o.counts.collectionsValid + o.counts.collectionsInvalid == (if Recognised(path, env) then 1 else 0)
        && o.counts.catalogValid + o.counts.catalogInvalid == (if Recognised(path, env) then 1 else 0)
  {
  }

  /** The validation result with the status object it creates. */
  datatype Validated = Validated(report: Report, status: Status) | Escaped(error: PyError)

  // ---------------------------------------------------------------------
  // EsmcolValidate

  class EsmcolValidate {
    const esmcatVersion: string
    const esmcolFile: string
    const specDirs: Option<seq<string>>
    var memo: map<string, Json>      // the lru_cache of fetch_spec for this instance
    var message: seq<Report>
    var status: Status

    /** `__init__` without logging and the temporary directory. */
    constructor (esmcolFile: string, specDirs: SpecDirsArg, version: string)
      ensures this.esmcolFile == Strip(esmcolFile)
      ensures this.specDirs == CheckNone(specDirs)
      ensures esmcatVersion == version
      ensures memo == map[] && message == []
      ensures fresh(status) && status.Counters() == ZeroCounts && status.others == map[]
    {
      this.esmcatVersion := version;
      this.esmcolFile := Strip(esmcolFile);
      this.specDirs := CheckNone(specDirs);
      memo := map[];
      message := [];
      status := new Status();
    }

    /** `fetch_spec(name)`: a remembered schema is returned without any I/O;
      otherwise the schema is resolved and, when one is returned, remembered. */
    method FetchSpec(name: string, env: Env) returns (r: SpecResult)
      modifies this`memo
      ensures r == LookupSpec(old(memo), specDirs, name, esmcatVersion, env)
      ensures memo == Remember(old(memo), name, r)
    {
      if name in memo {
        r := Fetched(memo[name]);
        memo := memo[name := r.schema];
        return;
      }
      r := FetchSpecUncached(specDirs, name, esmcatVersion, env);
      if r.Fetched? {
        memo := memo[name := r.schema];
      }
    }

    /** `_validate(path)`, filling a fresh status step by step. */
    method Validate(path: string, env: Env) returns (r: Validated)
      modifies this`memo
      ensures var o := ValidateOutcome(path, env, LookupSpec(old(memo), specDirs, "collection", esmcatVersion, env));
        && (o.Fails? ==> r == Escaped(o.error))
        && (o.Done? ==>
              && r.Validated?
              && fresh(r.status)
              && r.report == o.report
              && r.status.Counters() == o.counts
              && r.status.others == o.stray)
      ensures Recognised(path, env) ==>
        memo == Remember(old(memo), "collection", LookupSpec(old(memo), specDirs, "collection", esmcatVersion, env))
      ensures !Recognised(path, env) ==> memo == old(memo)
    {
      var st := new Status();
      var loaded := FetchAndParse(path, env);
      if loaded.IoFailure? {
        return Escaped(IoError);
      }
      if loaded.DecodeError? || loaded.NotFound? {
        st.others := st.others["unkown" := 1];
        return Validated(LoadErrorReport(Describe(path, loaded)), st);
      }
      var doc := loaded.doc;
      if IsCollection(doc) {
        var spec := FetchSpec("collection", env);
        if spec.VersionError? {
          return Escaped(VersionException);
        }
        if spec.Aborted? {
          return Escaped(SystemExit(1));
        }
        var check := ValidateJson(env.schemaCheck(doc, spec.schema));
        var cat := ValidateCsv(doc.fields, env.readCsv);
        if cat.Raised? {
          return Escaped(cat.exc);
        }
        if check.valid {
          st.collectionsValid := 1;
        } else {
          st.collectionsInvalid := 1;
        }
        if cat.valid {
          st.catalogValid := 1;
        } else {
          st.catalogInvalid := 1;
        }
        return Validated(CollectionReport(check.valid, check.error, cat.valid, cat.error, path), st);
      }
      return Validated(PathReport(path), st);
    }

    /** `run()`: one `_validate` of the input file, its counters folded into
      the same status object, and its message appended; the return value is
      the message list (the JSON text of `json.dumps` is not modelled). An
      exception escaping `_validate` leaves messages and counters as they were. */
    method Run(env: Env) returns (r: Result<seq<Report>, PyError>)
      modifies this`memo, this`message, this`status, status
      ensures status == old(status)
      ensures Recognised(esmcolFile, env) ==>
        memo == Remember(old(memo), "collection", LookupSpec(old(memo), specDirs, "collection", esmcatVersion, env))
      ensures !Recognised(esmcolFile, env) ==> memo == old(memo)
      ensures var o := ValidateOutcome(esmcolFile, env, LookupSpec(old(memo), specDirs, "collection", esmcatVersion, env));
        && (o.Fails? ==>
              && r == Err(o.error)
              && message == old(message)
              && status.Counters() == old(status.Counters())
              && status.others == old(status.others))
        && (o.Done? ==>
              && r == Ok(message)
              && message == old(message) + [o.report]
              && status.Counters() == AddCounts(old(status.Counters()), o.counts)
              && status.others == old(status.others))
    {
      ghost var o := ValidateOutcome(esmcolFile, env, LookupSpec(memo, specDirs, "collection", esmcatVersion, env));
      var v := Validate(esmcolFile, env);
      if v.Escaped? {
        return Err(v.error);
      }
      assert o.Done? && v.status != status;
      status := Status.UpdateStatus(status, v.status);
      message := message + [v.report];
      return Ok(message);
    }
  }
}
