/** The members that the collection validator and the catalog validator
    share line for line: argument splitting, URL classification, the schema
    URL, the schema-validation wrapper, document recognition, the loader's
    error descriptors and the resolution of the schema document. */
module Common {
  import opened Values
  import opened Io
  import opened Text

  // ---------------------------------------------------------------------
  // check_none

  /** The `spec_dirs` argument as a caller may pass it. */
  datatype SpecDirsArg = NoArg | StrArg(s: string) | ListArg(dirs: seq<string>)

  /** `check_none`: the string "None" means no directories; any other string
      is split on commas; a value that is not a string is returned as it is. */
  function CheckNone(arg: SpecDirsArg): (r: Option<seq<string>>)
    ensures arg == StrArg("None") ==> r == None
    ensures arg.StrArg? && arg.s != "None" ==>
      && r.Some?
      && Join(r.value, ',') == arg.s
      && |r.value| == Count(arg.s, ',') + 1
      && (forall i :: 0 <= i < |r.value| ==> ',' !in r.value[i])
    ensures arg.NoArg? ==> r == None
    ensures arg.ListArg? ==> r == Some(arg.dirs)
  {
    match arg
    case NoArg => None
    case StrArg(s) =>
      if s == "None" then None
      else
        JoinSplit(s, ',');
        Some(Split(s, ','))
    case ListArg(dirs) => Some(dirs)
  }

  /** A directory string without a comma is one directory, and a list of
      comma-free names joined by commas comes back as that list. */
  lemma CheckNoneSingleton(s: string)
    requires s != "None" && ',' !in s
    ensures CheckNone(StrArg(s)) == Some([s])
  {
    SplitNoSeparator(s, ',');
  }

  lemma CheckNoneJoined(dirs: seq<string>)
    requires |dirs| >= 1 && Join(dirs, ',') != "None"
    requires forall i :: 0 <= i < |dirs| ==> ',' !in dirs[i]
    ensures CheckNone(StrArg(Join(dirs, ','))) == Some(dirs)
  {
    SplitJoin(dirs, ',');
  }

  // ---------------------------------------------------------------------
  // is_valid_url, over a model of urllib.parse.urlparse

  /** The three components of a parsed URL that the validators look at. */
  datatype UrlParts = UrlParts(scheme: string, netloc: string, path: string)

  predicate IsAlpha(ch: char)
  {
    'a' <= ch <= 'z' || 'A' <= ch <= 'Z'
  }

  predicate IsSchemeChar(ch: char)
  {
    IsAlpha(ch) || '0' <= ch <= '9' || ch == '+' || ch == '-' || ch == '.'
  }

  /** The characters urlsplit deletes wherever they occur. */
  predicate IsUnsafe(ch: char)
  {
    ch == '\t' || ch == '\r' || ch == '\n'
  }

  function RemoveUnsafe(s: string): (r: string)
    ensures forall i :: 0 <= i < |r| ==> !IsUnsafe(r[i])
    ensures forall ch :: ch in r ==> ch in s
    decreases |s|
  {
    if |s| == 0 then ""
    else if IsUnsafe(s[0]) then RemoveUnsafe(s[1..])
    else [s[0]] + RemoveUnsafe(s[1..])
  }

  /** Strips leading C0 control characters and spaces. */
  function StripLeadingControls(s: string): (r: string)
    ensures |r| <= |s| && r == s[|s| - |r|..]
    ensures |r| > 0 ==> r[0] > ' '
    decreases |s|
  {
    if |s| > 0 && s[0] <= ' ' then StripLeadingControls(s[1..]) else s
  }

  /** Index of the first occurrence of `ch`, or `|s|` when there is none. */
  function IndexOf(s: string, ch: char): (i: nat)
    ensures i <= |s|
    ensures i < |s| ==> s[i] == ch
    ensures forall j :: 0 <= j < i ==> s[j] != ch
    decreases |s|
  {
    if |s| == 0 then 0 else if s[0] == ch then 0 else 1 + IndexOf(s[1..], ch)
  }

  predicate IsNetlocEnd(ch: char)
  {
    ch == '/' || ch == '?' || ch == '#'
  }

  /** Index of the first character that ends a network location. */
  function NetlocEnd(s: string): (i: nat)
    ensures i <= |s|
    ensures i < |s| ==> IsNetlocEnd(s[i])
    ensures forall j :: 0 <= j < i ==> !IsNetlocEnd(s[j])
    decreases |s|
  {
    if |s| == 0 then 0 else if IsNetlocEnd(s[0]) then 0 else 1 + NetlocEnd(s[1..])
  }

  /** The scheme and the rest: a scheme is everything before the first ':'
      when that is non-empty, starts with a letter and holds only scheme
      characters. */
  function SplitScheme(url: string): (string, string)
  {
    var i := IndexOf(url, ':');
    if 0 < i < |url| && IsAlpha(url[0]) && (forall j :: 0 <= j < i ==> IsSchemeChar(url[j]))
    then (url[..i], url[i + 1..])
    else ("", url)
  }

  /** The string urlsplit works on: leading controls stripped, tabs and
      line breaks deleted. */
  function Clean(raw: string): string
  {
    RemoveUnsafe(StripLeadingControls(raw))
  }

  /** The network location and path of what follows the scheme; None when
      urlsplit raises ValueError for an unbalanced '[' or ']'. */
  function SplitNetloc(rest: string): Option<(string, string)>
  {
    var hasNetloc := |rest| >= 2 && rest[..2] == "//";
    var d := if hasNetloc then 2 + NetlocEnd(rest[2..]) else 0;
    var netloc := if hasNetloc then rest[2..d] else "";
    var tail := rest[d..];
    if ('[' in netloc) != (']' in netloc) then None
    else
      var noFragment := tail[..IndexOf(tail, '#')];
      Some((netloc, noFragment[..IndexOf(noFragment, '?')]))
  }

  /** urlsplit's scheme, network location and path (None for ValueError). */
  function UrlSplit(raw: string): Option<UrlParts>
  {
    var (scheme, rest) := SplitScheme(Clean(raw));
    match SplitNetloc(rest)
    case None => None
    case Some(np) => Some(UrlParts(scheme, np.0, np.1))
  }

  /** `is_valid_url`: true exactly when urlparse succeeds and gives a
      non-empty scheme, network location and path. */
  predicate IsValidUrl(url: string)
  {
    match UrlSplit(url)
    case None => false
    case Some(p) => p.scheme != "" && p.netloc != "" && p.path != ""
  }

  /** What urlparse gives, when it succeeds: a well-formed scheme, a network
      location without '/', '?' or '#', and a path without query or fragment. */
  lemma UrlSplitShape(raw: string)
    ensures var r := UrlSplit(raw);
      r.Some? ==>
        && (r.value.scheme == "" || IsAlpha(r.value.scheme[0]))
        && (forall i :: 0 <= i < |r.value.scheme| ==> IsSchemeChar(r.value.scheme[i]))
        && (forall i :: 0 <= i < |r.value.netloc| ==> !IsNetlocEnd(r.value.netloc[i]))
        && '#' !in r.value.path && '?' !in r.value.path
  {
  }

  /** A path classified as a URL has a letter-led scheme, a network location
      without '/', '?' or '#', and a path without query or fragment. */
  lemma ValidUrlShape(url: string)
    requires IsValidUrl(url)
    ensures UrlSplit(url).Some?
    ensures var p := UrlSplit(url).value;
      && p.scheme != "" && IsAlpha(p.scheme[0])
      && p.netloc != "" && (forall i :: 0 <= i < |p.netloc| ==> !IsNetlocEnd(p.netloc[i]))
      && p.path != "" && '#' !in p.path && '?' !in p.path
  {
    UrlSplitShape(url);
  }

  /** A string without any ':' has no scheme, so it is never a URL. */
  lemma {:induction false} NoColonIsNotUrl(url: string)
    requires ':' !in url
    ensures !IsValidUrl(url)
  {
    var stripped := StripLeadingControls(url);
    assert forall ch :: ch in stripped ==> ch in url by {
      forall ch | ch in stripped ensures ch in url {
        var i :| 0 <= i < |stripped| && stripped[i] == ch;
        assert url[|url| - |stripped| + i] == ch;
      }
    }
    var clean := RemoveUnsafe(stripped);
    assert IndexOf(clean, ':') == |clean|;
  }

  lemma {:induction false} RemoveUnsafeAppend(a: string, b: string)
    ensures RemoveUnsafe(a + b) == RemoveUnsafe(a) + RemoveUnsafe(b)
    decreases |a|
  {
    if |a| > 0 {
      assert (a + b)[0] == a[0] && (a + b)[1..] == a[1..] + b;
      RemoveUnsafeAppend(a[1..], b);
    } else {
      assert a + b == b;
    }
  }

  lemma {:induction false} RemoveUnsafeSafe(a: string)
    requires forall i :: 0 <= i < |a| ==> !IsUnsafe(a[i])
    ensures RemoveUnsafe(a) == a
    decreases |a|
  {
    if |a| > 0 {
      RemoveUnsafeSafe(a[1..]);
      assert a == [a[0]] + a[1..];
    }
  }

  lemma {:induction false} IndexOfFirst(a: string, b: string, ch: char)
    requires forall i :: 0 <= i < |a| ==> a[i] != ch
    requires |b| > 0 && b[0] == ch
    ensures IndexOf(a + b, ch) == |a|
    decreases |a|
  {
    if |a| == 0 {
      assert a + b == b;
    } else {
      assert (a + b)[1..] == a[1..] + b;
      IndexOfFirst(a[1..], b, ch);
    }
  }

  lemma {:induction false} NetlocEndAfterHost(h: string, b: string)
    requires forall i :: 0 <= i < |h| ==> !IsNetlocEnd(h[i])
    requires |b| > 0 && IsNetlocEnd(b[0])
    ensures NetlocEnd(h + b) == |h|
    decreases |h|
  {
    if |h| == 0 {
      assert h + b == b;
    } else {
      assert (h + b)[1..] == h[1..] + b;
      NetlocEndAfterHost(h[1..], b);
    }
  }

  lemma CleanKeepsSafeHead(head: string, rest: string)
    requires |head| > 0 && head[0] > ' '
    requires forall i :: 0 <= i < |head| ==> !IsUnsafe(head[i])
    ensures Clean(head + rest) == head + RemoveUnsafe(rest)
  {
    assert StripLeadingControls(head + rest) == head + rest;
    RemoveUnsafeAppend(head, rest);
    RemoveUnsafeSafe(head);
  }

  lemma SchemeIsSplitOff(scheme: string, x: string)
    requires |scheme| > 0 && IsAlpha(scheme[0])
    requires forall i :: 0 <= i < |scheme| ==> IsSchemeChar(scheme[i])
    requires |x| > 0 && x[0] == ':'
    ensures SplitScheme(scheme + x) == (scheme, x[1..])
  {
    IndexOfFirst(scheme, x, ':');
    var u := scheme + x;
    assert u[..|scheme|] == scheme && u[|scheme| + 1..] == x[1..];
  }

  lemma HostIsNetloc(host: string, y: string)
    requires |host| > 0
    requires forall i :: 0 <= i < |host| ==> !IsNetlocEnd(host[i]) && host[i] != '[' && host[i] != ']'
    requires |y| > 0 && y[0] == '/'
    ensures SplitNetloc("//" + host + y).Some?
    ensures SplitNetloc("//" + host + y).value.0 == host
    ensures SplitNetloc("//" + host + y).value.1 != ""
  {
    var r := "//" + host + y;
    assert r[..2] == "//";
    assert r[2..] == host + y;
    NetlocEndAfterHost(host, y);
    var d := 2 + |host|;
    assert r[2..d] == host;
    assert r[d..] == y;
    assert '[' !in host && ']' !in host;
    assert IndexOf(y, '#') > 0;
    var noFragment := y[..IndexOf(y, '#')];
    assert noFragment[0] == '/' && IndexOf(noFragment, '?') > 0;
  }

  /** `scheme://host/rest` is a URL for every well-formed scheme, every
      non-empty ASCII host without delimiters or brackets, and every rest.
      An ASCII host passes urlsplit's NFKC check unchanged. */
  lemma SchemeHostPathIsUrl(url: string, scheme: string, host: string, rest: string)
    requires url == scheme + "://" + host + "/" + rest
    requires |scheme| > 0 && IsAlpha(scheme[0])
    requires forall i :: 0 <= i < |scheme| ==> IsSchemeChar(scheme[i])
    requires |host| > 0
    requires forall i :: 0 <= i < |host| ==>
      !IsNetlocEnd(host[i]) && !IsUnsafe(host[i]) && host[i] != '[' && host[i] != ']'
    requires forall i :: 0 <= i < |host| ==> host[i] < '\U{80}'
    ensures IsValidUrl(url)
  {
    var head := scheme + "://" + host + "/";
    assert scheme + "://" + host + "/" + rest == head + rest;
    CleanKeepsSafeHead(head, rest);
    var y := "/" + RemoveUnsafe(rest);
    var x := ":" + ("//" + host + y);
    assert head + RemoveUnsafe(rest) == scheme + x;
    SchemeIsSplitOff(scheme, x);
    assert x[1..] == "//" + host + y;
    HostIsNetloc(host, y);
  }

  // ---------------------------------------------------------------------
  // Esmcol/Esmcat.collection_schema_url

  const GitHost := "raw.githubusercontent.com"

  const GitBaseUrl := "https" + "://" + GitHost + "/" + "NCAR/esm-collection-spec/"

  /** The default file name of `collection_schema_url`. */
  const DefaultSchemaFile := "collection.json"

  /** `COLLECTION_URL` of an object built from (version, input_type, filename). */
  function CollectionUrl(version: string, inputType: string, filename: string): string
  {
    GitBaseUrl + version + "/collection-spec/" + inputType + "/" + filename
  }

  /** `collection_schema_url(version, filename)`. */
  function CollectionSchemaUrl(version: string, filename: string): string
  {
    GitBaseUrl + version + "/collection-spec/json-schema/" + filename
  }

  /** The schema URL is `COLLECTION_URL` with input type `json-schema`: the
      fixed base, then the version, then the json-schema path and file name. */
  lemma SchemaUrlParts(version: string, filename: string)
    ensures var r := CollectionSchemaUrl(version, filename);
      && r == CollectionUrl(version, "json-schema", filename)
      && r[..|GitBaseUrl|] == GitBaseUrl
      && r[|GitBaseUrl|..|GitBaseUrl| + |version|] == version
      && r[|GitBaseUrl| + |version|..] == "/collection-spec/json-schema/" + filename
  {
  }

  lemma GitHostIsPlain()
    ensures IsAlpha("https"[0]) && forall i :: 0 <= i < |"https"| ==> IsSchemeChar("https"[i])
    ensures |GitHost| > 0
    ensures forall i :: 0 <= i < |GitHost| ==>
      !IsNetlocEnd(GitHost[i]) && !IsUnsafe(GitHost[i]) && GitHost[i] != '[' && GitHost[i] != ']'
    ensures forall i :: 0 <= i < |GitHost| ==> GitHost[i] < '\U{80}'
  {
  }

  /** Different versions give different schema URLs. */
  lemma SchemaUrlInjective(v1: string, v2: string, filename: string)
    requires CollectionSchemaUrl(v1, filename) == CollectionSchemaUrl(v2, filename)
    ensures v1 == v2
  {
    var u := CollectionSchemaUrl(v1, filename);
    SchemaUrlParts(v1, filename);
    SchemaUrlParts(v2, filename);
    assert |v1| == |v2|;
    assert v1 == u[|GitBaseUrl|..|GitBaseUrl| + |v1|];
  }

  /** The schema URL of every version is classified as a URL. */
  lemma SchemaUrlIsUrl(version: string, filename: string)
    ensures IsValidUrl(CollectionSchemaUrl(version, filename))
  {
    var rest := "NCAR/esm-collection-spec/" + version + "/collection-spec/json-schema/" + filename;
    var url := CollectionSchemaUrl(version, filename);
    assert url == "https" + "://" + GitHost + "/" + rest;
    GitHostIsPlain();
    SchemeHostPathIsUrl(url, "https", GitHost, rest);
  }

  // ---------------------------------------------------------------------
  // validate_json

  /** The pair (is_valid, error_message) returned by `validate_json`. */
  datatype JsonCheck = JsonCheck(valid: bool, error: Option<string>)

  /** `list(e.path)` as Python prints it: `['attributes', 0]`. */
  function PathText(path: seq<PathElem>): string
  {
    "[" + PathItems(path) + "]"
  }

  function PathItems(path: seq<PathElem>): string
    decreases |path|
  {
    if |path| == 0 then ""
    else
      var first := match path[0] case Key(k) => "'" + k + "'" case Index(i) => NatToString(i);
      if |path| == 1 then first else first + ", " + PathItems(path[1..])
  }

  /** `validate_json`: never raises; acceptance gives (True, None), a schema
      violation gives (False, "<message> of <path>") and any other
      exception gives (False, <its text>). */
  function ValidateJson(verdict: SchemaVerdict): (r: JsonCheck)
    ensures r.valid <==> verdict.Accepts?
    ensures r.valid <==> r.error.None?
    ensures verdict.Violation? ==> r.error == Some(verdict.message + " of " + PathText(verdict.path))
    ensures verdict.Failed? ==> r.error == Some(verdict.text)
  {
    match verdict
    case Accepts => JsonCheck(true, None)
    case Violation(m, p) => JsonCheck(false, Some(m + " of " + PathText(p)))
    case Failed(t) => JsonCheck(false, Some(t))
  }

  // ---------------------------------------------------------------------
  // Collection recognition and the loader

  /** `Collection_Fields` in `_validate`. */
  const CollectionFields: seq<string> :=
    ["esmcat_version", "id", "description", "catalog_file", "attributes", "assets"]

  /** A loaded document is a collection when it is a dict and any of its
      top-level keys is one of the collection fields. */
  predicate IsCollection(doc: Json)
  {
    doc.JObj? && exists k :: k in doc.fields && k in CollectionFields
  }

  /** Any one of the six fields makes a dict a collection; a dict with none of
      them, or anything that is not a dict, is not one. */
  lemma CollectionFieldSuffices(doc: Json)
    ensures doc.JObj? && (exists i :: 0 <= i < |CollectionFields| && CollectionFields[i] in doc.fields) ==> IsCollection(doc)
    ensures doc.JObj? && (forall i :: 0 <= i < |CollectionFields| ==> CollectionFields[i] !in doc.fields) ==> !IsCollection(doc)
    ensures !doc.JObj? ==> !IsCollection(doc)
  {
    if doc.JObj? && (exists i :: 0 <= i < |CollectionFields| && CollectionFields[i] in doc.fields) {
      var i :| 0 <= i < |CollectionFields| && CollectionFields[i] in doc.fields;
      assert CollectionFields[i] in CollectionFields;
    }
  }

  /** One recognised key is enough, and anything that is not a dict is
      never a collection. */
  lemma IsCollectionIff(doc: Json)
    ensures IsCollection(doc) <==> doc.JObj? && doc.fields.Keys * (set f | f in CollectionFields) != {}
  {
    if IsCollection(doc) {
      var k :| k in doc.fields && k in CollectionFields;
      assert k in doc.fields.Keys * (set f | f in CollectionFields);
    }
    if doc.JObj? && doc.fields.Keys * (set f | f in CollectionFields) != {} {
      var k :| k in doc.fields.Keys * (set f | f in CollectionFields);
      assert k in doc.fields && k in CollectionFields;
    }
  }

  /** `fetch_and_parse_file`: a URL is requested, anything else is opened. */
  function FetchAndParse(path: string, env: Env): (r: LoadOutcome)
    ensures IsValidUrl(path) ==> r == env.fetchUrl(path)
    ensures !IsValidUrl(path) ==> r == env.readFile(path)
    ensures ':' !in path ==> r == env.readFile(path)
  {
    var r := if IsValidUrl(path) then env.fetchUrl(path) else env.readFile(path);
    assert ':' !in path ==> r == env.readFile(path) by {
      if ':' !in path {
        NoColonIsNotUrl(path);
      }
    }
    r
  }

  /** A `scheme://host/rest` path with an ASCII host is requested over the
      network. */
  lemma WebPathIsFetched(path: string, scheme: string, host: string, rest: string, env: Env)
    requires path == scheme + "://" + host + "/" + rest
    requires |scheme| > 0 && IsAlpha(scheme[0])
    requires forall i :: 0 <= i < |scheme| ==> IsSchemeChar(scheme[i])
    requires |host| > 0
    requires forall i :: 0 <= i < |host| ==>
      !IsNetlocEnd(host[i]) && !IsUnsafe(host[i]) && host[i] != '[' && host[i] != ']'
    requires forall i :: 0 <= i < |host| ==> host[i] < '\U{80}'
    ensures FetchAndParse(path, env) == env.fetchUrl(path)
  {
    SchemeHostPathIsUrl(path, scheme, host, rest);
  }

  /** The descriptor returned for a document that could not be loaded; its
      `valid_esmcol` entry is always False. */
  datatype ErrorDescriptor = ErrorDescriptor(errorType: string, errorMessage: string)

  function Describe(path: string, failure: LoadOutcome): (r: ErrorDescriptor)
    requires failure.DecodeError? || failure.NotFound?
    ensures failure.DecodeError? ==> r.errorType == "InvalidJSON"
    ensures failure.NotFound? ==> r.errorType == "FileNotFoundError"
    ensures |r.errorMessage| > |path| && r.errorMessage[..|path|] == path
  {
    if failure.DecodeError? then ErrorDescriptor("InvalidJSON", path + " is not Valid JSON")
    else ErrorDescriptor("FileNotFoundError", path + " cannot be found")
  }

  // ---------------------------------------------------------------------
  // fetch_spec

  /** What `fetch_spec` ends in: a schema, VersionException, or sys.exit(1). */
  datatype SpecResult = Fetched(schema: Json) | VersionError | Aborted

  /** The candidate file `Path(dir) / spec_name / '.json'`. */
  function SpecFile(dir: string, name: string): string
  {
    if dir == "" then name + "/.json" else dir + "/" + name + "/.json"
  }

  /** The candidate file lies under its directory (the relative path when the
      directory is empty) and its last component is the literal `.json`. */
  lemma SpecFileShape(dir: string, name: string)
    ensures var f := SpecFile(dir, name);
      && |f| == (if dir == "" then 0 else |dir| + 1) + |name| + 6
      && (dir != "" ==> f[..|dir|] == dir && f[|dir|] == '/')
      && f[|f| - 6 - |name|..|f| - 6] == name
      && f[|f| - 6..] == "/.json"
  {
  }

  /** `getattr(<class>, f'{spec_name}_schema_url')` exists only for "collection". */
  predicate HasRemoteSchema(name: string)
  {
    name == "collection"
  }

  /** The remote download of a schema, None when it fails for any reason. */
  function RemoteSchema(name: string, version: string, env: Env): Option<Json>
  {
    if HasRemoteSchema(name) then env.download(CollectionSchemaUrl(version, DefaultSchemaFile)) else None
  }

  /** The loop variables (`valid_dir`, `spec`) of the directory search, or the
      exit that ends it. */
  datatype SearchState = Searching(found: bool, spec: Json) | Exited

  /** The loop body for one directory: an existing file sets `valid_dir` and,
      when it reads, replaces `spec`; a file that vanished falls back to the
      remote schema or exits; any other read error keeps the previous `spec`. */
  function SearchStep(st: SearchState, dir: string, name: string, version: string, env: Env): SearchState
  {
    match st
    case Exited => Exited
    case Searching(found, spec) =>
      var f := SpecFile(dir, name);
      if !env.isFile(f) then st
      else
        match env.readSpecFile(f)
        case LocalOk(j) => Searching(true, j)
        case LocalFailed => Searching(true, spec)
        case LocalNotFound =>
          match RemoteSchema(name, version, env)
          case Some(j) => Searching(true, j)
          case None => Exited
  }

  /** One directory keeps an exit, sets `valid_dir` exactly when its file
      exists, and leaves `spec` alone while no file has been found. */
  lemma StepShape(st: SearchState, dir: string, name: string, version: string, env: Env)
    ensures var r := SearchStep(st, dir, name, version, env);
      && (st.Exited? ==> r.Exited?)
      && (r.Searching? ==> st.Searching? && (r.found <==> st.found || env.isFile(SpecFile(dir, name))))
      && (r.Searching? && !r.found ==> r.spec == st.spec)
  {
  }

  /** The state after the loop has run over `dirs`; before the loop `spec`
      still holds the spec name string. */
  function SearchPrefix(dirs: seq<string>, name: string, version: string, env: Env): SearchState
    decreases |dirs|
  {
    if |dirs| == 0 then Searching(false, JStr(name))
    else SearchStep(SearchPrefix(dirs[..|dirs| - 1], name, version, env), dirs[|dirs| - 1], name, version, env)
  }

  /** After the loop, unless it exited, `valid_dir` holds exactly when some
      directory has the candidate file, and otherwise `spec` is still the
      spec name string. */
  lemma {:induction false} SearchFoundIff(dirs: seq<string>, name: string, version: string, env: Env)
    ensures var r := SearchPrefix(dirs, name, version, env);
      && (r.Searching? ==> (r.found <==> exists i :: 0 <= i < |dirs| && env.isFile(SpecFile(dirs[i], name))))
      && (r.Searching? && !r.found ==> r.spec == JStr(name))
    decreases |dirs|
  {
    if |dirs| > 0 {
      var front := dirs[..|dirs| - 1];
      SearchFoundIff(front, name, version, env);
      StepShape(SearchPrefix(front, name, version, env), dirs[|dirs| - 1], name, version, env);
      assert forall i :: 0 <= i < |front| ==> front[i] == dirs[i];
    }
  }

  /** `fetch_spec` without its memo. */
  function ResolveSpec(dirs: Option<seq<string>>, name: string, version: string, env: Env): (r: SpecResult)
    ensures dirs.None? ==> !r.Aborted?
    ensures dirs.None? ==> (r.Fetched? <==> RemoteSchema(name, version, env).Some?)
    ensures dirs.None? && r.Fetched? ==> r.schema == RemoteSchema(name, version, env).value
    ensures dirs.Some? ==> !r.VersionError?
  {
    match dirs
    case None =>
      (match RemoteSchema(name, version, env) case Some(j) => Fetched(j) case None => VersionError)
    case Some(ds) =>
      match SearchPrefix(ds, name, version, env)
      case Exited => Aborted
      case Searching(found, spec) => if found then Fetched(spec) else Aborted
  }

  /** With spec directories, a schema is returned only when some directory
      holds the candidate file; otherwise the run exits. */
  lemma FetchedFromExistingFile(ds: seq<string>, name: string, version: string, env: Env)
    ensures ResolveSpec(Some(ds), name, version, env).Fetched? <==>
      && SearchPrefix(ds, name, version, env).Searching?
      && exists i :: 0 <= i < |ds| && env.isFile(SpecFile(ds[i], name))
  {
    SearchFoundIff(ds, name, version, env);
  }

  /** The memoised `fetch_spec`: a name seen before gives the remembered schema
      without any I/O. */
  function LookupSpec(memo: map<string, Json>, dirs: Option<seq<string>>, name: string, version: string, env: Env): SpecResult
  {
    if name in memo then Fetched(memo[name]) else ResolveSpec(dirs, name, version, env)
  }

  /** A remembered name answers the same, whatever the directories, the
      version and the oracles are. */
  lemma MemoHitIgnoresOracles(memo: map<string, Json>, name: string,
                              dirs1: Option<seq<string>>, version1: string, env1: Env,
                              dirs2: Option<seq<string>>, version2: string, env2: Env)
    requires name in memo
    ensures LookupSpec(memo, dirs1, name, version1, env1) == LookupSpec(memo, dirs2, name, version2, env2)
    ensures LookupSpec(memo, dirs1, name, version1, env1) == Fetched(memo[name])
  {
  }

  /** The memo after a lookup: only a returned schema is remembered. */
  function Remember(memo: map<string, Json>, name: string, r: SpecResult): map<string, Json>
  {
    if r.Fetched? then memo[name := r.schema] else memo
  }

  /** Looking a name up again after a lookup that returned a schema gives the
      same schema, whatever the directories and remote answer the second time;
      a lookup that failed is not remembered, and other names are untouched. */
  lemma SecondLookupHitsMemo(memo: map<string, Json>, dirs: Option<seq<string>>, name: string, version: string,
                             env1: Env, env2: Env)
    ensures var r := LookupSpec(memo, dirs, name, version, env1);
      && (r.Fetched? ==> LookupSpec(Remember(memo, name, r), dirs, name, version, env2) == r)
      && (!r.Fetched? ==> Remember(memo, name, r) == memo && name !in memo)
      && (forall other :: other != name && other in memo ==> other in Remember(memo, name, r)
                                                             && Remember(memo, name, r)[other] == memo[other])
  {
  }

  /** Extending the searched prefix by one directory is one loop step. */
  lemma PrefixStep(ds: seq<string>, i: nat, name: string, version: string, env: Env)
    requires i < |ds|
    ensures SearchPrefix(ds[..i + 1], name, version, env)
            == SearchStep(SearchPrefix(ds[..i], name, version, env), ds[i], name, version, env)
  {
    assert ds[..i + 1][..i] == ds[..i];
  }

  /** The body of `fetch_spec`, with the loop over the spec directories. */
  method FetchSpecUncached(dirs: Option<seq<string>>, name: string, version: string, env: Env)
    returns (r: SpecResult)
    ensures r == ResolveSpec(dirs, name, version, env)
  {
    if dirs.None? {
      var remote := RemoteSchema(name, version, env);
      if remote.None? {
        return VersionError;
      }
      return Fetched(remote.value);
    }
    var ds := dirs.value;
    var validDir := false;
    var spec := JStr(name);
    var i := 0;
    while i < |ds|
      invariant 0 <= i <= |ds|
      invariant SearchPrefix(ds[..i], name, version, env) == Searching(validDir, spec)
    {
      PrefixStep(ds, i, name, version, env);
      var specFile := SpecFile(ds[i], name);
      if env.isFile(specFile) {
        validDir := true;
        var read := env.readSpecFile(specFile);
        match read {
          case LocalOk(j) =>
            spec := j;
          case LocalFailed =>
          case LocalNotFound =>
            var remote := RemoteSchema(name, version, env);
            if remote.None? {
              ExitIsFinal(ds, i + 1, name, version, env);
              assert ds[..|ds|] == ds;
              return Aborted;
            }
            spec := remote.value;
        }
      }
      i := i + 1;
    }
    assert ds[..|ds|] == ds;
    if !validDir {
      return Aborted;
    }
    return Fetched(spec);
  }

  /** Once the search has exited, later directories do not revive it. */
  lemma {:induction false} ExitIsFinal(ds: seq<string>, k: nat, name: string, version: string, env: Env)
    requires k <= |ds|
    requires SearchPrefix(ds[..k], name, version, env) == Exited
    ensures SearchPrefix(ds, name, version, env) == Exited
    decreases |ds| - k
  {
    if k < |ds| {
      assert ds[..k + 1][..k] == ds[..k];
      ExitIsFinal(ds, k + 1, name, version, env);
    } else {
      assert ds[..k] == ds;
    }
  }

  /** Directories without the candidate file leave the search state as it is. */
  lemma {:induction false} MissingFilesKeepState(ds: seq<string>, k: nat, name: string, version: string, env: Env)
    requires k <= |ds|
    requires forall i :: k <= i < |ds| ==> !env.isFile(SpecFile(ds[i], name))
    ensures SearchPrefix(ds, name, version, env) == SearchPrefix(ds[..k], name, version, env)
    decreases |ds| - k
  {
    if k == |ds| {
      assert ds[..k] == ds;
    } else {
      MissingFilesKeepState(ds[..|ds| - 1], k, name, version, env);
      assert ds[..|ds| - 1][..k] == ds[..k];
    }
  }

  /** With spec directories and no candidate file in any of them, the run
      exits instead of returning. */
  lemma NoSpecFileAborts(ds: seq<string>, name: string, version: string, env: Env)
    requires forall i :: 0 <= i < |ds| ==> !env.isFile(SpecFile(ds[i], name))
    ensures ResolveSpec(Some(ds), name, version, env) == Aborted
  {
    MissingFilesKeepState(ds, 0, name, version, env);
  }

  /** There is no `break`: the last directory whose file exists and reads
      decides the schema, whatever earlier directories held. */
  lemma LastExistingWins(ds: seq<string>, k: nat, j: Json, name: string, version: string, env: Env)
    requires k < |ds|
    requires env.isFile(SpecFile(ds[k], name)) && env.readSpecFile(SpecFile(ds[k], name)) == LocalOk(j)
    requires forall i :: k < i < |ds| ==> !env.isFile(SpecFile(ds[i], name))
    requires SearchPrefix(ds[..k], name, version, env) != Exited
    ensures ResolveSpec(Some(ds), name, version, env) == Fetched(j)
  {
    LastExistingState(ds, k, j, name, version, env);
  }

  lemma LastExistingState(ds: seq<string>, k: nat, j: Json, name: string, version: string, env: Env)
    requires k < |ds|
    requires env.isFile(SpecFile(ds[k], name)) && env.readSpecFile(SpecFile(ds[k], name)) == LocalOk(j)
    requires forall i :: k < i < |ds| ==> !env.isFile(SpecFile(ds[i], name))
    requires SearchPrefix(ds[..k], name, version, env) != Exited
    ensures SearchPrefix(ds, name, version, env) == Searching(true, j)
  {
    PrefixStep(ds, k, name, version, env);
    MissingFilesKeepState(ds, k + 1, name, version, env);
  }

  /** When the one candidate file exists but cannot be parsed, `spec` still
      holds the spec name, and that string is returned as the schema. */
  lemma UnreadableSpecReturnsName(dir: string, name: string, version: string, env: Env)
    requires env.isFile(SpecFile(dir, name)) && env.readSpecFile(SpecFile(dir, name)) == LocalFailed
    ensures ResolveSpec(Some([dir]), name, version, env) == Fetched(JStr(name))
  {
    assert [dir][..0] == [];
    assert SearchPrefix([dir][..0], name, version, env) == Searching(false, JStr(name));
    assert SearchPrefix([dir], name, version, env) == Searching(true, JStr(name));
  }

  /** Without spec directories only "collection" can be fetched; any other
      name raises VersionException. */
  lemma RemoteOnlyForCollection(name: string, version: string, env: Env)
    requires name != "collection"
    ensures ResolveSpec(None, name, version, env) == VersionError
  {
  }
}
