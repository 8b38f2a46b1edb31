# ESM collection and catalog validators, modelled in Dafny

The repository validates ESM collection documents. A collection is a JSON
description of a climate-model data catalog. Two validator classes do the
work:

- `EsmcolValidate` loads the document from a URL or a local file. It decides
  whether the document is a collection (a dict with at least one of the six
  collection fields). It then checks the document against the collection JSON
  schema, and cross-checks the header of the catalog file the document names
  against the columns it declares.
- `EsmcatValidate` does the same without the catalog cross-check.

Each run produces one message per file and a tally of valid, invalid and
unknown inputs. The schema is either fetched from the esm-collection-spec
repository, at a URL built from the requested version, or read from local
spec directories. Its lookup is memoised per validator instance.

The model keeps the decision logic, the bookkeeping and the Python quirks
that affect results. Every I/O and foreign algorithm becomes an oracle field
of `Io.Env`:

- the loader (`readFile`, `fetchUrl`);
- the spec-directory probes (`isFile`, `readSpecFile`);
- the remote schema download (`download`);
- the JSON Schema algorithm (`schemaCheck`);
- the tabular reader (`readCsv`), which returns the header with the index
  column already dropped.

Every property is therefore stated for all oracles at once.

## Files

| file | module | what it holds |
|---|---|---|
| `values.dfy` | `Values` | The datatypes shared across the model: `Option`, `Result`, parsed JSON, and the Python exceptions that escape a run. |
| `io.dfy` | `Io` | The oracle outcomes, and `Env`. |
| `text.dfy` | `Text` | `str.split` on one character, `str.join`, substring tests, `str.strip`. |
| `common.dfy` | `Common` | Code that is identical in both validators: `check_none`, `is_valid_url` (with the parts of `urlsplit` it depends on), `collection_schema_url`, `validate_json`, collection recognition, `fetch_and_parse_file`, and `fetch_spec`. |
| `esmcol.dfy` | `Esmcol` | `validate_csv`, the five-counter status, `_update_status`, `_validate`, `run`, and the `EsmcolValidate` class. |
| `esmcat.dfy` | `Esmcat` | The three-counter status, `_update_status`, `_validate`, `run`, and the `EsmcatValidate` class. |

Where the code changes state, the model is imperative:

- `_update_status` is `Status.UpdateStatus`. It adds the counters of one
  status object into another, in place.
- `run` is `Run`. It reassigns the status, and appends to `message`.
- `_validate` is `Validate`. It fills a fresh status object field by field.
- `fetch_spec` is `FetchSpec`. It consults and updates `memo`, which stands
  for the instance's `lru_cache`. `FetchSpecUncached` holds its loop over the
  spec directories, which updates `valid_dir` and `spec`.
- The `columns` list of `validate_csv` is built by appending, in
  `AttributeColumns` and `ValidateCsv`.

Each of these methods is tied by its `ensures` to a pure specification
function: `ResolveSpec`, `LookupSpec`, `CrossCheck` or `ValidateOutcome`. The
source's promises are proved as lemmas about those functions.

The code of `EsmcatValidate` is the code of `EsmcolValidate` with the
catalog-specific parts removed. The shared members cite the
esmcol_validator lines. The same logic sits in esmcat_validator/validator.py
at:

| member | lines |
|---|---|
| `check_none` | 70-85 |
| `fetch_spec` | 87-153 |
| `validate_json` | 155-178 |
| `is_valid_url` | 187-204 |
| `fetch_and_parse_file` | 206-244 |
| `collection_schema_url` | 16-29 |

Quirks kept as the code has them:

- A load error writes the misspelt key `'unkown'`. The `unknown` counter the
  run tallies therefore stays as it was (`LoadErrorLeavesUnknown`). A reader
  might expect a load error to increase `unknown`; the code
  (esmcol_validator/validator.py:316 and 235) does not, and the model follows
  the code.
- The local schema path is `dir / name / '.json'`, a file called `.json`
  inside a directory named after the schema.
  - The directory loop has no `break`, so the last existing file wins
    (`LastExistingWins`).
  - If no file exists, the run exits; this is the `Aborted` outcome
    (`NoSpecFileAborts`).
  - A spec file that exists but cannot be parsed leaves `spec` holding the
    schema name string. That string is then returned as the schema
    (`UnreadableSpecReturnsName`).
- `validate_csv` raises KeyError for a recognised document that lacks
  `catalog_file`, `attributes` or `assets`. The exception escapes `run`
  (`MissingCatalogFileRaises`, and `Fails` in `ValidateOutcome`).
- A document that is not a collection adds nothing to the tally. Its message
  holds only its path (`UnrecognisedIsIgnored`).

## Model

| member | source | states |
|---|---|---|
| Common.CheckNone | esmcol_validator/validator.py:74-89 | The string `'None'` gives no directories. Any other string gives its comma-separated pieces: the pieces join back to the string, there is one more piece than there are commas, and no piece contains a comma. A missing value gives none and a list is returned unchanged. |
| Common.CheckNoneSingleton | esmcol_validator/validator.py:82-85 | A string without a comma, other than `'None'`, gives the one-element list of itself. |
| Common.CheckNoneJoined | esmcol_validator/validator.py:84-85 | Comma-free directory names, passed joined by commas, give back exactly that list. |
| Text.JoinSplit | esmcol_validator/validator.py:85 | Re-joining the pieces of `s.split(',')` with commas gives `s`. |
| Text.SplitJoin | esmcol_validator/validator.py:85 | Splitting a comma-join of comma-free pieces gives the pieces back. |
| Text.Split | esmcol_validator/validator.py:85 | `split` yields one more piece than there are separators, and no piece holds the separator. |
| Text.Strip | esmcol_validator/validator.py:63 | The stripped input path is a contiguous window of the original. Everything it drops, in front and behind, is whitespace in the sense of `str.isspace`, including the separators U+001C to U+001F and the Unicode spaces. It neither starts nor ends with whitespace. |
| Common.UrlSplit | esmcol_validator/validator.py:251-252 | The scheme, network location and path `urlparse` splits off, or nothing when it raises for an unbalanced bracket. Its contract is stated by `UrlSplitShape`. |
| Common.UrlSplitShape | esmcol_validator/validator.py:251-252 | When urlparse succeeds, the scheme is empty or starts with a letter and holds only scheme characters. The network location holds no `/`, `?` or `#`. The path holds no query or fragment. |
| Common.IsValidUrl | esmcol_validator/validator.py:238-255 | `is_valid_url`: true exactly when the split succeeds and scheme, netloc and path are all non-empty. Its contract is stated by `ValidUrlShape`, `SchemeHostPathIsUrl` and `NoColonIsNotUrl`. |
| Common.ValidUrlShape | esmcol_validator/validator.py:238-255 | A path classified as a URL parses with a letter-led scheme, a network location free of `/`, `?` and `#`, and a path without query or fragment. |
| Common.NoColonIsNotUrl | esmcol_validator/validator.py:238-255 | A path without `:` has no scheme, so it is never classified as a URL. |
| Common.SchemeHostPathIsUrl | esmcol_validator/validator.py:251-253 | `scheme://host/rest` with a letter-led scheme and a plain ASCII host (no delimiters, no brackets) has a non-empty scheme, netloc and path, so it is classified as a URL. |
| Common.CollectionSchemaUrl | esmcol_validator/validator.py:16-29 | `collection_schema_url(version, filename)`. Its contract is stated by `SchemaUrlParts`, `SchemaUrlInjective` and `SchemaUrlIsUrl`. |
| Common.SchemaUrlParts | esmcol_validator/validator.py:16-29 | The schema URL is `COLLECTION_URL` with input type `json-schema`: the raw.githubusercontent.com esm-collection-spec base, then the version, then `/collection-spec/json-schema/` and the file name. |
| Common.SchemaUrlInjective | esmcol_validator/validator.py:23-29 | Different versions give different schema URLs. |
| Common.SchemaUrlIsUrl | esmcol_validator/validator.py:23-29 | Every schema URL passes the URL test: scheme `https`, the GitHub host, and a non-empty path. |
| Common.ValidateJson | esmcol_validator/validator.py:159-182 | The result is valid exactly when the schema algorithm accepts, and exactly then there is no message. A violation gives `<message> of <path list>`. Any other failure gives its text, and nothing is raised. |
| Common.IsCollection | esmcol_validator/validator.py:298-305 | The `any(...)` test over the six collection fields. Its contract is stated by `CollectionFieldSuffices` and `IsCollectionIff`. |
| Common.CollectionFieldSuffices | esmcol_validator/validator.py:298-305 | Any one of the six collection fields makes a dict a collection. A dict with none of them, or anything that is not a dict, is not one (lines 319-321). |
| Common.IsCollectionIff | esmcol_validator/validator.py:298-305 | A document is recognised exactly when it is a dict whose keys meet the six collection fields. |
| Common.FetchAndParse | esmcol_validator/validator.py:273-281 | An input that passes the URL test is fetched over the network, and any other is read as a local file. In particular, a path without `:` is always read locally. |
| Common.WebPathIsFetched | esmcol_validator/validator.py:273-277 | A `scheme://host/rest` path with a letter-led scheme and a plain ASCII host (no delimiters, no brackets) is always requested over the network. |
| Common.Describe | esmcol_validator/validator.py:283-293 | A decode error is described as `InvalidJSON` and a missing file as `FileNotFoundError`. Either message begins with the input path. |
| Common.SpecFile | esmcol_validator/validator.py:118 | `Path(dir) / spec_name / '.json'`. Its contract is stated by `SpecFileShape`. |
| Common.SpecFileShape | esmcol_validator/validator.py:118 | The candidate file is exactly the directory, a `/`, the spec name, then a file literally named `.json`; its length is fixed by those parts. An empty directory gives the relative path `<name>/.json`, as `Path('')` does. |
| Common.SearchStep | esmcol_validator/validator.py:117-141 | One pass of the directory loop on (`valid_dir`, `spec`), or the exit. Its contract is stated by `StepShape`. |
| Common.StepShape | esmcol_validator/validator.py:117-141 | One loop step never revives an exit. Afterwards `valid_dir` is true exactly when it was true before or this directory holds the spec file. A step that leaves `valid_dir` false leaves `spec` unchanged. |
| Common.SearchPrefix | esmcol_validator/validator.py:115-141 | The directory loop run over a prefix of the directories. Its contract is stated by `SearchFoundIff`, `ExitIsFinal`, `MissingFilesKeepState` and `LastExistingWins`. |
| Common.SearchFoundIff | esmcol_validator/validator.py:115-141 | After the loop, unless it exited, `valid_dir` is true exactly when some directory holds the spec file. When none does, `spec` still holds the spec name string. |
| Common.ResolveSpec | esmcol_validator/validator.py:103-157 | Without spec directories: the outcome is exactly the downloaded schema when the download succeeds, otherwise VersionException, and never an exit. With directories: VersionException never occurs. |
| Common.FetchedFromExistingFile | esmcol_validator/validator.py:115-155 | With spec directories, a schema is returned exactly when the search did not exit and some directory holds the spec file; otherwise the lookup ends in `sys.exit(1)` at line 139 or 155. |
| Common.FetchSpecUncached | esmcol_validator/validator.py:103-157 | The loop over the spec directories returns exactly the fold `ResolveSpec` over all directories. |
| Common.LookupSpec | esmcol_validator/validator.py:91-92 | The `lru_cache`d `fetch_spec`: the remembered schema for a name seen before, `ResolveSpec` otherwise. Its contract is stated by `MemoHitIgnoresOracles` and `SecondLookupHitsMemo`. |
| Common.MemoHitIgnoresOracles | esmcol_validator/validator.py:91-92 | A memoised name gives its remembered schema, whatever the directories, the version and the oracles are. |
| Common.SecondLookupHitsMemo | esmcol_validator/validator.py:91-92 | After a lookup returns a schema, looking the name up again returns the same schema, whatever the oracles answer. A failed lookup is not remembered, and other names stay as they were. |
| Common.ExitIsFinal | esmcol_validator/validator.py:127-139 | Once the search has exited, later directories cannot undo it. |
| Common.MissingFilesKeepState | esmcol_validator/validator.py:117-119 | Directories without the spec file leave `valid_dir` and `spec` unchanged. |
| Common.NoSpecFileAborts | esmcol_validator/validator.py:116-119 | If no directory holds the spec file, the lookup ends in the process exit (lines 143-155). |
| Common.LastExistingWins | esmcol_validator/validator.py:117-124 | The loop has no `break`: the last directory holding a readable spec file supplies the schema. |
| Common.UnreadableSpecReturnsName | esmcol_validator/validator.py:103-141 | When it is the only spec directory, a spec file that exists but fails to parse is logged, and the schema name string is returned as the schema. |
| Common.RemoteOnlyForCollection | esmcol_validator/validator.py:105-114 | Without spec directories, any name but `collection` has no URL builder, so the lookup raises VersionException. |
| Esmcol.PyIn | esmcol_validator/validator.py:201 | `in` works on a dict, a list or a string and raises TypeError on anything else. On a dict it tests the keys. A string contains itself. |
| Esmcol.PyGet | esmcol_validator/validator.py:198-200 | A dict subscript succeeds exactly for a present key. A missing key raises KeyError, and any other container raises TypeError. |
| Esmcol.ItemNames | esmcol_validator/validator.py:204 | The comprehension succeeds exactly when every attribute item has a `column_name`, and then gives those names in order. Otherwise it raises the error of the first item that fails. |
| Esmcol.AttributeColumns | esmcol_validator/validator.py:204 | Building the attribute columns item by item agrees with the comprehension, errors included. |
| Esmcol.ColumnNames | esmcol_validator/validator.py:204 | A list of attributes gives exactly the names of `ItemNames`, one per item. An empty dict or an empty string gives no names. A non-empty dict or string, and anything that is not a list, dict or string, raises TypeError. Any failure is a TypeError or the KeyError for `column_name`. |
| Esmcol.ExpectedColumns | esmcol_validator/validator.py:204-208 | The expected columns are the attribute names, then `assets['format_column_name']` when that key is present, then `assets['column_name']`. They exist only when the assets are a dict holding `column_name`. Any failure is a TypeError or a KeyError. |
| Esmcol.FirstUnhashable | esmcol_validator/validator.py:212 | `set(columns)` fails exactly when some column name is a list or a dict. |
| Esmcol.CompareWithCatalog | esmcol_validator/validator.py:210-227 | The `try` block never lets an exception escape. A result carries a message exactly when it is invalid, and it is valid only when the catalog file was read. |
| Esmcol.CrossCheck | esmcol_validator/validator.py:184-227 | A verdict is reached only when `catalog_file`, `attributes` and `assets` are all present. It carries a message exactly when it is invalid, and it is valid only when the catalog file was read. Any exception that escapes is a TypeError or a KeyError. |
| Esmcol.ValidateCsv | esmcol_validator/validator.py:184-227 | The step-by-step `validate_csv` gives exactly the verdict, message or escaping exception of `CrossCheck`. |
| Esmcol.MutualExclusionIgnoresCatalog | esmcol_validator/validator.py:201-202 | Both `format` and `format_column_name` in the assets makes the result invalid with the mutual-exclusion message, whatever the catalog file holds. |
| Esmcol.ExpectedColumnsOrder | esmcol_validator/validator.py:204-208 | The expected columns are the attribute names in order, then the format column if it is declared, then the asset column. |
| Esmcol.ExtraColumnsIff | esmcol_validator/validator.py:212-220 | The result is invalid exactly when every expected column is a header name and some header name is not expected. The message names exactly those extra header names. A valid result carries no message. |
| Esmcol.EqualColumnsValid | esmcol_validator/validator.py:215-220 | A header equal to the expected columns is valid. |
| Esmcol.MissingColumnValid | esmcol_validator/validator.py:215-220 | A header that lacks an expected column is valid, and is not flagged. |
| Esmcol.CatalogReadErrors | esmcol_validator/validator.py:222-227 | A missing catalog file gives `Could not read catalog file: <file>`. Any other read error gives its text. Both are invalid. |
| Esmcol.MissingCatalogFileRaises | esmcol_validator/validator.py:198 | A document without `catalog_file` makes the cross-check raise KeyError. |
| Esmcol.AddCounts | esmcol_validator/validator.py:229-236 | `_update_status` on values: each of the five counters is summed. Its contract is stated by `AddCountsMonotone`. |
| Esmcol.AddCountsMonotone | esmcol_validator/validator.py:229-236 | Adding non-negative counts never decreases any of the five counters. |
| Esmcol.Status.constructor | esmcol_validator/validator.py:308-312 | A new status has all five counters at 0 and no other key. |
| Esmcol.Status.UpdateStatus | esmcol_validator/validator.py:229-236 | Each of the five counters of the old status becomes old + new, other keys keep their values, and the same object is returned. |
| Esmcol.ValidateOutcome | esmcol_validator/validator.py:297-346 | `_validate` as a value: the message, the counters and the stray keys, or the escaping exception. Its contract is stated by `OutcomeShape`, `RecognisedCounts`, `LoadErrorLeavesUnknown`, `UnrecognisedIsIgnored`, `SpecFailureEscapes` and `OutcomeCountsBounded`. |
| Esmcol.OutcomeShape | esmcol_validator/validator.py:297-346 | An exception escapes only from an unclassified load failure or from a recognised collection. A completed run reports both verdicts exactly for a recognised collection. It has the stray `'unkown'` key exactly for a load error. Every message other than the error descriptor carries the path. |
| Esmcol.RecognisedCounts | esmcol_validator/validator.py:319-344 | A recognised collection sets exactly one collections counter, from the schema verdict, and exactly one catalog_files counter, from the cross-check verdict. `unknown` stays 0. The message carries both verdicts, both messages and the path. |
| Esmcol.LoadErrorLeavesUnknown | esmcol_validator/validator.py:314-317 | A load error returns the descriptor, which has no path, with five zero counters and a stray `'unkown': 1`. Adding it to any tally leaves the tally unchanged (lines 230-236). |
| Esmcol.UnrecognisedIsIgnored | esmcol_validator/validator.py:319-321 | A document that is not a collection gives zero counters and a message holding only its path (line 344). |
| Esmcol.SpecFailureEscapes | esmcol_validator/validator.py:323-325 | For a recognised collection, an unavailable schema escapes as VersionException, or as the exit. |
| Esmcol.OutcomeCountsBounded | esmcol_validator/validator.py:308-344 | A completed `_validate` adds 1 to each category exactly for a recognised collection, adds 0 otherwise, and never adds to `unknown`. |
| Esmcol.SampleColumns | esmcol_validator/validator.py:198-208 | For a collection with attribute `a`, asset column `b` and catalog `t.csv`, the cross-check compares `[a, b]` with the header of `t.csv`, whatever that holds. |
| Esmcol.SampleEqualHeader | esmcol_validator/validator.py:319-342 | The sample collection, schema-valid, with header `a, b`, counts one valid collection and one valid catalog file. |
| Esmcol.SampleExtraHeader | esmcol_validator/validator.py:319-342 | The same collection with header `a, b, extra` counts one valid collection and one invalid catalog file. |
| Esmcol.EsmcolValidate.constructor | esmcol_validator/validator.py:37-72 | The input path is stripped and the spec directories go through `check_none`. The message list and the memo start empty, and the status starts at zero. |
| Esmcol.EsmcolValidate.FetchSpec | esmcol_validator/validator.py:91-157 | The result is the memoised lookup of the name. A returned schema is remembered, and a raised or exiting lookup is not. |
| Esmcol.EsmcolValidate.Validate | esmcol_validator/validator.py:297-346 | The step-by-step `_validate` gives the message, the counters and the stray keys of `ValidateOutcome`, or its escaping exception. The schema is looked up only for a recognised collection. |
| Esmcol.EsmcolValidate.Run | esmcol_validator/validator.py:348-359 | One `_validate` call. On success the message list is one element longer, ending in its message, and the same status object holds old + new counters. If an exception escapes, the messages and counters are unchanged. For a recognised collection the memo remembers a returned schema, even when the cross-check then raises. For any other input the memo is unchanged. |
| Esmcat.AddCounts | esmcat_validator/validator.py:180-185 | `_update_status` on values: each of the three counters is summed. Its contract is stated by `AddCountsMonotone`. |
| Esmcat.AddCountsMonotone | esmcat_validator/validator.py:180-185 | Adding non-negative counts never decreases any of the three counters. |
| Esmcat.Status.constructor | esmcat_validator/validator.py:257 | A new status has its three counters at 0, and no catalog_files counter. |
| Esmcat.Status.UpdateStatus | esmcat_validator/validator.py:180-185 | Only `collections.valid`, `collections.invalid` and `unknown` are added in place, and the same object is returned. |
| Esmcat.ValidateOutcome | esmcat_validator/validator.py:246-281 | `_validate` as a value: the message, the counters and the stray keys, or the escaping exception. Its contract is stated by `OutcomeShape`, `RecognisedCounts`, `LoadErrorLeavesUnknown`, `UnrecognisedIsIgnored`, `SpecFailureEscapes` and `OutcomeCountsBounded`. |
| Esmcat.OutcomeShape | esmcat_validator/validator.py:246-281 | An exception escapes only from an unclassified load failure or from a recognised collection. A completed run reports the schema verdict exactly for a recognised collection. It has the stray `'unkown'` key exactly for a load error. Every message other than the error descriptor carries the path. |
| Esmcat.RecognisedCounts | esmcat_validator/validator.py:264-280 | A recognised collection sets exactly one collections counter, from the schema verdict. There is no catalog cross-check, and the message carries the verdict, its message and the path. |
| Esmcat.LoadErrorLeavesUnknown | esmcat_validator/validator.py:259-262 | A load error returns the descriptor with zero counters and `'unkown': 1`, so the tallied `unknown` stays as it was. |
| Esmcat.UnrecognisedIsIgnored | esmcat_validator/validator.py:264-281 | A document that is not a collection gives zero counters and a message holding only its path. |
| Esmcat.SpecFailureEscapes | esmcat_validator/validator.py:268-270 | For a recognised collection, an unavailable schema escapes as VersionException, or as the exit. |
| Esmcat.OutcomeCountsBounded | esmcat_validator/validator.py:257-278 | A completed `_validate` adds 1 to the collections counters exactly for a recognised collection, and never adds to `unknown`. |
| Esmcat.EsmcatValidate.constructor | esmcat_validator/validator.py:37-68 | The input path is stripped and the spec directories go through `check_none`. The message list and the memo start empty, and the status starts at zero. |
| Esmcat.EsmcatValidate.FetchSpec | esmcat_validator/validator.py:87-153 | The result is the memoised lookup of the name. A returned schema is remembered, and a raised or exiting lookup is not. |
| Esmcat.EsmcatValidate.Validate | esmcat_validator/validator.py:246-281 | The step-by-step `_validate` gives the message, the counters and the stray keys of `ValidateOutcome`, or its escaping exception. |
| Esmcat.EsmcatValidate.Run | esmcat_validator/validator.py:283-294 | One `_validate` call. On success the message list is one element longer and the same status object holds old + new counters. If an exception escapes, the messages and counters are unchanged. For a recognised collection the memo remembers a returned schema; for any other input it is unchanged. |

## Left out

- **Network and file contents**: HTTP requests, opening files, `json.load`, the spec-file probes and the remote schema download are oracle fields of `Env`. Which requests happen is modelled; their contents are not.
- **JSON Schema**: the validation algorithm is the `schemaCheck` oracle.
- **Catalog reading**: the pandas `read_csv` header handling (`index_col=0`, name mangling) is the `readCsv` oracle, which returns the header names with the index column removed.
- **Logging**: the logging configuration and every log call are side effects only.
- **Log level**: the log-level check in `__init__` is not modelled. An unknown level raises `ValueError` and aborts construction (esmcol_validator/validator.py:51-53); the constructors stand for a valid level.
- **Cache files**: `tempfile.mkdtemp` and writing the schema to a cache file are disk side effects that are not modelled.
- Common.ResolveSpec: the cache-file write (esmcol_validator/validator.py:143-149) sits outside any `try`. When it fails, its exception escapes `fetch_spec`, `_validate` and `run`. This happens for a version containing `/`, such as `release/1.0`, which names a missing subdirectory of the temporary directory. The model has no such outcome: a located schema is always returned.
- **`print(status)`** in `_validate` is output only.
- **`json.dumps`**: `run` returns the message list itself, not the JSON text of `json.dumps(self.message)`.
- **`cli.py` and `setup.py`** are plumbing: argument parsing, timing and directory removal.
- Common.LookupSpec: the `lru_cache(maxsize=48)` bound is not modelled. The cache is treated as unbounded and owned by one instance, so an entry that least-recently-used eviction could drop, once 48 (instance, name) pairs are cached, is remembered here.
- Common.IsValidUrl: the model follows `urlsplit` as CPython 3.12 has it: leading C0 controls and spaces are stripped, tabs and line breaks are deleted (`Clean`), and a scheme must start with an ASCII letter (`SplitScheme`). The 3.6 and 3.7 interpreters that setup.py:20-21 names did not have these pieces before their later security releases. On those interpreters `1http://h/x` is a URL, because a digit could lead a scheme, where the model reads it as a local file. `\x01http://h/x` is read locally there, because `str.strip` keeps `\x01`, where the model classifies it as a URL. Tabs and line breaks are kept there, so `http:\t//h/x` has no netloc there and is read locally, where the model classifies it as a URL. Two `ValueError` checks on the network location are not modelled, and `is_valid_url` turns each of them into False. One is the NFKC check: a non-ASCII netloc whose NFKC form gains `/`, `?`, `#`, `@` or `:` (for example `http://a\u2100b/x`). The other is the bracketed-host check: a bracketed host that is not an IPv6 or IPvFuture address (for example `http://[abc]/x`). The model classifies both as URLs where Python reads them as local files. `SchemeHostPathIsUrl` and `WebPathIsFetched` therefore ask for an ASCII host without brackets. Scheme lowercasing and the `;params` split of `urlparse` are not modelled; they change the texts of the scheme and path, never whether they are empty. The truthy path string that `is_valid_url` returns is modelled as `true`.
- Common.ValidateJson: the `<path list>` text renders keys in quotes and indices as numbers. Python's repr escaping of keys with quotes or backslashes is not modelled.
- Common.SpecFile: `pathlib` normalisation is not modelled beyond the empty directory. Repeated or trailing slashes and `.` components in a directory are kept as written, where `Path` would collapse them; the probes see the path as concatenated.
- Esmcol.CatalogMsg: the messages are kept as structured values, not their Python text. The extra header names stay a set, rather than the set's repr. Exception texts are oracle strings. The message of an unhashable column name is represented by the offending kind (`list` or `dict`).
- Values.Json: JSON numbers are integers. Floats, and Python's `True == 1` equality inside sets, are not modelled. Neither affects the string-valued header comparison.
- The exit inside the spec lookup is the `Aborted` outcome (`SystemExit(1)`, which escapes `run`). It does not end a process.
