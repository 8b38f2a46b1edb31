/** The catalog validator (`EsmcatValidate`): the collection validator
    without the catalog-file cross-check, tallying only the collections
    counters and `unknown`. */
module Esmcat {
  import opened Values
  import opened Io
  import opened Text
  import opened Common

  /** The three counters of a status dict. */
  datatype Counts = Counts(collectionsValid: int, collectionsInvalid: int, unknown: int)

  const ZeroCounts := Counts(0, 0, 0)

  /** Counter-wise sum. */
  function AddCounts(a: Counts, b: Counts): Counts
  {
    Counts(a.collectionsValid + b.collectionsValid, a.collectionsInvalid + b.collectionsInvalid,
           a.unknown + b.unknown)
  }

  predicate NonNegative(c: Counts)
  {
    c.collectionsValid >= 0 && c.collectionsInvalid >= 0 && c.unknown >= 0
  }

  /** Adding non-negative counts never decreases a counter. */
  lemma AddCountsMonotone(a: Counts, b: Counts)
    requires NonNegative(b)
    ensures var s := AddCounts(a, b);
      s.collectionsValid >= a.collectionsValid && s.collectionsInvalid >= a.collectionsInvalid
      && s.unknown >= a.unknown
    ensures NonNegative(a) ==> NonNegative(AddCounts(a, b))
  {
  }

  /** The mutable status dict: its three counters and any other top-level key
      (such as the misspelt 'unkown' of the load-error branch). */
  class Status {
    var collectionsValid: int
    var collectionsInvalid: int
    var unknown: int
    var others: map<string, int>

    function Counters(): Counts
      reads this
    {
      Counts(collectionsValid, collectionsInvalid, unknown)
    }

    /** A status with every counter at 0. */
    constructor ()
      ensures Counters() == ZeroCounts && others == map[]
    {
      collectionsValid, collectionsInvalid := 0, 0;
      unknown := 0;
      others := map[];
    }

    /** `_update_status`: adds each of the three counters of `newStatus` into
      `oldStatus` in place and returns `oldStatus`. */
    static method UpdateStatus(oldStatus: Status, newStatus: Status) returns (r: Status)
      modifies oldStatus
      ensures r == oldStatus
      ensures oldStatus.Counters() == AddCounts(old(oldStatus.Counters()), old(newStatus.Counters()))
      ensures oldStatus.others == old(oldStatus.others)
    {
      oldStatus.collectionsValid := oldStatus.collectionsValid + newStatus.collectionsValid;
      oldStatus.collectionsInvalid := oldStatus.collectionsInvalid + newStatus.collectionsInvalid;
      oldStatus.unknown := oldStatus.unknown + newStatus.unknown;
      return oldStatus;
    }
  }

  /** The message dict of one file. */
  datatype Report =
    | LoadErrorReport(descriptor: ErrorDescriptor)
    | CollectionReport(validEsmcol: bool, errorMessage: Option<string>, path: string)
    | PathReport(path: string)

  /** What `_validate` returns as values, or the exception that escapes it. */
  datatype Outcome =
    | Done(report: Report, counts: Counts, stray: map<string, int>)
    | Fails(error: PyError)

  /** `_validate(path)` when the memoised `fetch_spec('collection')` would
      give `spec`. */
  function ValidateOutcome(path: string, env: Env, spec: SpecResult): Outcome
  {
    var loaded := FetchAndParse(path, env);
    match loaded
    case IoFailure => Fails(IoError)
    case DecodeError => Done(LoadErrorReport(Describe(path, loaded)), ZeroCounts, map["unkown" := 1])
    case NotFound => Done(LoadErrorReport(Describe(path, loaded)), ZeroCounts, map["unkown" := 1])
    case Loaded(doc) =>
      if !IsCollection(doc) then Done(PathReport(path), ZeroCounts, map[])
      else
        match spec
        case VersionError => Fails(VersionException)
        case Aborted => Fails(SystemExit(1))
        case Fetched(schema) =>
          var check := ValidateJson(env.schemaCheck(doc, schema));
          Done(CollectionReport(check.valid, check.error, path),
               Counts(if check.valid then 1 else 0, if check.valid then 0 else 1, 0), map[])
  }

  /** An exception escapes only from an unclassified load failure or from a
      recognised collection; a completed run reports the verdicts exactly for
      a recognised collection, has the stray `'unkown'` key exactly for a load
      error, and names the path in every other message. */
  lemma OutcomeShape(path: string, env: Env, spec: SpecResult)
    ensures var r := ValidateOutcome(path, env, spec);
      && (r.Fails? ==> FetchAndParse(path, env).IoFailure? || Recognised(path, env))
      && (r.Done? ==> (r.report.CollectionReport? <==> Recognised(path, env)))
      && (r.Done? ==> ("unkown" in r.stray <==> FetchAndParse(path, env).DecodeError? || FetchAndParse(path, env).NotFound?))
      && (r.Done? && !r.report.LoadErrorReport? ==> r.report.path == path)
  {
  }

  /** The input document loads and is recognised as a collection. */
  predicate Recognised(path: string, env: Env)
  {
    FetchAndParse(path, env).Loaded? && IsCollection(FetchAndParse(path, env).doc)
  }

  /** A recognised document with a schema gives exactly one collections
      counter, set by the schema verdict, and no unknown; the message carries
      the verdict, its error message and the path. */
  lemma RecognisedCounts(path: string, env: Env, schema: Json)
    requires Recognised(path, env)
    ensures var doc := FetchAndParse(path, env).doc;
      var check := ValidateJson(env.schemaCheck(doc, schema));
      var o := ValidateOutcome(path, env, Fetched(schema));
      && o.Done?
      && o.counts.collectionsValid + o.counts.collectionsInvalid == 1
      && (o.counts.collectionsValid == 1 <==> env.schemaCheck(doc, schema).Accepts?)
      && o.counts.unknown == 0
      && o.stray == map[]
      && o.report == CollectionReport(check.valid, check.error, path)
  {
  }

  /** A load error returns the descriptor with every counter at 0 and a stray
      'unkown' key, so a following run leaves the tallied `unknown` as it was. */
  lemma LoadErrorLeavesUnknown(path: string, env: Env, spec: SpecResult, tally: Counts)
    requires FetchAndParse(path, env).DecodeError? || FetchAndParse(path, env).NotFound?
    ensures var o := ValidateOutcome(path, env, spec);
      && o == Done(LoadErrorReport(Describe(path, FetchAndParse(path, env))), ZeroCounts, map["unkown" := 1])
      && AddCounts(tally, o.counts) == tally
  {
    var loaded := FetchAndParse(path, env);
    var o := ValidateOutcome(path, env, spec);
    assert o == Done(LoadErrorReport(Describe(path, loaded)), ZeroCounts, map["unkown" := 1]);
  }

  /** A document that is not a recognised collection reports only its path. */
  lemma UnrecognisedIsIgnored(path: string, env: Env, spec: SpecResult)
    requires FetchAndParse(path, env).Loaded? && !IsCollection(FetchAndParse(path, env).doc)
    ensures ValidateOutcome(path, env, spec) == Done(PathReport(path), ZeroCounts, map[])
  {
  }

  /** A schema that cannot be obtained escapes as an exception, only for a
      recognised document. */
  lemma SpecFailureEscapes(path: string, env: Env)
    requires Recognised(path, env)
    ensures ValidateOutcome(path, env, VersionError) == Fails(VersionException)
    ensures ValidateOutcome(path, env, Aborted) == Fails(SystemExit(1))
  {
  }

  /** Every completed outcome adds 1 to the collections counters exactly for
      a recognised document and never touches `unknown`. */
  lemma OutcomeCountsBounded(path: string, env: Env, spec: SpecResult)
    ensures var o := ValidateOutcome(path, env, spec);
      o.Done? ==>
        && NonNegative(o.counts)
        && o.counts.unknown == 0
        && o.counts.collectionsValid + o.counts.collectionsInvalid == (if Recognised(path, env) then 1 else 0)
  {
  }

  /** The validation result with the status object it creates. */
  datatype Validated = Validated(report: Report, status: Status) | Escaped(error: PyError)

  class EsmcatValidate {
    const esmcatVersion: string
    const esmcatFile: string
    const specDirs: Option<seq<string>>
    var memo: map<string, Json>      // the lru_cache of fetch_spec for this instance
    var message: seq<Report>
    var status: Status

    /** `__init__` without logging and the temporary directory. */
    constructor (esmcatFile: string, specDirs: SpecDirsArg, version: string)
      ensures this.esmcatFile == Strip(esmcatFile)
      ensures this.specDirs == CheckNone(specDirs)
      ensures esmcatVersion == version
      ensures memo == map[] && message == []
      ensures fresh(status) && status.Counters() == ZeroCounts && status.others == map[]
    {
      this.esmcatVersion := version;
      this.esmcatFile := Strip(esmcatFile);
      this.specDirs := CheckNone(specDirs);
      memo := map[];
      message := [];
      status := new Status();
    }

    /** `fetch_spec(name)`: a remembered schema is returned without any I/O;
      otherwise the schema is resolved and, when one is returned, remembered. */
    method FetchSpec(name: string, env: Env) returns (r: SpecResult)
      modifies this`memo
      ensures r == LookupSpec(old(memo), specDirs, name, esmcatVersion, env)
      ensures memo == Remember(old(memo), name, r)
    {
      if name in memo {
        r := Fetched(memo[name]);
        memo := memo[name := r.schema];
        return;
      }
      r := FetchSpecUncached(specDirs, name, esmcatVersion, env);
      if r.Fetched? {
        memo := memo[name := r.schema];
      }
    }

    /** `_validate(path)`, filling a fresh status step by step. */
    method Validate(path: string, env: Env) returns (r: Validated)
      modifies this`memo
      ensures var o := ValidateOutcome(path, env, LookupSpec(old(memo), specDirs, "collection", esmcatVersion, env));
        && (o.Fails? ==> r == Escaped(o.error))
        && (o.Done? ==>
              && r.Validated?
              && fresh(r.status)
              && r.report == o.report
              && r.status.Counters() == o.counts
              && r.status.others == o.stray)
      ensures Recognised(path, env) ==>
        memo == Remember(old(memo), "collection", LookupSpec(old(memo), specDirs, "collection", esmcatVersion, env))
      ensures !Recognised(path, env) ==> memo == old(memo)
    {
      var st := new Status();
      var loaded := FetchAndParse(path, env);
      if loaded.IoFailure? {
        return Escaped(IoError);
      }
      if loaded.DecodeError? || loaded.NotFound? {
        st.others := st.others["unkown" := 1];
        return Validated(LoadErrorReport(Describe(path, loaded)), st);
      }
      var doc := loaded.doc;
      if IsCollection(doc) {
        var spec := FetchSpec("collection", env);
        if spec.VersionError? {
          return Escaped(VersionException);
        }
        if spec.Aborted? {
          return Escaped(SystemExit(1));
        }
        var check := ValidateJson(env.schemaCheck(doc, spec.schema));
        if check.valid {
          st.collectionsValid := 1;
        } else {
          st.collectionsInvalid := 1;
        }
        return Validated(CollectionReport(check.valid, check.error, path), st);
      }
      return Validated(PathReport(path), st);
    }

    /** `run()`: one `_validate` of the input file, its counters folded into
      the same status object, and its message appended; an exception escaping
      `_validate` leaves messages and counters as they were. */
    method Run(env: Env) returns (r: Result<seq<Report>, PyError>)
      modifies this`memo, this`message, this`status, status
      ensures status == old(status)
      ensures Recognised(esmcatFile, env) ==>
        memo == Remember(old(memo), "collection", LookupSpec(old(memo), specDirs, "collection", esmcatVersion, env))
      ensures !Recognised(esmcatFile, env) ==> memo == old(memo)
      ensures var o := ValidateOutcome(esmcatFile, env, LookupSpec(old(memo), specDirs, "collection", esmcatVersion, env));
        && (o.Fails? ==>
              && r == Err(o.error)
              && message == old(message)
              && status.Counters() == old(status.Counters())
              && status.others == old(status.others))
        && (o.Done? ==>
              && r == Ok(message)
              && message == old(message) + [o.report]
              && status.Counters() == AddCounts(old(status.Counters()), o.counts)
              && status.others == old(status.others))
    {
      ghost var o := ValidateOutcome(esmcatFile, env, LookupSpec(memo, specDirs, "collection", esmcatVersion, env));
      var v := Validate(esmcatFile, env);
      if v.Escaped? {
        return Err(v.error);
      }
      assert o.Done? && v.status != status;
      status := Status.UpdateStatus(status, v.status);
      message := message + [v.report];
      return Ok(message);
    }
  }
}
