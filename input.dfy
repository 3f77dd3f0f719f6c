/**
 * The input normalisation of src/handlers/handleInput.ts: the `npm audit`
 * command line built from the options, the audit level chosen from the
 * option, the environment and a default, and the comma-separated option
 * lists. The npm version, the environment variable and the exception file
 * are read by the caller and passed in.
 */
module Input {
  import opened Base
  import opened Text
  import opened Types

  /** The command-line options; every one of them may be missing. */
  datatype CommandOptions = CommandOptions(
    production: Option<bool>,
    registry: Option<string>,
    level: Option<string>,
    exclude: Option<string>,
    json: Option<bool>,
    moduleIgnore: Option<string>,
    includeColumns: Option<string>)

  /** JavaScript truthiness of an optional flag. */
  predicate IsSet(b: Option<bool>)
  {
    b == Some(true)
  }

  /** JavaScript truthiness of an optional string. */
  predicate IsGiven(s: Option<string>)
  {
    s.Some? && s.value != ""
  }

  /** An npm version as a numeric triple. */
  datatype Version = Version(major: nat, minor: nat, patch: nat)

  /** Lexicographic order on versions. */
  predicate VersionLe(a: Version, b: Version)
  {
    a.major < b.major
    || (a.major == b.major && (a.minor < b.minor || (a.minor == b.minor && a.patch <= b.patch)))
  }

  /** The last npm release that still takes the old flag. */
  const LastProductionFlagVersion: Version := Version(8, 13, 2)

  /**
   * The flag that limits the audit to production dependencies: the old
   * `--production` up to npm 8.13.2, `--omit=dev` after it.
   */
  function ProductionOnlyOption(npmVersion: Version): (r: string)
    ensures r == "--production" <==> VersionLe(npmVersion, LastProductionFlagVersion)
    ensures r == "--production" || r == "--omit=dev"
  {
    if npmVersion.major < 8
       || (npmVersion.major == 8 && npmVersion.minor < 13)
       || (npmVersion.major == 8 && npmVersion.minor == 13 && npmVersion.patch <= 2)
    then "--production"
    else "--omit=dev"
  }

  /** The flag choice is monotone: an older npm never gets the newer flag when a newer one gets the old flag. */
  lemma ProductionFlagDownwardClosed(older: Version, newer: Version)
    requires VersionLe(older, newer)
    requires ProductionOnlyOption(newer) == "--production"
    ensures ProductionOnlyOption(older) == "--production"
  {
  }

  /**
   * `['npm audit', prod ? flag : '', registry ? '--registry=' + registry : '']`
   * with the empty entries dropped, joined by single spaces.
   */
  function AuditCommand(options: CommandOptions, npmVersion: Version): (r: string)
    ensures r == "npm audit"
                 + (if IsSet(options.production) then " " + ProductionOnlyOption(npmVersion) else "")
                 + (if IsGiven(options.registry) then " --registry=" + options.registry.value else "")
  {
    var productionFlag := if IsSet(options.production) then ProductionOnlyOption(npmVersion) else "";
    var registryFlag := if IsGiven(options.registry) then "--registry=" + options.registry.value else "";
    JoinPresent("npm audit", productionFlag, registryFlag, " ");
    RegistryFlagGlued(options.registry.GetOr(""));
    Join(NonEmpty(["npm audit", productionFlag, registryFlag]), " ")
  }

  /** The registry flag after its separating space. */
  lemma RegistryFlagGlued(url: string)
    ensures " " + ("--registry=" + url) == " --registry=" + url
  {
    assert " " + "--registry=" == " --registry=";
    AppendAssoc(" ", "--registry=", url);
  }

  /** Dropping the empty entries and joining leaves one glue before each later entry that is present. */
  lemma JoinPresent(first: string, second: string, third: string, glue: string)
    requires first != ""
    ensures Join(NonEmpty([first, second, third]), glue)
            == first
               + (if second != "" then glue + second else "")
               + (if third != "" then glue + third else "")
  {
    NonEmptyOfThree(first, second, third);
    if second != "" && third != "" {
      JoinOfThree(first, second, third, glue);
    } else if second != "" {
      JoinOfTwo(first, second, glue);
      assert [first] + [second] + [] == [first, second];
      assert first + (glue + second) + "" == first + (glue + second);
    } else if third != "" {
      JoinOfTwo(first, third, glue);
      assert [first] + [] + [third] == [first, third];
      assert first + "" + (glue + third) == first + (glue + third);
    } else {
      assert [first] + [] + [] == [first];
    }
  }

  lemma JoinOfTwo(a: string, b: string, glue: string)
    ensures Join([a, b], glue) == a + (glue + b)
  {
    assert [a, b][1..] == [b];
    AppendAssoc(a, glue, b);
  }

  lemma JoinOfThree(a: string, b: string, c: string, glue: string)
    ensures Join([a] + [b] + [c], glue) == a + (glue + b) + (glue + c)
  {
    var xs := [a] + [b] + [c];
    assert xs[1..] == [b, c];
    JoinOfTwo(b, c, glue);
    assert Join(xs, glue) == a + glue + (b + (glue + c));
    AppendAssoc(a, glue, b + (glue + c));
    AppendAssoc(glue, b, glue + c);
    AppendAssoc(a, glue + b, glue + c);
  }

  lemma NonEmptyOfThree(first: string, second: string, third: string)
    requires first != ""
    ensures NonEmpty([first, second, third])
            == [first] + (if second != "" then [second] else []) + (if third != "" then [third] else [])
  {
    var xs := [first, second, third];
    assert xs[1..] == [second, third];
    assert xs[1..][1..] == [third];
    assert xs[1..][1..][1..] == [];
    var tail := if third != "" then [third] else [];
    var mid := (if second != "" then [second] else []) + tail;
    assert NonEmpty(xs[1..][1..]) == tail;
    assert NonEmpty(xs[1..]) == mid;
    assert NonEmpty(xs) == [first] + mid;
  }

  /** Without `production` and `registry` the command is the bare audit. */
  lemma BareAuditCommand(options: CommandOptions, npmVersion: Version)
    requires !IsSet(options.production) && !IsGiven(options.registry)
    ensures AuditCommand(options, npmVersion) == "npm audit"
  {
  }

  /**
   * `get(options, 'level', envVar) || 'info'`: a level option that is
   * present is taken even when empty; only a missing one falls back to the
   * environment; an empty or missing result becomes `info`.
   */
  function AuditLevel(options: CommandOptions, envLevel: Option<string>): (r: string)
    ensures r != ""
    ensures IsGiven(options.level) ==> r == options.level.value
    ensures options.level == Some("") ==> r == "info"
    ensures options.level == None && IsGiven(envLevel) ==> r == envLevel.value
    ensures options.level == None && !IsGiven(envLevel) ==> r == "info"
  {
    var chosen := if options.level.Some? then options.level else envLevel;
    if IsGiven(chosen) then chosen.value else "info"
  }

  /** `map((e) => e.trim())`: every piece trimmed. */
  function TrimAll(xs: seq<string>): seq<string>
  {
    seq(|xs|, i requires 0 <= i < |xs| => Trim(xs[i]))
  }

  /**
   * `get(options, key, '').split(',').map((e) => e.trim()).filter(...)`:
   * the trimmed comma pieces of the option with the empty ones dropped, in
   * their order.
   */
  function ParseCommaList(option: Option<string>): (r: seq<string>)
    ensures forall x :: x in r ==> x != "" && IsTrimmed(x) && ',' !in x
    ensures forall x :: x in r <==> x in TrimAll(Split(option.GetOr(""), ',')) && x != ""
    ensures IsSubsequence(r, TrimAll(Split(option.GetOr(""), ',')))
    ensures multiset(r) == multiset(TrimAll(Split(option.GetOr(""), ',')))["" := 0]
  {
    var trimmed := TrimAll(Split(option.GetOr(""), ','));
    TrimmedPieces(Split(option.GetOr(""), ','));
    NonEmptyFilters(trimmed);
    NonEmpty(trimmed)
  }

  /** Trimmed comma-free pieces are trimmed and comma-free. */
  lemma TrimmedPieces(pieces: seq<string>)
    requires forall i :: 0 <= i < |pieces| ==> ',' !in pieces[i]
    ensures forall x :: x in TrimAll(pieces) ==> IsTrimmed(x) && ',' !in x
  {
    var trimmed := TrimAll(pieces);
    forall i | 0 <= i < |trimmed|
      ensures ',' !in trimmed[i]
    {
      StripAddsNothing(pieces[i], Whitespace, ',');
    }
  }

  /** A missing list option gives the empty list. */
  lemma MissingListIsEmpty()
    ensures ParseCommaList(None) == []
  {
    assert Split("", ',') == [""];
    assert TrimAll([""]) == [Trim("")];
  }

  /** Items that are non-empty, trimmed and free of commas survive a join and a parse unchanged. */
  lemma {:induction false} ParseJoinedList(items: seq<string>)
    requires forall i :: 0 <= i < |items| ==> items[i] != "" && IsTrimmed(items[i]) && ',' !in items[i]
    ensures ParseCommaList(Some(Join(items, ","))) == items
  {
    if |items| == 0 {
      MissingListIsEmpty();
    } else {
      SplitJoin(items, ',');
      TrimAllTrimmed(items);
      NonEmptyKeepsAll(items);
    }
  }

  lemma {:induction false} TrimAllTrimmed(xs: seq<string>)
    requires forall i :: 0 <= i < |xs| ==> IsTrimmed(xs[i])
    ensures TrimAll(xs) == xs
  {
    forall i | 0 <= i < |xs|
      ensures TrimAll(xs)[i] == xs[i]
    {
      TrimTrimmed(xs[i]);
    }
  }

  /**
   * `get(options, 'moduleIgnore', '').split(',')`: split only, nothing
   * trimmed or dropped, so a missing option gives one empty name.
   */
  function ModuleIgnoreList(option: Option<string>): (r: seq<string>)
    ensures |r| >= 1
    ensures forall i :: 0 <= i < |r| ==> ',' !in r[i]
    ensures Join(r, ",") == option.GetOr("")
    ensures option.None? ==> r == [""]
  {
    JoinSplit(option.GetOr(""), ',');
    Split(option.GetOr(""), ',')
  }

  /** What the exception processing returns: the excepted IDs and the exception report rows. */
  datatype ProcessedReport = ProcessedReport(exceptionIds: seq<string>, report: Report)

  /** The arguments handed to the callback, in its parameter order. */
  datatype CallbackArgs = CallbackArgs(
    auditCommand: string,
    auditLevel: string,
    exceptionIds: seq<string>,
    modulesToIgnore: seq<string>,
    columnsToInclude: seq<string>,
    outputJson: bool,
    exceptionsReport: Report)

  /**
   * `handleInput(options, fn)`: the one call made to `fn`. The npm version,
   * the environment's audit level and the exception processing over the
   * `.nsprc` file are parameters; the latter receives the parsed exclude
   * list and the JSON flag.
   */
  function HandleInput(
    options: CommandOptions,
    npmVersion: Version,
    envLevel: Option<string>,
    processExceptions: (seq<string>, bool) -> ProcessedReport): (r: CallbackArgs)
    ensures r.auditCommand == AuditCommand(options, npmVersion)
    ensures r.auditLevel == AuditLevel(options, envLevel)
    ensures r.outputJson == options.json.GetOr(false)
    ensures r.exceptionIds == processExceptions(ParseCommaList(options.exclude), r.outputJson).exceptionIds
    ensures r.exceptionsReport == processExceptions(ParseCommaList(options.exclude), r.outputJson).report
    ensures r.modulesToIgnore == ModuleIgnoreList(options.moduleIgnore)
    ensures r.columnsToInclude == ParseCommaList(options.includeColumns)
  {
    var cmdExceptions := ParseCommaList(options.exclude);
    var outputJson := options.json.GetOr(false);
    var processed := processExceptions(cmdExceptions, outputJson);
    CallbackArgs(
      AuditCommand(options, npmVersion),
      AuditLevel(options, envLevel),
      processed.exceptionIds,
      ModuleIgnoreList(options.moduleIgnore),
      ParseCommaList(options.includeColumns),
      outputJson,
      processed.report)
  }
}
