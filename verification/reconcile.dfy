/** The translation validator's run: list the locale directory, flatten the base
    locale `en` and every other locale, diff their keys, report, and decide the
    exit code (`validateTranslations` and the top-level `try`/`catch`). */
module Reconcile {
  import opened Optional
  import opened Text
  import opened Flatten

  /** The locale every other locale is checked against. */
  const BaseLocale: string := "en"
  /** Only directory entries with this suffix are locale files. */
  const JsonExtension: string := ".json"
  /** How many missing or extra keys the report names before summarising the rest. */
  const ListedKeys: nat := 5

  /** `en.json`. */
  function BaseFile(): string {
    BaseLocale + JsonExtension
  }

  /** One entry of the locales directory. `parsed` is the result of `JSON.parse` on
      its text: `None` when parsing throws. It is consulted only for `.json` files. */
  datatype LocaleFile = LocaleFile(name: string, parsed: Option<Document>)

  predicate EndsWith(s: string, suffix: string) {
    |suffix| <= |s| && s[|s| - |suffix|..] == suffix
  }

  /** `readdirSync(...).filter(file => file.endsWith('.json'))`, order kept. */
  function JsonFiles(listing: seq<LocaleFile>): (files: seq<LocaleFile>)
    ensures forall f :: f in files <==> f in listing && EndsWith(f.name, JsonExtension)
  {
    if listing == [] then []
    else (if EndsWith(listing[0].name, JsonExtension) then [listing[0]] else []) + JsonFiles(listing[1..])
  }

  /** The filter keeps the listing's order: it distributes over concatenation and
      keeps or drops each single entry by its suffix. */
  lemma {:induction false} JsonFilesAppend(a: seq<LocaleFile>, b: seq<LocaleFile>)
    ensures JsonFiles(a + b) == JsonFiles(a) + JsonFiles(b)
    ensures |a| == 1 ==> JsonFiles(a) == (if EndsWith(a[0].name, JsonExtension) then a else [])
    decreases |a|
  {
    if a == [] {
      assert a + b == b;
    } else {
      assert (a + b)[0] == a[0] && (a + b)[1..] == a[1..] + b;
      JsonFilesAppend(a[1..], b);
      if |a| == 1 {
        assert a[1..] == [];
      }
    }
  }

  /** The files the loop compares: every file except the base file, order kept. */
  function Others(files: seq<LocaleFile>): (others: seq<LocaleFile>)
  {
    if files == [] then []
    else (if files[0].name != BaseFile() then [files[0]] else []) + Others(files[1..])
  }

  /** The base file is never among the files compared; every other file is. */
  lemma {:induction false} OthersMembers(files: seq<LocaleFile>)
    ensures forall f :: f in Others(files) <==> f in files && f.name != BaseFile()
  {
    if files != [] {
      OthersMembers(files[1..]);
      assert files == [files[0]] + files[1..];
    }
  }

  lemma {:induction false} OthersAppend(a: seq<LocaleFile>, b: seq<LocaleFile>)
    ensures Others(a + b) == Others(a) + Others(b)
    decreases a
  {
    if a == [] {
      assert a + b == b;
    } else {
      assert (a + b)[0] == a[0] && (a + b)[1..] == a[1..] + b;
      OthersAppend(a[1..], b);
    }
  }

  /** The first file called `name`, which `readFileSync` opens for the base. */
  function Find(files: seq<LocaleFile>, name: string): (r: Option<LocaleFile>)
    ensures r.Some? <==> exists f :: f in files && f.name == name
    ensures r.Some? ==> r.value in files && r.value.name == name
  {
    if files == [] then None
    else if files[0].name == name then Some(files[0])
    else Find(files[1..], name)
  }

  // ---------------------------------------------------------------------------
  // Locale identifiers
  // ---------------------------------------------------------------------------

  predicate OccursAt(s: string, pat: string, i: nat) {
    i + |pat| <= |s| && s[i..i + |pat|] == pat
  }

  /** Position of the first occurrence of `pat` in `s` at or after `from`. */
  function IndexOf(s: string, pat: string, from: nat): (r: Option<nat>)
    ensures r.Some? ==> from <= r.value && OccursAt(s, pat, r.value)
    ensures forall j: nat :: from <= j && (r.None? || j < r.value) ==> !OccursAt(s, pat, j)
    decreases |s| - from
  {
    if from + |pat| > |s| then None
    else if OccursAt(s, pat, from) then Some(from)
    else IndexOf(s, pat, from + 1)
  }

  /** `file.replace('.json', '')`: only the FIRST occurrence is removed. */
  function LocaleId(file: string): string {
    match IndexOf(file, JsonExtension, 0)
    case None => file
    case Some(m) => file[..m] + file[m + |JsonExtension|..]
  }

  /** A name whose only `.json` is its suffix loses exactly that suffix. */
  lemma LocaleIdStripsExtension(id: string)
    requires forall j: nat :: j < |id| ==> !OccursAt(id + JsonExtension, JsonExtension, j)
    ensures LocaleId(id + JsonExtension) == id
  {
    var file := id + JsonExtension;
    assert OccursAt(file, JsonExtension, |id|);
    var m := IndexOf(file, JsonExtension, 0);
    assert m == Some(|id|);
    assert file[..|id|] == id;
  }

  /** A `.json` earlier in the name is the one removed. */
  lemma LocaleIdRemovesFirstOccurrence()
    ensures LocaleId("a.json.json") == "a.json"
  {
    var file := "a.json.json";
    assert OccursAt(file, JsonExtension, 1);
    assert file[0] != JsonExtension[0];
    assert !OccursAt(file, JsonExtension, 0);
    assert IndexOf(file, JsonExtension, 0) == Some(1);
    assert file[..1] + file[6..] == "a.json";
  }

  // ---------------------------------------------------------------------------
  // One locale against the base
  // ---------------------------------------------------------------------------

  /** The array `getAllKeys(content)` of a whole document. */
  function Keys(doc: Document): seq<string> {
    GetAllKeys(doc, "")
  }

  /** The distinct keys of a document. */
  function KeySet(doc: Document): set<string> {
    set k | k in Keys(doc)
  }

  /** `getAllKeys(content).sort()`. */
  function SortedKeys(doc: Document): (keys: seq<string>)
    ensures Sorted(keys)
    ensures multiset(keys) == multiset(Keys(doc))
    ensures forall k :: k in keys <==> k in Keys(doc)
    ensures |keys| == |Keys(doc)|
  {
    var keys := Sort(Keys(doc));
    assert forall k :: k in keys <==> k in multiset(Keys(doc));
    assert |multiset(keys)| == |keys| && |multiset(Keys(doc))| == |Keys(doc)|;
    keys
  }

  /** `(keys.length / baseKeys.length) * 100` as an exact ratio; a zero
      denominator gives `Infinity`, or `NaN` when the numerator is zero too. */
  datatype Coverage = Percent(numerator: nat, denominator: nat) | Infinity | NaN

  function CoverageOf(localeKeys: nat, baseKeys: nat): (c: Coverage)
    ensures c.Percent? <==> baseKeys > 0
    ensures c.Percent? ==> c.numerator == 100 * localeKeys && c.denominator == baseKeys
    ensures c.NaN? <==> baseKeys == 0 && localeKeys == 0
  {
    if baseKeys > 0 then Percent(100 * localeKeys, baseKeys)
    else if localeKeys > 0 then Infinity
    else NaN
  }

  /** One entry of `results`. */
  datatype LocaleReport = LocaleReport(
    locale: string,
    totalKeys: nat,
    missingKeys: seq<string>,
    extraKeys: seq<string>,
    coverage: Coverage)

  /** The loop body for one non-base locale. */
  function CompareLocale(locale: string, base: Document, content: Document): (r: LocaleReport)
    ensures r.locale == locale
    ensures r.totalKeys == |Keys(content)|
    ensures Sorted(r.missingKeys) && Sorted(r.extraKeys)
    ensures forall k :: k in r.missingKeys <==> k in Keys(base) && k !in Keys(content)
    ensures forall k :: k in r.extraKeys <==> k in Keys(content) && k !in Keys(base)
    ensures r.coverage == CoverageOf(|Keys(content)|, |Keys(base)|)
  {
    var baseKeys := SortedKeys(base);
    var keys := SortedKeys(content);
    LocaleReport(locale, |keys|, Without(baseKeys, keys), Without(keys, baseKeys),
                 CoverageOf(|keys|, |baseKeys|))
  }

  /** The listings keep repeated keys: a base key the locale lacks is missing as
      many times as the base holds it, and likewise for extra keys, so the printed
      counts include repeats. */
  lemma CompareLocaleCounts(locale: string, base: Document, content: Document)
    ensures var r := CompareLocale(locale, base, content);
      && (forall k :: multiset(r.missingKeys)[k] == if k in Keys(content) then 0 else multiset(Keys(base))[k])
      && (forall k :: multiset(r.extraKeys)[k] == if k in Keys(base) then 0 else multiset(Keys(content))[k])
  {
    var baseKeys, keys := SortedKeys(base), SortedKeys(content);
    WithoutKeepsRepeats(baseKeys, keys);
    WithoutKeepsRepeats(keys, baseKeys);
  }

  /** The missing and extra keys split the two key sets: no key is both, each
      base key is in the locale or missing, each locale key is in the base or extra. */
  lemma MissingExtraPartition(locale: string, base: Document, content: Document)
    ensures var r := CompareLocale(locale, base, content);
      && (forall k :: !(k in r.missingKeys && k in r.extraKeys))
      && KeySet(base) == (KeySet(base) * KeySet(content)) + (set k | k in r.missingKeys)
      && KeySet(content) == (KeySet(base) * KeySet(content)) + (set k | k in r.extraKeys)
  {
  }

  datatype Status = Ok | Errors

  /** `✅ OK` when nothing is missing or extra, `❌ ERRORS` otherwise. */
  function StatusOf(r: LocaleReport): (s: Status)
    ensures s == Ok <==> |r.missingKeys| == 0 && |r.extraKeys| == 0
  {
    if r.missingKeys == [] && r.extraKeys == [] then Ok else Errors
  }

  /** A locale is OK exactly when it has the base's set of keys. */
  lemma StatusOkIffSameKeySet(locale: string, base: Document, content: Document)
    ensures StatusOf(CompareLocale(locale, base, content)) == Ok <==> KeySet(base) == KeySet(content)
  {
    var r := CompareLocale(locale, base, content);
    if KeySet(base) == KeySet(content) {
      assert forall k :: k in KeySet(base) <==> k in Keys(base);
      assert forall k :: k in KeySet(content) <==> k in Keys(content);
    }
  }

  predicate NoRepeats(s: seq<string>) {
    forall i, j :: 0 <= i < j < |s| ==> s[i] != s[j]
  }

  lemma {:induction false} DistinctCardinality(s: seq<string>)
    requires NoRepeats(s)
    ensures |set k | k in s| == |s|
  {
    if s != [] {
      DistinctCardinality(s[1..]);
      assert (set k | k in s) == {s[0]} + (set k | k in s[1..]);
      assert s[0] !in (set k | k in s[1..]);
    }
  }

  /** With no repeated keys on either side, an OK locale has coverage exactly 100%. */
  lemma FullCoverageWhenOk(locale: string, base: Document, content: Document)
    requires StatusOf(CompareLocale(locale, base, content)) == Ok
    requires NoRepeats(Keys(base)) && NoRepeats(Keys(content))
    requires Keys(base) != []
    ensures CompareLocale(locale, base, content).coverage == Percent(100 * |Keys(base)|, |Keys(base)|)
  {
    StatusOkIffSameKeySet(locale, base, content);
    DistinctCardinality(Keys(base));
    DistinctCardinality(Keys(content));
  }

  /** Without that proviso the two disagree: the base's dotted key collides with its
      nested path, so it counts two keys, and a locale holding one of them is OK at 50%. */
  lemma OkAtHalfCoverage()
    ensures var base := [Entry("a.b", Leaf), Entry("a", Obj([Entry("b", Leaf)]))];
      var content := [Entry("a.b", Leaf)];
      var r := CompareLocale("hi", base, content);
      StatusOf(r) == Ok && r.coverage == Percent(100, 2)
  {
    var base := [Entry("a.b", Leaf), Entry("a", Obj([Entry("b", Leaf)]))];
    var content := [Entry("a.b", Leaf)];
    DottedKeyCollides();
    assert Keys(base) == ["a.b", "a.b"];
    assert content[1..] == [];
    assert Keys(content) == ["a.b"];
    StatusOkIffSameKeySet("hi", base, content);
  }

  // ---------------------------------------------------------------------------
  // The run
  // ---------------------------------------------------------------------------

  /** The reports of the non-base locales in order, or the first file whose
      `JSON.parse` throws (which aborts the run). */
  datatype Compared = Compared(reports: seq<LocaleReport>) | Unparsable(file: string)

  predicate AllParsed(files: seq<LocaleFile>) {
    forall i :: 0 <= i < |files| ==> files[i].parsed.Some?
  }

  /** The name of the first file whose `JSON.parse` throws, if any. */
  function FirstUnparsable(others: seq<LocaleFile>): (r: Option<string>)
    ensures r.None? <==> AllParsed(others)
  {
    if others == [] then None
    else if others[0].parsed.None? then Some(others[0].name)
    else
      assert forall i :: 1 <= i < |others| ==> others[i] == others[1..][i - 1];
      FirstUnparsable(others[1..])
  }

  /** `xs.map(f)`. */
  function Map<A, B>(f: A -> B, xs: seq<A>): seq<B> {
    seq(|xs|, i requires 0 <= i < |xs| => f(xs[i]))
  }

  lemma MapAppend<A, B>(f: A -> B, a: seq<A>, b: seq<A>)
    ensures Map(f, a + b) == Map(f, a) + Map(f, b)
  {
    assert forall i :: 0 <= i < |a + b| ==> (a + b)[i] == if i < |a| then a[i] else b[i - |a|];
  }

  /** The loop body's comparison of one file with the base. The empty document
      stands in for a file that does not parse, which the run never compares. */
  function Reporter(base: Document): LocaleFile -> LocaleReport {
    (f: LocaleFile) => CompareLocale(LocaleId(f.name), base, if f.parsed.Some? then f.parsed.value else [])
  }

  function CompareAll(others: seq<LocaleFile>, base: Document): (c: Compared)
    ensures c.Compared? <==> AllParsed(others)
    ensures c.Compared? ==> |c.reports| == |others|
  {
    match FirstUnparsable(others)
    case Some(f) => Unparsable(f)
    case None => Compared(Map(Reporter(base), others))
  }

  /** Report `i` is the comparison of file `i` with the base. */
  lemma CompareAllReport(others: seq<LocaleFile>, base: Document, i: nat)
    requires AllParsed(others) && i < |others|
    ensures CompareAll(others, base).reports[i] ==
      CompareLocale(LocaleId(others[i].name), base, others[i].parsed.value)
  {
  }

  /** A run that meets an unparsable file names the first one. */
  lemma {:induction false} CompareAllFirstFailure(others: seq<LocaleFile>, base: Document)
    requires !AllParsed(others)
    ensures exists i :: (0 <= i < |others| && others[i].parsed.None? &&
      CompareAll(others, base).file == others[i].name &&
      forall j :: 0 <= j < i ==> others[j].parsed.Some?)
    decreases |others|
  {
    if others[0].parsed.Some? {
      assert forall i :: 1 <= i < |others| ==> others[i] == others[1..][i - 1];
      CompareAllFirstFailure(others[1..], base);
      var i :| 0 <= i < |others[1..]| && others[1..][i].parsed.None? &&
        CompareAll(others[1..], base).file == others[1..][i].name &&
        forall j :: 0 <= j < i ==> others[1..][j].parsed.Some?;
      assert others[i + 1] == others[1..][i];
    }
  }

  /** Parsed files in front change nothing about which file fails first. */
  lemma {:induction false} FirstUnparsableAppend(a: seq<LocaleFile>, b: seq<LocaleFile>)
    requires AllParsed(a)
    ensures FirstUnparsable(a + b) == FirstUnparsable(b)
    decreases |a|
  {
    if a == [] {
      assert a + b == b;
    } else {
      assert (a + b)[0] == a[0] && (a + b)[1..] == a[1..] + b;
      assert AllParsed(a[1..]) by {
        assert forall i :: 1 <= i < |a| ==> a[i] == a[1..][i - 1];
      }
      FirstUnparsableAppend(a[1..], b);
    }
  }

  /** Comparing parsed files followed by more files: a failure comes from the
      later files, and otherwise the reports are concatenated. */
  lemma CompareAllAppend(a: seq<LocaleFile>, b: seq<LocaleFile>, base: Document)
    requires AllParsed(a)
    ensures CompareAll(a + b, base).Unparsable? <==> CompareAll(b, base).Unparsable?
    ensures CompareAll(b, base).Unparsable? ==> CompareAll(a + b, base).file == CompareAll(b, base).file
    ensures CompareAll(b, base).Compared? ==>
      CompareAll(a + b, base).reports == CompareAll(a, base).reports + CompareAll(b, base).reports
  {
    FirstUnparsableAppend(a, b);
    MapAppend(Reporter(base), a, b);
  }

  /** Whether some locale has missing or extra keys (`hasErrors`). */
  function AnyErrors(reports: seq<LocaleReport>): (b: bool)
    ensures b <==> exists i :: 0 <= i < |reports| && StatusOf(reports[i]) == Errors
  {
    if reports == [] then false
    else
      assert forall i :: 1 <= i < |reports| ==> reports[i] == reports[1..][i - 1];
      StatusOf(reports[0]) == Errors || AnyErrors(reports[1..])
  }

  lemma AnyErrorsSnoc(reports: seq<LocaleReport>, r: LocaleReport)
    ensures AnyErrors(reports + [r]) == (AnyErrors(reports) || StatusOf(r) == Errors)
  {
    assert (reports + [r])[|reports|] == r;
    assert forall i :: 0 <= i < |reports| ==> (reports + [r])[i] == reports[i];
  }

  /** How a run ends. The first four are the fatal paths, which print no report. */
  datatype Run =
    | UnreadableDirectory
    | NoFiles
    | NoBase
    | ParseError(file: string)
    | Report(baseKeyCount: nat, results: seq<LocaleReport>, hasErrors: bool)

  /** The whole run on a directory listing (`None` when `readdirSync` throws). */
  function Validate(listing: Option<seq<LocaleFile>>): (run: Run)
    ensures run.UnreadableDirectory? <==> listing.None?
    ensures run.NoFiles? <==> listing.Some? && JsonFiles(listing.value) == []
    ensures run.NoBase? <==>
      (listing.Some? && JsonFiles(listing.value) != [] &&
       forall f :: f in JsonFiles(listing.value) ==> f.name != BaseFile())
    ensures run.Report? ==> run.hasErrors == AnyErrors(run.results)
  {
    match listing
    case None => UnreadableDirectory
    case Some(entries) =>
      var files := JsonFiles(entries);
      if files == [] then NoFiles
      else match Find(files, BaseFile())
        case None => NoBase
        case Some(baseFile) =>
          match baseFile.parsed
          case None => ParseError(baseFile.name)
          case Some(base) =>
            match CompareAll(Others(files), base)
            case Unparsable(f) => ParseError(f)
            case Compared(results) => Report(|Keys(base)|, results, AnyErrors(results))
  }

  /** The base file. */
  function BaseOf(listing: seq<LocaleFile>): Option<LocaleFile> {
    Find(JsonFiles(listing), BaseFile())
  }

  /** A report holds one result per `.json` file other than `en.json`, in listing
      order, each the comparison of that file with the base: the base is never
      compared with itself. */
  lemma ReportCoversOtherLocales(listing: Option<seq<LocaleFile>>, i: nat)
    requires Validate(listing).Report?
    ensures listing.Some? && BaseOf(listing.value).Some? && BaseOf(listing.value).value.parsed.Some?
    ensures var others := Others(JsonFiles(listing.value));
      var base := BaseOf(listing.value).value.parsed.value;
      && Validate(listing).baseKeyCount == |Keys(base)|
      && |Validate(listing).results| == |others|
      && (i < |others| ==>
            && others[i].name != BaseFile()
            && Validate(listing).results[i] ==
                 CompareLocale(LocaleId(others[i].name), base, others[i].parsed.value))
  {
    var others := Others(JsonFiles(listing.value));
    var base := BaseOf(listing.value).value.parsed.value;
    if i < |others| {
      OthersMembers(JsonFiles(listing.value));
      assert others[i] in others;
      CompareAllReport(others, base, i);
    }
  }

  /** `process.exit`: 0 only for a report without errors. */
  function ExitCode(run: Run): (code: nat)
    ensures code <= 1
    ensures code == 0 <==> run.Report? && !run.hasErrors
  {
    if run.Report? && !run.hasErrors then 0 else 1
  }

  /** The run reaches its report exactly when the directory is readable, holds
      a parsable `en.json`, and every other `.json` file parses. */
  lemma ReportReached(listing: Option<seq<LocaleFile>>)
    ensures Validate(listing).Report? <==>
      (&& listing.Some?
       && BaseOf(listing.value).Some?
       && BaseOf(listing.value).value.parsed.Some?
       && AllParsed(Others(JsonFiles(listing.value))))
  {
    if listing.Some? && BaseOf(listing.value).Some? {
      assert BaseOf(listing.value).value in JsonFiles(listing.value);
    }
  }

  /** The run exits 0 exactly when the directory lists a parsable base file and
      every other `.json` file parses to a document with the base's key set. */
  lemma ExitCodeZeroIff(listing: Option<seq<LocaleFile>>)
    ensures ExitCode(Validate(listing)) == 0 <==>
      (&& listing.Some?
       && BaseOf(listing.value).Some?
       && BaseOf(listing.value).value.parsed.Some?
       && forall f :: f in Others(JsonFiles(listing.value)) ==>
            f.parsed.Some? && KeySet(f.parsed.value) == KeySet(BaseOf(listing.value).value.parsed.value))
  {
    ReportReached(listing);
    if listing.Some? && BaseOf(listing.value).Some? && BaseOf(listing.value).value.parsed.Some? {
      var others := Others(JsonFiles(listing.value));
      var b := BaseOf(listing.value).value.parsed.value;
      if forall f :: f in others ==> f.parsed.Some? && KeySet(f.parsed.value) == KeySet(b) {
        assert AllParsed(others) by {
          assert forall i :: 0 <= i < |others| ==> others[i] in others;
        }
        AllSameKeysExitZero(listing);
      }
      if ExitCode(Validate(listing)) == 0 {
        ExitZeroAllSameKeys(listing);
      }
    }
  }

  lemma AllSameKeysExitZero(listing: Option<seq<LocaleFile>>)
    requires Validate(listing).Report?
    requires forall f :: f in Others(JsonFiles(listing.value)) ==>
      f.parsed.Some? && KeySet(f.parsed.value) == KeySet(BaseOf(listing.value).value.parsed.value)
    ensures ExitCode(Validate(listing)) == 0
  {
    var run := Validate(listing);
    ReportCoversOtherLocales(listing, 0);
    var others := Others(JsonFiles(listing.value));
    var b := BaseOf(listing.value).value.parsed.value;
    forall i | 0 <= i < |run.results| ensures StatusOf(run.results[i]) == Ok {
      ReportCoversOtherLocales(listing, i);
      assert others[i] in others;
      StatusOkIffSameKeySet(LocaleId(others[i].name), b, others[i].parsed.value);
    }
  }

  lemma ExitZeroAllSameKeys(listing: Option<seq<LocaleFile>>)
    requires ExitCode(Validate(listing)) == 0
    ensures listing.Some? && BaseOf(listing.value).Some? && BaseOf(listing.value).value.parsed.Some?
    ensures forall f :: f in Others(JsonFiles(listing.value)) ==>
      f.parsed.Some? && KeySet(f.parsed.value) == KeySet(BaseOf(listing.value).value.parsed.value)
  {
    var run := Validate(listing);
    ReportCoversOtherLocales(listing, 0);
    var others := Others(JsonFiles(listing.value));
    var b := BaseOf(listing.value).value.parsed.value;
    ReportReached(listing);
    forall f | f in others ensures f.parsed.Some? && KeySet(f.parsed.value) == KeySet(b) {
      var i :| 0 <= i < |others| && others[i] == f;
      ReportCoversOtherLocales(listing, i);
      StatusOkIffSameKeySet(LocaleId(f.name), b, f.parsed.value);
    }
  }

  /** `process.exit(1)` for each fatal path, before any report. */
  lemma FatalRunsExitOne(listing: Option<seq<LocaleFile>>)
    requires !Validate(listing).Report?
    ensures ExitCode(Validate(listing)) == 1
  {
  }

  // ---------------------------------------------------------------------------
  // The printed report
  // ---------------------------------------------------------------------------

  /** The keys listed under a locale: the first five, then `... and n more`. */
  datatype KeyListing = KeyListing(count: nat, shown: seq<string>, more: Option<nat>)

  function Truncate(keys: seq<string>): (l: KeyListing)
    ensures l.count == |keys|
    ensures |l.shown| <= ListedKeys && |l.shown| <= |keys| && l.shown == keys[..|l.shown|]
    ensures |keys| <= ListedKeys ==> l.shown == keys
    ensures l.more.Some? <==> |keys| > ListedKeys
    ensures l.more.Some? ==> |l.shown| + l.more.value == |keys|
    ensures |l.shown| == if |keys| > ListedKeys then ListedKeys else |keys|
    ensures l.more.Some? ==> l.more.value == |keys| - ListedKeys
  {
    if |keys| > ListedKeys then KeyListing(|keys|, keys[..ListedKeys], Some(|keys| - ListedKeys))
    else KeyListing(|keys|, keys, None)
  }

  /** One locale's block of the table: its row, then the missing and the extra
      keys, each block present only when non-empty. */
  datatype Row = Row(
    locale: string,
    totalKeys: nat,
    coverage: Coverage,
    status: Status,
    missing: Option<KeyListing>,
    extra: Option<KeyListing>)

  function RowOf(r: LocaleReport): (row: Row)
    ensures row.locale == r.locale && row.totalKeys == r.totalKeys && row.coverage == r.coverage
    ensures row.status == StatusOf(r)
    ensures row.missing.Some? <==> r.missingKeys != []
    ensures row.extra.Some? <==> r.extraKeys != []
    ensures row.status == Ok <==> row.missing.None? && row.extra.None?
    ensures row.missing.Some? ==> row.missing.value == Truncate(r.missingKeys)
    ensures row.extra.Some? ==> row.extra.value == Truncate(r.extraKeys)
  {
    Row(r.locale, r.totalKeys, r.coverage, StatusOf(r),
        if r.missingKeys != [] then Some(Truncate(r.missingKeys)) else None,
        if r.extraKeys != [] then Some(Truncate(r.extraKeys)) else None)
  }

  /** The closing summary. */
  datatype Summary = Summary(total: nat, valid: nat, withErrors: nat)

  function CountOk(reports: seq<LocaleReport>): (n: nat)
    ensures n <= |reports|
    ensures n == |reports| <==> forall i :: 0 <= i < |reports| ==> StatusOf(reports[i]) == Ok
  {
    if reports == [] then 0
    else
      assert forall i :: 1 <= i < |reports| ==> reports[i] == reports[1..][i - 1];
      (if StatusOf(reports[0]) == Ok then 1 else 0) + CountOk(reports[1..])
  }

  /** The positions of the OK reports. */
  function OkPositions(reports: seq<LocaleReport>): set<nat> {
    set i: nat | i < |reports| && StatusOf(reports[i]) == Ok
  }

  lemma {:induction false} CountOkSnoc(reports: seq<LocaleReport>, r: LocaleReport)
    ensures CountOk(reports + [r]) == CountOk(reports) + (if StatusOf(r) == Ok then 1 else 0)
    decreases |reports|
  {
    if reports == [] {
      assert reports + [r] == [r] && [r][1..] == [];
    } else {
      assert (reports + [r])[0] == reports[0] && (reports + [r])[1..] == reports[1..] + [r];
      CountOkSnoc(reports[1..], r);
    }
  }

  /** One more report adds its position when it is OK. */
  lemma OkPositionsSnoc(front: seq<LocaleReport>, last: LocaleReport)
    ensures OkPositions(front + [last]) ==
      OkPositions(front) + (if StatusOf(last) == Ok then {|front|} else {})
  {
    var all := front + [last];
    assert forall i :: 0 <= i < |front| ==> all[i] == front[i];
    assert all[|front|] == last;
  }

  /** `results.filter(r => ...).length`: the valid count is the number of reports
      whose status is OK. */
  lemma {:induction false} CountOkIsValidCount(reports: seq<LocaleReport>)
    ensures CountOk(reports) == |OkPositions(reports)|
    decreases |reports|
  {
    if reports == [] {
      assert OkPositions(reports) == {};
    } else {
      var front, last := reports[..|reports| - 1], reports[|reports| - 1];
      assert reports == front + [last];
      CountOkSnoc(front, last);
      CountOkIsValidCount(front);
      OkPositionsSnoc(front, last);
      assert |front| !in OkPositions(front);
    }
  }

  function Summarize(reports: seq<LocaleReport>): (s: Summary)
    ensures s.total == |reports| && s.valid + s.withErrors == s.total
    ensures s.valid == |OkPositions(reports)|
    ensures s.withErrors == 0 <==> !AnyErrors(reports)
  {
    CountOkIsValidCount(reports);
    var valid := CountOk(reports);
    Summary(|reports|, valid, |reports| - valid)
  }

  // ---------------------------------------------------------------------------
  // The loop as written
  // ---------------------------------------------------------------------------

  /** One more file seen by the loop: the base file is skipped... */
  lemma LoopSkip(files: seq<LocaleFile>, i: nat, base: Document)
    requires i < |files| && files[i].name == BaseFile()
    requires AllParsed(Others(files[..i]))
    ensures CompareAll(Others(files[..i + 1]), base) == CompareAll(Others(files[..i]), base)
  {
    assert files[..i + 1] == files[..i] + [files[i]];
    OthersAppend(files[..i], [files[i]]);
    assert Others([files[i]]) == [];
    assert Others(files[..i]) + [] == Others(files[..i]);
  }

  /** The non-base files of a prefix grow by one non-base file at a time. */
  lemma OthersSnoc(files: seq<LocaleFile>, i: nat)
    requires i < |files| && files[i].name != BaseFile()
    ensures Others(files[..i + 1]) == Others(files[..i]) + [files[i]]
  {
    assert files[..i + 1] == files[..i] + [files[i]];
    OthersAppend(files[..i], [files[i]]);
    assert Others([files[i]]) == [files[i]];
  }

  /** Comparing one more parsed file appends its report. */
  lemma CompareAllSnoc(others: seq<LocaleFile>, file: LocaleFile, base: Document, results: seq<LocaleReport>)
    requires file.parsed.Some? && CompareAll(others, base) == Compared(results)
    ensures CompareAll(others + [file], base) ==
      Compared(results + [CompareLocale(LocaleId(file.name), base, file.parsed.value)])
  {
    assert CompareAll([file], base) == Compared([CompareLocale(LocaleId(file.name), base, file.parsed.value)]) by {
      assert [file][1..] == [];
    }
    CompareAllAppend(others, [file], base);
  }

  /** ...a parsed non-base file adds its report... */
  lemma LoopAdd(files: seq<LocaleFile>, i: nat, base: Document, results: seq<LocaleReport>)
    requires i < |files| && files[i].name != BaseFile() && files[i].parsed.Some?
    requires CompareAll(Others(files[..i]), base) == Compared(results)
    ensures CompareAll(Others(files[..i + 1]), base) ==
      Compared(results + [CompareLocale(LocaleId(files[i].name), base, files[i].parsed.value)])
  {
    OthersSnoc(files, i);
    CompareAllSnoc(Others(files[..i]), files[i], base, results);
  }

  /** ...and an unparsable non-base file ends the comparison, whatever follows it. */
  lemma LoopAbort(files: seq<LocaleFile>, i: nat, base: Document)
    requires i < |files| && files[i].name != BaseFile() && files[i].parsed.None?
    requires AllParsed(Others(files[..i]))
    ensures CompareAll(Others(files), base) == Unparsable(files[i].name)
  {
    OthersSplitAt(files, i);
    FirstUnparsableAt(Others(files[..i]), files[i], Others(files[i + 1..]));
    CompareAllFails(Others(files), base);
  }

  /** The compared files around a non-base file at position `i`. */
  lemma OthersSplitAt(files: seq<LocaleFile>, i: nat)
    requires i < |files| && files[i].name != BaseFile()
    ensures Others(files) == Others(files[..i]) + ([files[i]] + Others(files[i + 1..]))
  {
    assert files == files[..i + 1] + files[i + 1..];
    OthersAppend(files[..i + 1], files[i + 1..]);
    OthersSnoc(files, i);
  }

  /** After parsed files, an unparsable file is the first failure. */
  lemma FirstUnparsableAt(seen: seq<LocaleFile>, file: LocaleFile, rest: seq<LocaleFile>)
    requires AllParsed(seen) && file.parsed.None?
    ensures FirstUnparsable(seen + ([file] + rest)) == Some(file.name)
  {
    FirstUnparsableAppend(seen, [file] + rest);
    assert ([file] + rest)[0] == file;
  }

  lemma CompareAllFails(others: seq<LocaleFile>, base: Document)
    requires FirstUnparsable(others).Some?
    ensures CompareAll(others, base) == Unparsable(FirstUnparsable(others).value)
  {
  }

  /** The three cases of one iteration, stated together for the loop. */
  lemma LoopStep(files: seq<LocaleFile>, i: nat, base: Document, results: seq<LocaleReport>)
    requires i < |files| && CompareAll(Others(files[..i]), base) == Compared(results)
    ensures files[i].name == BaseFile() ==>
      CompareAll(Others(files[..i + 1]), base) == Compared(results)
    ensures files[i].name != BaseFile() && files[i].parsed.Some? ==>
      CompareAll(Others(files[..i + 1]), base) ==
        Compared(results + [CompareLocale(LocaleId(files[i].name), base, files[i].parsed.value)])
    ensures files[i].name != BaseFile() && files[i].parsed.None? ==>
      CompareAll(Others(files), base) == Unparsable(files[i].name)
  {
    if files[i].name == BaseFile() {
      LoopSkip(files, i, base);
    } else if files[i].parsed.None? {
      LoopAbort(files, i, base);
    } else {
      LoopAdd(files, i, base, results);
    }
  }

  /** The `for (const file of localeFiles)` loop: skips the base file, compares
      every other file in order, raises `hasErrors` on the first locale with
      missing or extra keys, and stops at the first file that does not parse. */
  method CompareLocales(files: seq<LocaleFile>, base: Document) returns (outcome: Compared, hasErrors: bool)
    ensures outcome == CompareAll(Others(files), base)
    ensures outcome.Compared? ==> hasErrors == AnyErrors(outcome.reports)
  {
    hasErrors := false;
    var results: seq<LocaleReport> := [];
    var i := 0;
    while i < |files|
      invariant 0 <= i <= |files|
      invariant CompareAll(Others(files[..i]), base) == Compared(results)
      invariant hasErrors == AnyErrors(results)
    {
      var file := files[i];
      LoopStep(files, i, base, results);
      if file.name != BaseFile() {
        if file.parsed.None? {
          return Unparsable(file.name), hasErrors;
        }
        var report := CompareLocale(LocaleId(file.name), base, file.parsed.value);
        AnyErrorsSnoc(results, report);
        results := results + [report];
        if report.missingKeys != [] || report.extraKeys != [] {
          hasErrors := true;
        }
      }
      i := i + 1;
    }
    assert files[..i] == files;
    return Compared(results), hasErrors;
  }

  /** `validateTranslations` step by step, with each `process.exit` a return. */
  method ValidateTranslations(listing: Option<seq<LocaleFile>>) returns (run: Run)
    ensures run == Validate(listing)
  {
    if listing.None? {
      return UnreadableDirectory;
    }
    var files := JsonFiles(listing.value);
    if |files| == 0 {
      return NoFiles;
    }
    var baseFile := Find(files, BaseFile());
    if baseFile.None? {
      return NoBase;
    }
    if baseFile.value.parsed.None? {
      return ParseError(baseFile.value.name);
    }
    var base := baseFile.value.parsed.value;
    var outcome, hasErrors := CompareLocales(files, base);
    match outcome
    case Unparsable(f) =>
      return ParseError(f);
    case Compared(results) =>
      return Report(|Keys(base)|, results, hasErrors);
  }
}
