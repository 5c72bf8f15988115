/** The add-on's configuration object (`AddonConfig` in config.py): default values, and the
    refresh that overlays the user's configuration dict on them. */
module Config {
  import opened Wrappers
  import opened Strings
  import opened OrderedDict

  /** The user configuration dict as the host returns it. A `None` field is a key missing from the
      dict; each table is its dict's `items()` in iteration order. */
  datatype UserConfig = UserConfig(
    noteCorrectionFactors: Option<seq<(string, int)>>,
    dateFormat: Option<string>,
    statColors: Option<seq<(string, string)>>,
    showTableForFinishedDecks: Option<bool>)

  /** The public attributes of the configuration object, and the last dict fetched (`config`). */
  datatype AddonConfig = AddonConfig(
    statColors: seq<(string, string)>,
    dateFormat: string,
    correctionForNotes: int,
    learnPerDay: int,
    showTableForFinishedDecks: bool,
    config: Option<UserConfig>)

  const DayMonthYear: string := "%d.%m.%Y"
  const MonthDayYear: string := "%m/%d/%Y"
  const YearMonthDay: string := "%Y/%m/%d"

  const DefaultStatColors: seq<(string, string)> := [
    ("New", "#00a"),
    ("Learning", "#a00"),
    ("Review", "#080"),
    ("Percent", "#888"),
    ("Mature", "#0051ff"),
    ("Young", "#0051ff"),
    ("Learned", "#080"),
    ("Unseen", "#a00"),
    ("Buried", "#e7a100"),
    ("Suspended", "#e7a100"),
    ("Done on Date", "#ddd"),
    ("Days until done", "#ddd"),
    ("Total", "#ddd")
  ]

  /** `_initialize_default_values`, with `config` the dict the host returned. */
  function Defaults(config: Option<UserConfig>): (r: AddonConfig)
    ensures r.correctionForNotes == 1 && r.learnPerDay == 0 && r.showTableForFinishedDecks
    ensures r.dateFormat == DayMonthYear && Keys(r.statColors) == Keys(DefaultStatColors)
  {
    AddonConfig(DefaultStatColors, DayMonthYear, 1, 0, true, config)
  }

  // ---------------------------------------------------------------------------------------------
  // Note correction factors

  /** Entry `i` of the factor table beats a previous match of length `lastLen`: its fragment is a
      prefix of the deck name and strictly longer. */
  ghost predicate Beats(entries: seq<(string, int)>, deckName: string, lastLen: nat, i: int)
  {
    0 <= i < |entries| && entries[i].0 <= deckName && |entries[i].0| > lastLen
  }

  /** Entry `i` is the longest fragment that beats `lastLen`, and the first one of that length. */
  ghost predicate IsLongestMatch(entries: seq<(string, int)>, deckName: string, lastLen: nat, i: int)
  {
    && Beats(entries, deckName, lastLen, i)
    && (forall j :: Beats(entries, deckName, lastLen, j) ==> |entries[j].0| <= |entries[i].0|)
    && (forall j :: 0 <= j < i && Beats(entries, deckName, lastLen, j) ==> |entries[j].0| < |entries[i].0|)
  }

  /** The loop over the factor table, from `(factor, lastLen)` onwards: an entry whose fragment is
      a prefix of the deck name and longer than the last match takes over. */
  function ScanFactors(entries: seq<(string, int)>, deckName: string, factor: int, lastLen: nat): (r: (int, nat))
    ensures r.1 >= lastLen
    ensures r.1 == lastLen ==> r.0 == factor
    decreases |entries|
  {
    if entries == [] then (factor, lastLen)
    else if entries[0].0 <= deckName && |entries[0].0| > lastLen then
      ScanFactors(entries[1..], deckName, entries[0].1, |entries[0].0|)
    else
      ScanFactors(entries[1..], deckName, factor, lastLen)
  }

  /** The scan ends with the factor of the longest matching fragment (the first of that length),
      and keeps the factor it started with when no fragment matches. */
  ghost predicate ScanFindsLongest(entries: seq<(string, int)>, deckName: string, factor: int, lastLen: nat)
  {
    && ((forall j :: !Beats(entries, deckName, lastLen, j)) ==> ScanFactors(entries, deckName, factor, lastLen) == (factor, lastLen))
    && ((exists j :: Beats(entries, deckName, lastLen, j)) ==>
          exists i :: IsLongestMatch(entries, deckName, lastLen, i) && ScanFactors(entries, deckName, factor, lastLen) == (entries[i].1, |entries[i].0|))
  }

  lemma {:induction false} ScanFindsLongestMatch(entries: seq<(string, int)>, deckName: string, factor: int, lastLen: nat)
    ensures ScanFindsLongest(entries, deckName, factor, lastLen)
  {
    if entries != [] {
      if entries[0].0 <= deckName && |entries[0].0| > lastLen {
        ScanFindsLongestMatch(entries[1..], deckName, entries[0].1, |entries[0].0|);
        MatchingHeadTakesOver(entries, deckName, factor, lastLen);
      } else {
        ScanFindsLongestMatch(entries[1..], deckName, factor, lastLen);
        OtherHeadIsSkipped(entries, deckName, factor, lastLen);
      }
    }
  }

  /** Inductive step when the first fragment beats the last match: it becomes the match to beat. */
  lemma MatchingHeadTakesOver(entries: seq<(string, int)>, deckName: string, factor: int, lastLen: nat)
    requires entries != [] && entries[0].0 <= deckName && |entries[0].0| > lastLen
    requires ScanFindsLongest(entries[1..], deckName, entries[0].1, |entries[0].0|)
    ensures ScanFindsLongest(entries, deckName, factor, lastLen)
  {
    var rest, len0 := entries[1..], |entries[0].0|;
    assert Beats(entries, deckName, lastLen, 0);
    assert forall j :: 0 <= j < |rest| ==> rest[j] == entries[j + 1];
    if forall j :: !Beats(rest, deckName, len0, j) {
      assert forall j :: Beats(entries, deckName, lastLen, j) && j > 0 ==> !Beats(rest, deckName, len0, j - 1);
      assert IsLongestMatch(entries, deckName, lastLen, 0);
    } else {
      var k :| IsLongestMatch(rest, deckName, len0, k)
            && ScanFactors(rest, deckName, entries[0].1, len0) == (rest[k].1, |rest[k].0|);
      assert forall j :: Beats(entries, deckName, lastLen, j) && j > 0 && |entries[j].0| > len0 ==> Beats(rest, deckName, len0, j - 1);
      assert IsLongestMatch(entries, deckName, lastLen, k + 1);
    }
  }

  /** Inductive step when the first fragment does not beat the last match: the scan goes on as if
      it were not there. */
  lemma OtherHeadIsSkipped(entries: seq<(string, int)>, deckName: string, factor: int, lastLen: nat)
    requires entries != [] && !(entries[0].0 <= deckName && |entries[0].0| > lastLen)
    requires ScanFindsLongest(entries[1..], deckName, factor, lastLen)
    ensures ScanFindsLongest(entries, deckName, factor, lastLen)
  {
    var rest := entries[1..];
    assert forall j :: 0 <= j < |rest| ==> rest[j] == entries[j + 1];
    assert forall j :: Beats(entries, deckName, lastLen, j) ==> j > 0 && Beats(rest, deckName, lastLen, j - 1);
    assert forall j :: Beats(rest, deckName, lastLen, j) ==> Beats(entries, deckName, lastLen, j + 1);
    if exists j :: Beats(entries, deckName, lastLen, j) {
      var k :| IsLongestMatch(rest, deckName, lastLen, k)
            && ScanFactors(rest, deckName, factor, lastLen) == (rest[k].1, |rest[k].0|);
      assert IsLongestMatch(entries, deckName, lastLen, k + 1);
    }
  }

  /** The clamp that keeps the factor usable as a divisor: never zero, never negative. */
  function ClampFactor(f: int): (r: int)
    ensures r >= 1
    ensures f >= 1 ==> r == f
    ensures f <= 0 ==> r == 1
  {
    if f <= 0 then 1 else f
  }

  /** `_refresh_note_correction_factors`: without a factor table the current factor stays as it is;
      otherwise the table is scanned from the current factor and the result is clamped. */
  function RefreshNoteCorrectionFactors(config: UserConfig, deckName: string, current: int): (r: int)
    ensures config.noteCorrectionFactors.None? ==> r == current
    ensures config.noteCorrectionFactors.Some? ==> r >= 1
  {
    match config.noteCorrectionFactors
    case None => current
    case Some(entries) => ClampFactor(ScanFactors(entries, deckName, current, 0).0)
  }

  /** The refreshed factor is the (clamped) factor of the longest non-empty fragment that is a
      prefix of the deck name, the earliest among equally long ones; when no fragment matches, it
      is the (clamped) factor from before the refresh. */
  lemma NoteCorrectionFactorIsLongestPrefixMatch(config: UserConfig, deckName: string, current: int)
    requires config.noteCorrectionFactors.Some?
    ensures var entries := config.noteCorrectionFactors.value;
      && ((forall j :: !Beats(entries, deckName, 0, j)) ==> RefreshNoteCorrectionFactors(config, deckName, current) == ClampFactor(current))
      && ((exists j :: Beats(entries, deckName, 0, j)) ==>
            exists i :: IsLongestMatch(entries, deckName, 0, i)
                     && RefreshNoteCorrectionFactors(config, deckName, current) == ClampFactor(entries[i].1))
  {
    ScanFindsLongestMatch(config.noteCorrectionFactors.value, deckName, current, 0);
  }

  // ---------------------------------------------------------------------------------------------
  // Date format

  /** The format a shorthand stands for, if the trimmed, lower-cased value is one. */
  function Shorthand(value: string): Option<string>
  {
    var key := Lower(Strip(value));
    if key == "us" then Some(MonthDayYear)
    else if key == "asia" then Some(YearMonthDay)
    else if key == "eu" then Some(DayMonthYear)
    else None
  }

  /** `_refresh_date_format`: the format a shorthand stands for, the raw value as given when it is
      not a shorthand, and day.month.year when the key is missing. */
  function ResolveDateFormat(value: Option<string>): (r: string)
    ensures value.None? ==> r == DayMonthYear
    ensures value.Some? && Lower(Strip(value.value)) == "us" ==> r == MonthDayYear
    ensures value.Some? && Lower(Strip(value.value)) == "asia" ==> r == YearMonthDay
    ensures value.Some? && Lower(Strip(value.value)) == "eu" ==> r == DayMonthYear
    ensures value.Some? && Lower(Strip(value.value)) !in {"us", "asia", "eu"} ==> r == value.value
  {
    match value
    case None => DayMonthYear
    case Some(v) => Shorthand(v).GetOr(v)
  }

  /** A shorthand is recognised whatever its letter case and surrounding whitespace. */
  lemma DateShorthandIgnoresCaseAndPadding(p: string, s: string, q: string)
    requires AllSpace(p) && AllSpace(q)
    requires Lower(s) in {"us", "asia", "eu"}
    ensures Lower(s) == "us" ==> ResolveDateFormat(Some(p + s + q)) == MonthDayYear
    ensures Lower(s) == "asia" ==> ResolveDateFormat(Some(p + s + q)) == YearMonthDay
    ensures Lower(s) == "eu" ==> ResolveDateFormat(Some(p + s + q)) == DayMonthYear
  {
    assert LowerChar(s[0]) == Lower(s)[0] && LowerChar(s[|s| - 1]) == Lower(s)[|s| - 1];
    StripPadded(p, s, q);
  }

  /** A string that starts with `%` is no shorthand. */
  lemma PercentIsNoShorthand(v: string)
    requires v != [] && v[0] == '%'
    ensures Shorthand(v).None?
  {
    assert [] + v == v;
    TrimStartPadded([], v);
    assert Lower(Strip(v))[0] == '%';
  }

  /** A property of the model, not a call the add-on makes (it always resolves the user's raw
      value): resolving a resolved format again changes nothing, because none of the three formats
      reads as a shorthand and a value that is not a shorthand is kept verbatim. */
  lemma ResolveDateFormatIdempotent(value: Option<string>)
    ensures ResolveDateFormat(Some(ResolveDateFormat(value))) == ResolveDateFormat(value)
  {
    PercentIsNoShorthand(DayMonthYear);
    PercentIsNoShorthand(MonthDayYear);
    PercentIsNoShorthand(YearMonthDay);
  }

  // ---------------------------------------------------------------------------------------------
  // Stat colours, learn-per-day, finished-deck flag

  /** `_refresh_stat_colors`: the user's colours overwrite those of keys already present; the key
      set and its order never change, and unknown keys are ignored. */
  function RefreshStatColors(current: seq<(string, string)>, value: Option<seq<(string, string)>>): (r: seq<(string, string)>)
    ensures Keys(r) == Keys(current)
    ensures value.None? ==> r == current
    ensures value.Some? ==> forall i :: 0 <= i < |current| ==>
      r[i].1 == LastValue(value.value, current[i].0).GetOr(current[i].1)
  {
    match value
    case None => current
    case Some(entries) => OverlayExisting(current, entries)
  }

  /** `_refresh_learn_per_day`: the deck's new-cards-per-day limit when the host could report one;
      when both lookups fail the previous value stays. */
  function RefreshLearnPerDay(current: int, perDay: Option<int>): (r: int)
    ensures perDay.Some? ==> r == perDay.value
    ensures perDay.None? ==> r == current
  {
    perDay.GetOr(current)
  }

  /** `_refresh_show_table_for_finished_decks`: true only when the key is present and true. */
  function ShowTableFlag(value: Option<bool>): (r: bool)
    ensures r <==> value == Some(true)
  {
    value.Some? && value.GetOr(true)
  }

  /** `refresh`: fetch the user's dict (`fetched`) and update every attribute from it; a `None` dict
      leaves all attributes but `config` as they were. `deckName` and `perDay` are what the host
      reports for the current deck. */
  function Refresh(prev: AddonConfig, fetched: Option<UserConfig>, deckName: string, perDay: Option<int>): (r: AddonConfig)
    ensures r.config == fetched
    ensures fetched.None? ==> r == prev.(config := None)
    ensures Keys(r.statColors) == Keys(prev.statColors)
    ensures prev.correctionForNotes >= 1 ==> r.correctionForNotes >= 1
    ensures fetched.Some? ==> (r.showTableForFinishedDecks <==> fetched.value.showTableForFinishedDecks == Some(true))
    ensures fetched.Some? ==> r.learnPerDay == perDay.GetOr(prev.learnPerDay)
    ensures fetched.Some? ==> r.dateFormat == ResolveDateFormat(fetched.value.dateFormat)
    ensures fetched.Some? ==> r.correctionForNotes == RefreshNoteCorrectionFactors(fetched.value, deckName, prev.correctionForNotes)
    ensures fetched.Some? ==> r.statColors == RefreshStatColors(prev.statColors, fetched.value.statColors)
  {
    match fetched
    case None => prev.(config := None)
    case Some(c) =>
      AddonConfig(
        statColors := RefreshStatColors(prev.statColors, c.statColors),
        dateFormat := ResolveDateFormat(c.dateFormat),
        correctionForNotes := RefreshNoteCorrectionFactors(c, deckName, prev.correctionForNotes),
        learnPerDay := RefreshLearnPerDay(prev.learnPerDay, perDay),
        showTableForFinishedDecks := ShowTableFlag(c.showTableForFinishedDecks),
        config := fetched)
  }

  /** What the host reports on one refresh: the user's dict (or `None`), the current deck's name
      and its new-cards-per-day limit (`None` when both lookups fail). */
  datatype HostAnswer = HostAnswer(fetched: Option<UserConfig>, deckName: string, perDay: Option<int>)

  /** A factor of at least 1 is an invariant of the configuration object: the defaults start at 1
      and every refresh keeps it, whatever the host returns, the current deck included. */
  lemma CorrectionStaysPositive(answers: seq<HostAnswer>, initial: Option<UserConfig>)
    ensures RefreshAll(Defaults(initial), answers).correctionForNotes >= 1
  {
    CorrectionInvariant(Defaults(initial), answers);
  }

  /** Successive refreshes of the same object, one host answer each. */
  function RefreshAll(c: AddonConfig, answers: seq<HostAnswer>): AddonConfig
    decreases |answers|
  {
    if answers == [] then c
    else RefreshAll(Refresh(c, answers[0].fetched, answers[0].deckName, answers[0].perDay), answers[1..])
  }

  lemma {:induction false} CorrectionInvariant(c: AddonConfig, answers: seq<HostAnswer>)
    requires c.correctionForNotes >= 1
    ensures RefreshAll(c, answers).correctionForNotes >= 1
    decreases |answers|
  {
    if answers != [] {
      var a := answers[0];
      CorrectionInvariant(Refresh(c, a.fetched, a.deckName, a.perDay), answers[1..]);
    }
  }
}
