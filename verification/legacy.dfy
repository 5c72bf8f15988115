/** The add-on's earlier single-function version (More_Overview_Stats_2_1.py): `overview_table`
    reads the configuration afresh on every call, derives the counts and ratios itself, and
    returns early for a deck without cards; `_is_finished` overrides the scheduler's decision. */
module Legacy {
  import opened Wrappers
  import opened Division
  import opened OrderedDict
  import Config
  import Data

  /** The early return for a deck without cards. */
  const NoCardsHtml: string := "<p>No cards found.</p>"

  /** The legacy colour table: the same as the later one, without "Buried". */
  const LegacyDefaultStatColors: seq<(string, string)> := [
    ("New", "#00a"),
    ("Learning", "#a00"),
    ("Review", "#080"),
    ("Percent", "#888"),
    ("Mature", "#0051ff"),
    ("Young", "#0051ff"),
    ("Learned", "#080"),
    ("Unseen", "#a00"),
    ("Suspended", "#e7a100"),
    ("Done on Date", "#ddd"),
    ("Days until done", "#ddd"),
    ("Total", "#ddd")
  ]

  /** The settings `overview_table` resolves before querying. */
  datatype Settings = Settings(correctionForNotes: int, dateFormat: string, statColors: seq<(string, string)>)

  /** The configuration part of `overview_table`: every call starts from factor 1, day.month.year
      and the default colours, and overlays the user's dict when there is one. */
  function ResolveSettings(config: Option<Config.UserConfig>, deckName: string): (r: Settings)
    ensures r.correctionForNotes >= 1
    ensures Keys(r.statColors) == Keys(LegacyDefaultStatColors)
    ensures config.None? ==> r == Settings(1, Config.DayMonthYear, LegacyDefaultStatColors)
    ensures config.Some? && config.value.noteCorrectionFactors.None? ==> r.correctionForNotes == 1
    ensures config.Some? ==> r.dateFormat == Config.ResolveDateFormat(config.value.dateFormat)
    ensures config.Some? ==> r.statColors == Config.RefreshStatColors(LegacyDefaultStatColors, config.value.statColors)
  {
    match config
    case None => Settings(1, Config.DayMonthYear, LegacyDefaultStatColors)
    case Some(c) =>
      Settings(
        Config.RefreshNoteCorrectionFactors(c, deckName, 1),
        Config.ResolveDateFormat(c.dateFormat),
        Config.RefreshStatColors(LegacyDefaultStatColors, c.statColors))
  }

  /** The legacy factor is the clamped factor of the longest non-empty fragment that prefixes the
      deck name (the earliest of equally long ones), and 1 when no fragment matches. */
  lemma LegacyCorrectionIsLongestPrefixMatch(config: Config.UserConfig, deckName: string)
    requires config.noteCorrectionFactors.Some?
    ensures var entries := config.noteCorrectionFactors.value;
            var f := ResolveSettings(Some(config), deckName).correctionForNotes;
      && ((forall j :: !Config.Beats(entries, deckName, 0, j)) ==> f == 1)
      && ((exists j :: Config.Beats(entries, deckName, 0, j)) ==>
            exists i :: Config.IsLongestMatch(entries, deckName, 0, i) && f == Config.ClampFactor(entries[i].1))
  {
    Config.NoteCorrectionFactorIsLongestPrefixMatch(config, deckName, 1);
  }

  /** The legacy query's row: total, mature, young, unseen, suspended (here every card with a
      negative queue, buried ones included) and due learning cards. */
  datatype Counts = Counts(total: nat, mature: nat, young: nat, unseen: nat, suspended: nat, due: nat)

  /** The `cards` dict, without its date entries. */
  datatype Cards = Cards(
    mature: int, young: int, unseen: int, suspended: int,
    total: int, learned: int, unlearned: int,
    newCards: int, learning: int, review: int,
    totalWithoutSuspended: int)

  /** The counts divided down by the correction factor and the derived counts. */
  function DeriveCards(counts: Counts, scheduled: seq<int>, correction: int): (c: Cards)
    requires |scheduled| == 3 && correction >= 1
    ensures IsFloorQuotient(c.total, counts.total, correction) && IsFloorQuotient(c.suspended, counts.suspended, correction)
    ensures IsFloorQuotient(c.mature, counts.mature, correction) && IsFloorQuotient(c.young, counts.young, correction)
    ensures IsFloorQuotient(c.unseen, counts.unseen, correction)
    ensures c.learned == c.mature + c.young && c.learned + c.unlearned == c.total
    ensures c.totalWithoutSuspended + c.suspended == c.total
    ensures c.newCards == scheduled[0] && c.learning == scheduled[1] && c.review == scheduled[2]
  {
    var mature := FloorDiv(counts.mature, correction);
    var young := FloorDiv(counts.young, correction);
    var total := FloorDiv(counts.total, correction);
    var suspended := FloorDiv(counts.suspended, correction);
    Cards(mature, young, FloorDiv(counts.unseen, correction), suspended, total,
          mature + young, total - (mature + young), scheduled[0], scheduled[1], scheduled[2],
          total - suspended)
  }

  /** When the query's mature and young buckets fit in the total, `unlearned` is not negative. */
  lemma LegacyUnlearnedNonNegative(counts: Counts, scheduled: seq<int>, correction: int)
    requires |scheduled| == 3 && correction >= 1
    requires counts.mature + counts.young <= counts.total
    ensures DeriveCards(counts, scheduled, correction).unlearned >= 0
  {
    FloorDivSuperadditive(counts.mature, counts.young, correction);
    FloorDivMonotone(counts.mature + counts.young, counts.total, correction);
  }

  /** The counts that get a percentage column, by key. */
  function RatioCounts(c: Cards): (m: map<string, int>)
    ensures m.Keys == {"mature", "young", "unseen", "suspended", "total", "learned", "unlearned", "new", "learning", "review"}
    ensures m["total"] == c.total && m["suspended"] == c.suspended
    ensures m["mature"] == c.mature && m["young"] == c.young && m["unseen"] == c.unseen
    ensures m["learned"] == c.learned && m["unlearned"] == c.unlearned
    ensures m["new"] == c.newCards && m["learning"] == c.learning && m["review"] == c.review
  {
    map["mature" := c.mature, "young" := c.young, "unseen" := c.unseen, "suspended" := c.suspended,
        "total" := c.total, "learned" := c.learned, "unlearned" := c.unlearned,
        "new" := c.newCards, "learning" := c.learning, "review" := c.review]
  }

  /** `cards_percent` as written: every count over the corrected total, with no guard, so a
      corrected total of 0 raises ZeroDivisionError (`None`). Where it does not, it is the guarded
      computation of data.py. */
  function LegacyPercentages(c: Cards): (r: Option<map<string, real>>)
    ensures r.None? <==> c.total == 0
    ensures r.Some? ==> r.value == Data.Percentages(RatioCounts(c))
  {
    if c.total == 0 then None else Some(Data.Ratios(RatioCounts(c), c.total))
  }

  /** `cards_percent_without_suspended`: over the total less the suspended cards, every share 0
      when that is 0, and `total` pinned to 1. */
  function LegacyPercentagesWithoutSuspended(c: Cards): (r: map<string, real>)
    ensures r.Keys == RatioCounts(c).Keys && r["total"] == 1.0
    ensures c.totalWithoutSuspended == 0 ==> forall k :: k in r && k != "total" ==> r[k] == 0.0
    ensures c.totalWithoutSuspended == c.total - c.suspended ==> r == Data.PercentagesWithoutSuspended(RatioCounts(c))
  {
    var m := RatioCounts(c);
    assert m.Keys + {"total"} == m.Keys;
    Data.Ratios(m, c.totalWithoutSuspended)
  }

  /** What `overview_table` ends in: the early "no cards" paragraph, an uncaught
      ZeroDivisionError, or the table's data. */
  datatype Outcome =
    | NoCardsFound(html: string)
    | DivisionByZero
    | Table(settings: Settings, cards: Cards, daysUntilDone: int, daysLeft: string,
            percent: map<string, real>, percentWithoutSuspended: map<string, real>)

  /** The table once the ratios over the total are known. */
  function BuildTable(settings: Settings, cards: Cards, learnPerDay: int, percent: map<string, real>): Outcome
  {
    var days := Data.DaysUntilDone(cards.unseen, learnPerDay);
    Table(settings, cards, days, Data.DaysLeft(days), percent, LegacyPercentagesWithoutSuspended(cards))
  }

  /** `overview_table` as written. The host supplies the user's dict, the deck name, the
      new-cards-per-day limit (`None` when the lookup raises, read as 0), the query row and the
      scheduler's counts. Only the raw total is checked for 0, so a deck with fewer cards than the
      correction factor divides by a corrected total of 0. */
  function OverviewTable(config: Option<Config.UserConfig>, deckName: string, perDay: Option<int>,
                         counts: Counts, scheduled: seq<int>): (r: Outcome)
    requires |scheduled| == 3
    ensures r == NoCardsFound(NoCardsHtml) <==> counts.total == 0
    ensures r.DivisionByZero? <==> 0 < counts.total < ResolveSettings(config, deckName).correctionForNotes
    ensures r.Table? ==> r.percent.Keys == r.percentWithoutSuspended.Keys == RatioCounts(r.cards).Keys
    ensures r.Table? ==> r.percent["total"] == 1.0 && r.percentWithoutSuspended["total"] == 1.0
    ensures r.Table? ==> r.daysUntilDone == Data.DaysUntilDone(r.cards.unseen, perDay.GetOr(0))
    ensures r.Table? ==>
      && r.settings == ResolveSettings(config, deckName)
      && r.cards == DeriveCards(counts, scheduled, r.settings.correctionForNotes)
      && Some(r.percent) == LegacyPercentages(r.cards)
      && r.percentWithoutSuspended == LegacyPercentagesWithoutSuspended(r.cards)
      && r.daysLeft == Data.DaysLeft(r.daysUntilDone)
  {
    if counts.total == 0 then NoCardsFound(NoCardsHtml)
    else
      var settings := ResolveSettings(config, deckName);
      var cards := DeriveCards(counts, scheduled, settings.correctionForNotes);
      ZeroCorrectedTotal(counts.total, settings.correctionForNotes);
      match LegacyPercentages(cards)
      case None => DivisionByZero
      case Some(percent) => BuildTable(settings, cards, perDay.GetOr(0), percent)
  }

  /** A positive count floors to 0 exactly when it is smaller than the divisor. */
  lemma ZeroCorrectedTotal(total: nat, correction: int)
    requires correction >= 1
    ensures FloorDiv(total, correction) == 0 <==> total < correction
  {
    if total < correction {
      FloorQuotientUnique(FloorDiv(total, correction), 0, total, correction);
    } else {
      FloorDivMonotone(correction, total, correction);
      FloorQuotientUnique(FloorDiv(correction, correction), 1, correction, correction);
    }
  }

  /** The input that shows the gap: a one-card deck under a factor of 2 passes the raw-total
      check and then divides by zero. */
  lemma RawTotalGuardLetsZeroDivisionThrough()
    ensures var config := Config.UserConfig(Some([("Japanese", 2)]), None, None, None);
      OverviewTable(Some(config), "Japanese::Vocabulary", Some(20), Counts(1, 0, 0, 1, 0, 0), [1, 0, 0]) == DivisionByZero
  {
    var entries: seq<(string, int)> := [("Japanese", 2)];
    var config := Config.UserConfig(Some(entries), None, None, None);
    var name := "Japanese::Vocabulary";
    assert entries[0].0 == name[..8];
    assert entries[0].0 <= name;
    assert Config.ScanFactors(entries[1..], name, 2, 8) == (2, 8);
    assert Config.ScanFactors(entries, name, 1, 0) == (2, 8);
    assert ResolveSettings(Some(config), name).correctionForNotes == 2;
  }

  /** `overview_table` with the corrected total guarded as data.py guards it: a deck with cards
      always gets its table, with every share 0 when the corrected total is 0. */
  function GuardedOverviewTable(config: Option<Config.UserConfig>, deckName: string, perDay: Option<int>,
                                counts: Counts, scheduled: seq<int>): (r: Outcome)
    requires |scheduled| == 3
    ensures r == NoCardsFound(NoCardsHtml) <==> counts.total == 0
    ensures counts.total != 0 ==> r.Table?
    ensures r.Table? && r.cards.total == 0 ==> forall k :: k in r.percent && k != "total" ==> r.percent[k] == 0.0
    ensures r.Table? ==> r.percent.Keys == RatioCounts(r.cards).Keys && r.percent["total"] == 1.0
    ensures r.Table? ==>
      && r.settings == ResolveSettings(config, deckName)
      && r.cards == DeriveCards(counts, scheduled, r.settings.correctionForNotes)
      && r.percent == Data.Percentages(RatioCounts(r.cards))
      && r.percentWithoutSuspended == LegacyPercentagesWithoutSuspended(r.cards)
      && r.daysUntilDone == Data.DaysUntilDone(r.cards.unseen, perDay.GetOr(0))
      && r.daysLeft == Data.DaysLeft(r.daysUntilDone)
  {
    if counts.total == 0 then NoCardsFound(NoCardsHtml)
    else
      var settings := ResolveSettings(config, deckName);
      var cards := DeriveCards(counts, scheduled, settings.correctionForNotes);
      BuildTable(settings, cards, perDay.GetOr(0), Data.Percentages(RatioCounts(cards)))
  }

  /** Where the legacy table is produced, the guarded one is the same table. */
  lemma GuardedOverviewAgreesWhereLegacySucceeds(config: Option<Config.UserConfig>, deckName: string, perDay: Option<int>,
                                                  counts: Counts, scheduled: seq<int>)
    requires |scheduled| == 3
    ensures !OverviewTable(config, deckName, perDay, counts, scheduled).DivisionByZero? ==>
      GuardedOverviewTable(config, deckName, perDay, counts, scheduled) == OverviewTable(config, deckName, perDay, counts, scheduled)
  {
    if counts.total != 0 {
      var settings := ResolveSettings(config, deckName);
      var cards := DeriveCards(counts, scheduled, settings.correctionForNotes);
      if cards.total != 0 {
        assert Data.Percentages(RatioCounts(cards)) == Data.Ratios(RatioCounts(cards), cards.total);
      }
    }
  }

  /** `_is_finished`: the host treats a deck as finished only when its own check says so and the
      user's dict explicitly sets "Show table for finished decks" to false. */
  function IsFinishedOverride(schedulerFinished: bool, config: Option<Config.UserConfig>): (r: bool)
    ensures r <==> schedulerFinished && config.Some? && config.value.showTableForFinishedDecks == Some(false)
  {
    if schedulerFinished then
      if config.None? || config.value.showTableForFinishedDecks.None? || config.value.showTableForFinishedDecks.GetOr(true) then false
      else true
    else false
  }

  /** The legacy override and the later configuration flag agree when the key is present (the
      deck counts as finished exactly when the table is not to be shown), but part ways when it
      is absent: the override then keeps the table, while the later flag reads false. */
  lemma OverrideVersusShowTableFlag(schedulerFinished: bool, config: Config.UserConfig)
    ensures config.showTableForFinishedDecks.Some? ==>
      (IsFinishedOverride(schedulerFinished, Some(config)) <==> schedulerFinished && !Config.ShowTableFlag(config.showTableForFinishedDecks))
    ensures config.showTableForFinishedDecks.None? ==>
      !IsFinishedOverride(schedulerFinished, Some(config)) && !Config.ShowTableFlag(config.showTableForFinishedDecks)
  {
  }
}
