/** The deck statistics object (`DeckData` in data.py): the card-state counts of the current deck,
    the counts derived from them, the days left until all unseen cards are learned, and the ratios
    shown next to every count. */
module Data {
  import opened Wrappers
  import opened Strings
  import opened Division
  import opened OrderedDict
  import Config

  // ---------------------------------------------------------------------------------------------
  // The card-state query

  /** The columns of a card row that the query reads. */
  datatype Card = Card(queue: int, ivl: int, due: int)

  predicate IsMature(c: Card) { c.queue == 2 && c.ivl >= 21 }
  predicate IsYoung(c: Card) { c.queue == 1 || c.queue == 3 || (c.queue == 2 && c.ivl < 21) }
  predicate IsUnseen(c: Card) { c.queue == 0 }
  predicate IsBuried(c: Card) { c.queue == -2 || c.queue == -3 }
  predicate IsSuspended(c: Card) { c.queue == -1 }
  predicate IsDueLearning(c: Card, now: int) { c.queue == 1 && c.due <= now }

  /** The due-learning test at time `now`, as a column predicate. */
  function DueLearningAt(now: int): Card -> bool
  {
    c => IsDueLearning(c, now)
  }

  /** The number of cards satisfying `p`. */
  function Count(cards: seq<Card>, p: Card -> bool): (n: nat)
    ensures n <= |cards|
  {
    if cards == [] then 0 else (if p(cards[0]) then 1 else 0) + Count(cards[1..], p)
  }

  /** The query's single row: total, mature, young, unseen, buried, suspended and due learning
      cards of the deck at time `now`. SQL's `count` over no rows is 0 but its `sum` is NULL. */
  function QueryRow(cards: seq<Card>, now: int): (row: seq<Option<int>>)
    ensures |row| == 7 && row[0] == Some(|cards|)
    ensures None in row <==> cards == []
  {
    [Some(|cards|), SumColumn(cards, IsMature), SumColumn(cards, IsYoung), SumColumn(cards, IsUnseen),
     SumColumn(cards, IsBuried), SumColumn(cards, IsSuspended), SumColumn(cards, DueLearningAt(now))]
  }

  /** SQL's `sum(case when p then 1 else 0 end)`: NULL over no rows. */
  function SumColumn(cards: seq<Card>, p: Card -> bool): (r: Option<int>)
    ensures r.None? <==> cards == []
    ensures r.Some? ==> r.value == Count(cards, p)
  {
    if cards == [] then None else Some(Count(cards, p))
  }

  /** The five state buckets of the query are pairwise disjoint, so together they count no more
      cards than the deck holds. */
  lemma {:induction false} BucketsAreDisjoint(cards: seq<Card>)
    ensures Count(cards, IsMature) + Count(cards, IsYoung) + Count(cards, IsUnseen)
          + Count(cards, IsBuried) + Count(cards, IsSuspended) <= |cards|
  {
    if cards != [] {
      BucketsAreDisjoint(cards[1..]);
    }
  }

  /** `_query_db`: a row with any NULL (an empty filtered deck) becomes all zeros of the same
      length; otherwise the values are kept. */
  function NormaliseRow(values: seq<Option<int>>): (r: seq<int>)
    ensures |r| == |values|
    ensures None in values ==> forall i :: 0 <= i < |r| ==> r[i] == 0
    ensures None !in values ==> forall i :: 0 <= i < |r| ==> values[i] == Some(r[i])
  {
    if None in values then seq(|values|, i => 0)
    else seq(|values|, i requires 0 <= i < |values| => values[i].GetOr(0))
  }

  /** The normalised row of the query: every column is the count of its bucket, NULL or not. */
  lemma {:induction false} NormalisedRowCounts(cards: seq<Card>, now: int)
    ensures var row := NormaliseRow(QueryRow(cards, now));
      && row[0] == |cards|
      && row[1] == Count(cards, IsMature) && row[2] == Count(cards, IsYoung)
      && row[3] == Count(cards, IsUnseen) && row[4] == Count(cards, IsBuried)
      && row[5] == Count(cards, IsSuspended) && row[6] == Count(cards, DueLearningAt(now))
  {
    var q := QueryRow(cards, now);
    var row := NormaliseRow(q);
    if cards == [] {
      assert q[1] == None;
      assert row[0] == 0 && row[1] == 0 && row[2] == 0 && row[3] == 0 && row[4] == 0 && row[5] == 0 && row[6] == 0;
    } else {
      assert None !in q;
      assert forall i :: 0 <= i < 7 ==> q[i] == Some(row[i]);
    }
  }

  // ---------------------------------------------------------------------------------------------
  // Counts

  /** The `stats` dict as a record: one field per key. */
  datatype DeckStats = DeckStats(
    mature: int, young: int, unseen: int, buried: int, suspended: int,
    total: int, learned: int, unlearned: int,
    newCards: int, learning: int, review: int, due: int)

  const StatKeys: set<string> := {
    "mature", "young", "unseen", "buried", "suspended", "total", "learned", "unlearned",
    "new", "learning", "review", "due"}

  /** The `stats` dict. */
  function StatsDict(s: DeckStats): (m: map<string, int>)
    ensures m.Keys == StatKeys
    ensures m["total"] == s.total && m["suspended"] == s.suspended && m["unlearned"] == s.unlearned
    ensures m["learned"] == s.learned && m["mature"] == s.mature && m["young"] == s.young
    ensures m["unseen"] == s.unseen && m["buried"] == s.buried
    ensures m["new"] == s.newCards && m["learning"] == s.learning && m["review"] == s.review && m["due"] == s.due
  {
    map["mature" := s.mature, "young" := s.young, "unseen" := s.unseen, "buried" := s.buried,
        "suspended" := s.suspended, "total" := s.total, "learned" := s.learned,
        "unlearned" := s.unlearned, "new" := s.newCards, "learning" := s.learning,
        "review" := s.review, "due" := s.due]
  }

  /** `_refresh_stats`, counts part: the query's buckets divided down by the note-correction
      factor, learned and unlearned derived from them, the scheduler's counts copied, and the due
      count adding the scheduler's reviews to the learning cards due now. */
  function RefreshStats(row: seq<int>, scheduled: seq<int>, correction: int): (s: DeckStats)
    requires |row| == 7 && |scheduled| == 3 && correction >= 1
    ensures IsFloorQuotient(s.total, row[0], correction) && IsFloorQuotient(s.mature, row[1], correction)
    ensures IsFloorQuotient(s.young, row[2], correction) && IsFloorQuotient(s.unseen, row[3], correction)
    ensures IsFloorQuotient(s.buried, row[4], correction) && IsFloorQuotient(s.suspended, row[5], correction)
    ensures s.learned == s.mature + s.young && s.learned + s.unlearned == s.total
    ensures s.newCards == scheduled[0] && s.learning == scheduled[1] && s.review == scheduled[2]
    ensures s.due == row[6] + scheduled[2]
  {
    var mature := FloorDiv(row[1], correction);
    var young := FloorDiv(row[2], correction);
    var total := FloorDiv(row[0], correction);
    DeckStats(
      mature := mature,
      young := young,
      unseen := FloorDiv(row[3], correction),
      buried := FloorDiv(row[4], correction),
      suspended := FloorDiv(row[5], correction),
      total := total,
      learned := mature + young,
      unlearned := total - (mature + young),
      newCards := scheduled[0],
      learning := scheduled[1],
      review := scheduled[2],
      due := row[6] + scheduled[2])
  }

  /** Counts taken from the deck's cards: since no card is in two buckets, division by the
      correction factor leaves every count non-negative, never more than the total, and
      `unlearned` non-negative. */
  lemma CountsFromCardsAreConsistent(cards: seq<Card>, now: int, scheduled: seq<int>, correction: int)
    requires |scheduled| == 3 && correction >= 1
    ensures var s := RefreshStats(NormaliseRow(QueryRow(cards, now)), scheduled, correction);
      && 0 <= s.mature && 0 <= s.young && 0 <= s.unseen && 0 <= s.buried && 0 <= s.suspended
      && s.mature + s.young + s.unseen + s.buried + s.suspended <= s.total
      && 0 <= s.learned && 0 <= s.unlearned
  {
    var row := NormaliseRow(QueryRow(cards, now));
    NormalisedRowCounts(cards, now);
    BucketsAreDisjoint(cards);
    QuotientsFitInTotal(row[0], row[1], row[2], row[3], row[4], row[5], correction);
  }

  /** Counts that fit in a total still fit after each is divided down separately. */
  lemma QuotientsFitInTotal(t: int, a: int, b: int, c: int, d: int, e: int, f: int)
    requires f >= 1 && 0 <= a && 0 <= b && 0 <= c && 0 <= d && 0 <= e && a + b + c + d + e <= t
    ensures 0 <= FloorDiv(a, f) && 0 <= FloorDiv(b, f) && 0 <= FloorDiv(c, f) && 0 <= FloorDiv(d, f) && 0 <= FloorDiv(e, f)
    ensures FloorDiv(a, f) + FloorDiv(b, f) + FloorDiv(c, f) + FloorDiv(d, f) + FloorDiv(e, f) <= FloorDiv(t, f)
  {
    FloorDivMonotone(0, a, f);
    FloorDivMonotone(0, b, f);
    FloorDivMonotone(0, c, f);
    FloorDivMonotone(0, d, f);
    FloorDivMonotone(0, e, f);
    FloorDivSuperadditive(a, b, f);
    FloorDivSuperadditive(a + b, c, f);
    FloorDivSuperadditive(a + b + c, d, f);
    FloorDivSuperadditive(a + b + c + d, e, f);
    FloorDivMonotone(a + b + c + d + e, t, f);
  }

  /** `is_empty_deck`: the corrected total is 0. Such a deck shows every share as 0; any
      other deck shows each count as its share of the total. */
  predicate IsEmptyDeck(stats: map<string, int>): (r: bool)
    requires "total" in stats
    ensures r ==> forall k :: k in stats && k != "total" ==> Percentages(stats)[k] == 0.0
    ensures !r ==> forall k :: k in stats ==> Percentages(stats)[k] * (stats["total"] as real) == stats[k] as real
  {
    stats["total"] == 0
  }

  /** A deck looks empty exactly when it holds fewer cards than the correction factor divides by. */
  lemma EmptyDeckIffFewerCardsThanCorrection(cards: seq<Card>, now: int, scheduled: seq<int>, correction: int)
    requires |scheduled| == 3 && correction >= 1
    ensures IsEmptyDeck(StatsDict(RefreshStats(NormaliseRow(QueryRow(cards, now)), scheduled, correction)))
        <==> |cards| < correction
  {
    NormalisedRowCounts(cards, now);
    var s := RefreshStats(NormaliseRow(QueryRow(cards, now)), scheduled, correction);
    if |cards| < correction {
      FloorQuotientUnique(s.total, 0, |cards|, correction);
    } else {
      FloorDivMonotone(correction, |cards|, correction);
      FloorQuotientUnique(FloorDiv(correction, correction), 1, correction, correction);
    }
  }

  // ---------------------------------------------------------------------------------------------
  // Days left

  /** Days until every unseen card is learned at `learnPerDay` new cards a day: none when nothing
      is learned per day, otherwise the ceiling of `unseen / learnPerDay`, which for a positive
      rate is the fewest days whose quota covers the unseen cards. */
  function DaysUntilDone(unseen: int, learnPerDay: int): (d: int)
    ensures learnPerDay == 0 ==> d == 0
    ensures learnPerDay > 0 ==> (d - 1) * learnPerDay < unseen <= d * learnPerDay
    ensures learnPerDay < 0 ==> d * learnPerDay <= unseen < (d - 1) * learnPerDay
  {
    if learnPerDay == 0 then 0 else CeilDiv(unseen, learnPerDay)
  }

  /** The "N day(s)" text: "1 day" for exactly one day, otherwise the number followed by " days". */
  function DaysLeft(days: int): (r: string)
    ensures r == "1 day" <==> days == 1
    ensures days != 1 ==> |r| > 5 && r[|r| - 5..] == " days" && ParseInt(r[..|r| - 5]) == Some(days)
    ensures days != 1 ==> r[..|r| - 5] == IntToString(days)
  {
    ParseIntToString(days);
    if days == 1 then IntToString(days) + " day"
    else
      var r := IntToString(days) + " days";
      assert r[..|r| - 5] == IntToString(days);
      r
  }

  /** The `dates` entries that do not depend on the calendar. */
  datatype Dates = Dates(daysUntilDone: int, daysLeft: string)

  // ---------------------------------------------------------------------------------------------
  // Ratios

  /** Every count divided by `denominator`, or 0 for all of them when it is 0; `total` is 1. */
  function Ratios(stats: map<string, int>, denominator: int): (r: map<string, real>)
    ensures r.Keys == stats.Keys + {"total"}
    ensures r["total"] == 1.0
    ensures denominator == 0 ==> forall k :: k in stats && k != "total" ==> r[k] == 0.0
    ensures denominator != 0 ==> forall k :: k in stats && k != "total" ==> r[k] * (denominator as real) == stats[k] as real
  {
    var ratios := if denominator == 0 then map k | k in stats :: 0.0
                  else map k | k in stats :: (stats[k] as real) / (denominator as real);
    ratios["total" := 1.0]
  }

  /** `_refresh_percentages`: every count relative to the total, guarded against an empty deck. */
  function Percentages(stats: map<string, int>): (r: map<string, real>)
    requires "total" in stats
    ensures r.Keys == stats.Keys && r["total"] == 1.0
    ensures stats["total"] == 0 ==> forall k :: k in stats && k != "total" ==> r[k] == 0.0
    ensures stats["total"] != 0 ==> forall k :: k in stats ==> r[k] * (stats["total"] as real) == stats[k] as real
  {
    Ratios(stats, stats["total"])
  }

  /** `_refresh_percentages_without_suspended`: every count relative to the total less the
      suspended cards, guarded against a zero denominator. */
  function PercentagesWithoutSuspended(stats: map<string, int>): (r: map<string, real>)
    requires "total" in stats && "suspended" in stats
    ensures r.Keys == stats.Keys && r["total"] == 1.0
    ensures stats["total"] == stats["suspended"] ==> forall k :: k in stats && k != "total" ==> r[k] == 0.0
    ensures stats["total"] != stats["suspended"] ==> forall k :: k in stats && k != "total" ==>
      r[k] * ((stats["total"] - stats["suspended"]) as real) == stats[k] as real
  {
    Ratios(stats, stats["total"] - stats["suspended"])
  }


  /** The shares of two counts that make up the whole total add up to 1. */
  lemma SharesAddUp(st: map<string, int>, k1: string, k2: string)
    requires "total" in st && k1 in st && k2 in st && k1 != "total" && k2 != "total"
    requires st["total"] > 0 && st[k1] + st[k2] == st["total"]
    ensures Percentages(st)[k1] + Percentages(st)[k2] == 1.0
  {
    RealSharesAddUp(Percentages(st)[k1], Percentages(st)[k2], st[k1], st[k2], st["total"]);
  }

  // ---------------------------------------------------------------------------------------------
  // Finished decks, labels

  /** The sum of the scheduler's counts. */
  function Sum(counts: seq<int>): int
  {
    if counts == [] then 0 else counts[0] + Sum(counts[1..])
  }

  /** Non-negative counts sum to 0 exactly when every count is 0. */
  lemma {:induction false} SumZeroIffAllZero(counts: seq<int>)
    requires forall i :: 0 <= i < |counts| ==> counts[i] >= 0
    ensures Sum(counts) >= 0
    ensures Sum(counts) == 0 <==> forall i :: 0 <= i < |counts| ==> counts[i] == 0
  {
    if counts != [] {
      assert forall i :: 0 <= i < |counts| - 1 ==> counts[1..][i] == counts[i + 1];
      SumZeroIffAllZero(counts[1..]);
    }
  }

  /** `is_finished`: the deck is done for today when the scheduler's new, learning and review
      counts sum to 0. */
  predicate IsFinished(scheduled: seq<int>)
  {
    Sum(scheduled) == 0
  }

  /** For the scheduler's non-negative counts, a deck is finished exactly when nothing is left in
      any of the three queues. */
  lemma FinishedIffNothingScheduled(scheduled: seq<int>)
    requires forall i :: 0 <= i < |scheduled| ==> scheduled[i] >= 0
    ensures IsFinished(scheduled) <==> forall i :: 0 <= i < |scheduled| ==> scheduled[i] == 0
  {
    SumZeroIffAllZero(scheduled);
  }

  const LabelNames: seq<(string, string)> := [
    ("mature", "Mature"), ("young", "Young"), ("unseen", "Unseen"), ("buried", "Buried"),
    ("suspended", "Suspended"), ("total", "Total"), ("learned", "Learned"),
    ("unlearned", "Unlearned"), ("new", "New"), ("learning", "Learning"), ("review", "Review"),
    ("due", "Due"), ("doneDate", "Done in")]

  /** `_get_labels`: each entry's name followed by a colon, keys in the same order. */
  function Labels(): (r: seq<(string, string)>)
    ensures Keys(r) == Keys(LabelNames)
    ensures forall i :: 0 <= i < |r| ==> |r[i].1| >= 1 && r[i].1[|r[i].1| - 1] == ':'
    ensures forall i :: 0 <= i < |r| ==> r[i].1[..|r[i].1| - 1] == LabelNames[i].1
  {
    var r := seq(|LabelNames|, i requires 0 <= i < |LabelNames| => (LabelNames[i].0, LabelNames[i].1 + ":"));
    assert forall i :: 0 <= i < |r| ==> r[i].1[..|r[i].1| - 1] == LabelNames[i].1;
    r
  }

  // ---------------------------------------------------------------------------------------------
  // The whole refresh

  /** The statistics object's public attributes and its configuration object. */
  datatype DeckData = DeckData(
    config: Config.AddonConfig,
    labels: seq<(string, string)>,
    stats: map<string, int>,
    dates: Option<Dates>,
    percentages: map<string, real>,
    percentagesWithoutSuspended: map<string, real>)

  /** `DeckData.__init__`: labels set, everything else empty. */
  function NewDeckData(config: Config.AddonConfig): (d: DeckData)
    ensures d.stats == map[] && d.dates.None? && Keys(d.labels) == Keys(LabelNames)
    ensures d.percentages == map[] && d.percentagesWithoutSuspended == map[]
    ensures d.labels == Labels() && d.config == config
  {
    DeckData(config, Labels(), map[], None, map[], map[])
  }

  /** `refresh`: refresh the configuration, then the counts and dates, then both ratio maps.
      The host supplies the user's dict, the deck name, the new-cards-per-day limit, the deck's
      cards with the current time, and the scheduler's three counts. */
  function RefreshDeckData(d: DeckData, fetched: Option<Config.UserConfig>, deckName: string, perDay: Option<int>,
                           cards: seq<Card>, now: int, scheduled: seq<int>): (r: DeckData)
    requires d.config.correctionForNotes >= 1 && |scheduled| == 3
    ensures r.config.correctionForNotes >= 1 && r.labels == d.labels
    ensures r.stats.Keys == StatKeys && r.percentages.Keys == StatKeys && r.percentagesWithoutSuspended.Keys == StatKeys
    ensures r.percentages["total"] == 1.0 && r.percentagesWithoutSuspended["total"] == 1.0
    ensures r.stats["unlearned"] >= 0 && r.stats["suspended"] <= r.stats["total"]
    ensures IsEmptyDeck(r.stats) <==> |cards| < r.config.correctionForNotes
    ensures r.dates.Some? && r.dates.value.daysUntilDone == DaysUntilDone(r.stats["unseen"], r.config.learnPerDay)
    ensures r.dates.Some? && r.dates.value.daysLeft == DaysLeft(r.dates.value.daysUntilDone)
    ensures r.config == Config.Refresh(d.config, fetched, deckName, perDay)
    ensures var f := r.config.correctionForNotes;
      && IsFloorQuotient(r.stats["total"], |cards|, f)
      && IsFloorQuotient(r.stats["mature"], Count(cards, IsMature), f)
      && IsFloorQuotient(r.stats["young"], Count(cards, IsYoung), f)
      && IsFloorQuotient(r.stats["unseen"], Count(cards, IsUnseen), f)
      && IsFloorQuotient(r.stats["buried"], Count(cards, IsBuried), f)
      && IsFloorQuotient(r.stats["suspended"], Count(cards, IsSuspended), f)
    ensures r.stats["learned"] == r.stats["mature"] + r.stats["young"] && r.stats["unlearned"] == r.stats["total"] - r.stats["learned"]
    ensures r.stats["new"] == scheduled[0] && r.stats["learning"] == scheduled[1] && r.stats["review"] == scheduled[2]
    ensures r.stats["due"] == Count(cards, DueLearningAt(now)) + scheduled[2]
    ensures r.percentages == Percentages(r.stats) && r.percentagesWithoutSuspended == PercentagesWithoutSuspended(r.stats)
  {
    var config := Config.Refresh(d.config, fetched, deckName, perDay);
    var s := RefreshStats(NormaliseRow(QueryRow(cards, now)), scheduled, config.correctionForNotes);
    NormalisedRowCounts(cards, now);
    CountsFromCardsAreConsistent(cards, now, scheduled, config.correctionForNotes);
    EmptyDeckIffFewerCardsThanCorrection(cards, now, scheduled, config.correctionForNotes);
    var stats := StatsDict(s);
    var days := DaysUntilDone(s.unseen, config.learnPerDay);
    d.(config := config,
       stats := stats,
       dates := Some(Dates(days, DaysLeft(days))),
       percentages := Percentages(stats),
       percentagesWithoutSuspended := PercentagesWithoutSuspended(stats))
  }

  /** For a deck that does not look empty, every bucket's share of the total lies between 0 and 1,
      and the learned and unlearned shares add up to the whole. */
  lemma RefreshedSharesAreProportions(d: DeckData, fetched: Option<Config.UserConfig>, deckName: string, perDay: Option<int>,
                                      cards: seq<Card>, now: int, scheduled: seq<int>)
    requires d.config.correctionForNotes >= 1 && |scheduled| == 3
    ensures var r := RefreshDeckData(d, fetched, deckName, perDay, cards, now, scheduled);
      !IsEmptyDeck(r.stats) ==>
        && (forall k :: k in {"mature", "young", "unseen", "buried", "suspended", "learned", "unlearned"} ==>
              0.0 <= r.percentages[k] <= 1.0)
        && r.percentages["learned"] + r.percentages["unlearned"] == 1.0
  {
    var config := Config.Refresh(d.config, fetched, deckName, perDay);
    var s := RefreshStats(NormaliseRow(QueryRow(cards, now)), scheduled, config.correctionForNotes);
    CountsFromCardsAreConsistent(cards, now, scheduled, config.correctionForNotes);
    if s.total != 0 {
      SharesOfConsistentCounts(s);
    }
  }

  /** Shares of counts whose buckets fit in the total. */
  lemma SharesOfConsistentCounts(s: DeckStats)
    requires 0 <= s.mature && 0 <= s.young && 0 <= s.unseen && 0 <= s.buried && 0 <= s.suspended
    requires s.mature + s.young + s.unseen + s.buried + s.suspended <= s.total
    requires s.learned == s.mature + s.young && s.learned + s.unlearned == s.total && 0 <= s.unlearned
    requires s.total != 0
    ensures var p := Percentages(StatsDict(s));
      && (forall k :: k in {"mature", "young", "unseen", "buried", "suspended", "learned", "unlearned"} ==>
              0.0 <= p[k] <= 1.0)
      && p["learned"] + p["unlearned"] == 1.0
  {
    var st := StatsDict(s);
    ShareBetweenZeroAndOne(st, "mature");
    ShareBetweenZeroAndOne(st, "young");
    ShareBetweenZeroAndOne(st, "unseen");
    ShareBetweenZeroAndOne(st, "buried");
    ShareBetweenZeroAndOne(st, "suspended");
    ShareBetweenZeroAndOne(st, "learned");
    ShareBetweenZeroAndOne(st, "unlearned");
    SharesAddUp(st, "learned", "unlearned");
  }

  /** The share of a count between 0 and a positive total lies between 0 and 1. */
  lemma ShareBetweenZeroAndOne(st: map<string, int>, k: string)
    requires "total" in st && k in st && 0 <= st[k] <= st["total"] && st["total"] > 0
    ensures 0.0 <= Percentages(st)[k] <= 1.0
  {
    RatioBetweenZeroAndOne(Percentages(st)[k], st[k], st["total"]);
  }

  /** Two numbers that multiply a positive `t` into parts of `t` add up to 1. */
  lemma RealSharesAddUp(a: real, b: real, x: int, y: int, t: int)
    requires t > 0 && a * (t as real) == x as real && b * (t as real) == y as real && x + y == t
    ensures a + b == 1.0
  {
    assert (a + b) * (t as real) == t as real;
  }

  /** A number that multiplies a positive `t` into a value between 0 and `t` lies between 0 and 1. */
  lemma RatioBetweenZeroAndOne(p: real, v: int, t: int)
    requires t > 0 && 0 <= v <= t && p * (t as real) == v as real
    ensures 0.0 <= p <= 1.0
  {
    assert p == (v as real) / (t as real);
  }
}
