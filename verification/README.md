# More Overview Stats: a verified model of its statistics logic

The add-on shows extra statistics on a flashcard deck's overview screen. Under its HTML
templating sits a small layer of pure decision and arithmetic logic, and this project models
that layer in Dafny and proves properties of it:

- **Configuration resolution** (`config.py`, module `Config`). The note-correction factor is
  picked by longest-prefix match of the deck name against the user's `(fragment, factor)`
  table and clamped to at least 1. The date format is a case-insensitive, whitespace-trimmed
  shorthand (`us`, `asia`, `eu`) or the raw value. The user's stat colours are laid over a fixed
  default key set. The "Show table for finished decks" flag is also computed here.
- **Stats derivation** (`data.py`, module `Data`). The card-state query's buckets are
  floor-divided by the correction factor, and learned, unlearned and due counts are derived
  from them. Days until done is a ceiling division guarded against a zero rate, and the
  "N day(s)" text is built from it. Two ratio maps are computed, one over the total and one over
  the total less suspended cards. Both fall back to 0 on a zero denominator and pin `total` to 1.
- **Finished-deck gating**. `is_finished` holds when the scheduler's counts sum to 0. The
  legacy `_is_finished` override decides when the host treats a deck as finished.
- **The legacy single-file version** (`More_Overview_Stats_2_1.py`, module `Legacy`). It covers
  the configuration and derivation inside `overview_table`, and the override.

Supporting modules: `Wrappers` (an `Option` for Python's `None` and absent dict keys),
`Strings` (`str.strip`, `str.lower`, `str(n)` and its inverse), `Division` (Python's `//` and
`math.ceil(a / b)` on exact numbers) and `OrderedDict` (a Python dict as an insertion-ordered
sequence of pairs).

Modelling choices:
- The host's answers are plain parameters. These are the user's configuration dict (or
  `None`), the deck name, the new-cards-per-day limit (`None` when the lookup raises), the
  scheduler's three counts, and the current time.
- The user dict is a record of optional fields, where `None` means the key is absent. Its
  tables are sequences of pairs in the dict's iteration order.
- The card-state query is modelled by its column definitions over the deck's card rows
  (`queue`, `ivl`, `due`). SQL `sum` over no rows is NULL, and that is where the `None` values
  that `_query_db` normalises come from. The disjointness of the buckets, which keeps
  `unlearned` non-negative after floor division, is then a theorem (`Data.BucketsAreDisjoint`)
  and not an assumption.
- Ratios are exact `real`s, not floats. Days until done is an exact integer ceiling.
- `config.py:39-41` returns early when the host gives no dict, but it has already stored that
  `None` in the `config` attribute. So `Config.Refresh` keeps every other attribute and sets
  `config` to `None`.
- In `config.py`, an absent "Show table for finished decks" key makes the flag false, even
  though the attribute's documented default is true. The legacy override treats an absent key
  as "show the table". `Legacy.OverrideVersusShowTableFlag` records where the two versions agree
  and where they part ways. The model follows the code.

## Model

| member | source | states |
|---|---|---|
| `Config.Defaults` | config.py:50-71 | Before any refresh, the factor is 1, learn-per-day is 0, the finished-deck flag is true, the date format is day.month.year, and the colour keys are the thirteen defaults. |
| `Config.ScanFactors` | config.py:102-108 | The loop's final match length is never shorter than the starting one. If no fragment beat the starting length, the factor is unchanged. |
| `Config.ScanFindsLongestMatch` | config.py:102-108 | The loop ends with the factor of the earliest longest fragment that is a prefix of the deck name and longer than the starting length, or with the starting factor when there is none. |
| `Config.NoteCorrectionFactorIsLongestPrefixMatch` | config.py:97-112 | If no non-empty fragment is a prefix of the deck name, the refreshed factor is the previous factor, clamped. Otherwise it is the clamped factor of the longest matching fragment, and the earliest one wins among equally long fragments. |
| `Config.RefreshNoteCorrectionFactors` | config.py:97-112 | Without a factor table the current factor stays as it is, unclamped. With a table the factor is at least 1. |
| `Config.ClampFactor` | config.py:110-112 | A factor of 0 or less becomes exactly 1, and a factor of at least 1 is kept, so the result is always at least 1. |
| `Config.ResolveDateFormat` | config.py:74-85 | An absent key gives day.month.year. A value whose stripped, lower-cased form is `us`, `asia` or `eu` gives month/day/year, year/month/day or day.month.year. Any other value is kept verbatim, untrimmed and in its own case. |
| `Config.DateShorthandIgnoresCaseAndPadding` | config.py:75-81 | `us`, `asia` and `eu` in any letter case, padded with any whitespace, resolve to month/day/year, year/month/day and day.month.year. |
| `Config.PercentIsNoShorthand` | config.py:76-83 | A value starting with `%` is never read as a shorthand. |
| `Config.ResolveDateFormatIdempotent` | config.py:74-85 | A property of the model, since the add-on always resolves the user's raw value: resolving a resolved format again gives the same format. |
| `Config.RefreshStatColors` | config.py:88-94 | The colour keys and their order never change. Each key takes the value of its last entry in the user's table, or keeps its colour when the table does not mention it. Unknown keys are ignored, and an absent table changes nothing. |
| `OrderedDict.OverlayExisting` | config.py:92-94 | Overwriting only keys already present keeps the key sequence. Each key ends with the value of its last entry in the overlay, or its own value. |
| `OrderedDict.LastValueFromFront` | config.py:92-94 | Read front to back, a later entry overrides an earlier one: the last entry of a key lies in the tail whenever the tail has one. |
| `Config.RefreshLearnPerDay` | config.py:114-130 | The limit the host reports becomes the new value. When both lookups fail, the previous value stays. |
| `Config.ShowTableFlag` | config.py:133-139 | The flag is true exactly when the key is present and its value is true. An absent key gives false. |
| `Config.Refresh` | config.py:31-47 | With no dict, every attribute except `config` is unchanged. The colour keys are preserved, and a factor of at least 1 stays at least 1. With a dict, the factor table is scanned starting from the previous factor, not reset to 1. The colours are the previous ones with the user's overlaid. The flag is true exactly when the key is present and true. The date format is resolved from the dict, and learn-per-day is the host's limit or, failing that, the previous value. |
| `Config.CorrectionInvariant` | config.py:31-47 | Any number of refreshes from a factor of at least 1 leaves a factor of at least 1. Each refresh has its own host answer (dict, current deck and limit), so switching decks between refreshes is covered. |
| `Config.CorrectionStaysPositive` | config.py:67 | Starting from the defaults, the factor is at least 1 after any sequence of refreshes, whatever deck each refresh finds current. |
| `Strings.TrimStart` | config.py:76 | `lstrip` yields the suffix after exactly the leading whitespace. |
| `Strings.TrimEnd` | config.py:76 | `rstrip` yields the prefix before exactly the trailing whitespace. |
| `Strings.Strip` | config.py:76 | `strip` never lengthens the value, and what it yields has no whitespace at either end. |
| `Strings.StripIsInfix` | config.py:76 | The value is the stripped text with only whitespace before it and only whitespace after it. |
| `Strings.StripPadded` | config.py:76 | `strip` removes exactly the whitespace padding around a string whose ends are not whitespace. |
| `Strings.ParseIntToString` | data.py:155-158 | Reading back the decimal text written for any integer gives that integer. |
| `Division.FloorDiv` | data.py:113-119 | `a // b` for a positive factor is the floor quotient: `q*b <= a < (q+1)*b`. |
| `Division.FloorDivMonotone` | data.py:113-121 | Dividing a larger count by the factor never gives a smaller result. |
| `Division.FloorDivSuperadditive` | data.py:113-121 | `a // c + b // c <= (a + b) // c`. |
| `Division.CeilDiv` | data.py:133-135 | The result is the ceiling quotient, for a divisor of either sign. |
| `Division.CeilDivIsRealCeiling` | data.py:133-135 | The result is the ceiling of the exact rational `a / b`. |
| `Division.CeilDivIsLeast` | data.py:130-135 | For a positive rate, the result is the least `d` with `d * b >= a`. |
| `Data.QueryRow` | data.py:162-188 | The row has seven columns and its first is the card count. It has a NULL exactly when the deck has no cards. |
| `Data.SumColumn` | data.py:168-184 | A bucket column is NULL exactly over no rows, and otherwise counts its bucket. |
| `Data.BucketsAreDisjoint` | data.py:164-181 | The mature, young, unseen, buried and suspended buckets together count at most the deck's cards. |
| `Data.NormaliseRow` | data.py:190-194 | The length is preserved. If any value is `None`, every value becomes 0. Otherwise the values are kept. |
| `Data.NormalisedRowCounts` | data.py:162-194 | After normalisation each column is its bucket's count, whether or not the raw row had NULLs. |
| `Data.StatsDict` | data.py:113-126 | The stats dict has exactly the twelve stat keys, and each key holds its count, including `new`, `learning`, `review` and `due`. |
| `Data.RefreshStats` | data.py:109-126 | Each bucket and the total are floor quotients of their raw counts. `learned = mature + young`, `learned + unlearned = total`, the scheduler's counts are copied, and `due` adds the reviews to the learning cards due now. |
| `Data.CountsFromCardsAreConsistent` | data.py:113-121 | For counts taken from the deck's cards, every bucket is non-negative and together they fit in the total. `unlearned` is non-negative, for any correction factor. |
| `Data.QuotientsFitInTotal` | data.py:113-121 | Non-negative bucket counts that fit in the total still fit after each is floor-divided by the factor. |
| `Data.IsEmptyDeck` | data.py:71-80 | A deck whose corrected total is 0 shows every share as 0. Any other deck shows each count as its share of the total. |
| `Data.EmptyDeckIffFewerCardsThanCorrection` | data.py:71-80 | `is_empty_deck` holds exactly when the deck has fewer cards than the correction factor. |
| `Data.DaysUntilDone` | data.py:128-138 | The result is 0 for a zero rate. For a positive rate, `(d-1)*rate < unseen <= d*rate`, so `d` is the fewest days whose quota covers the unseen cards. A negative rate gives the ceiling as well. |
| `Data.DaysLeft` | data.py:155-158 | The text is "1 day" exactly for one day. Otherwise it is `str(days)` followed by " days", and that text reads back as the number. |
| `Data.Ratios` | data.py:201-227 | The keys are the stats' keys plus `total`, and `total` is 1. Every other entry is 0 for a zero denominator, and otherwise times the denominator gives back its count. |
| `Data.Percentages` | data.py:201-212 | The key set is exactly that of `stats` and `total` is 1. Every entry is 0 for an empty deck, and otherwise is its count over the total. |
| `Data.PercentagesWithoutSuspended` | data.py:215-227 | As `Percentages`, over the total less suspended cards, with every other entry 0 when that is 0. |
| `Data.SharesOfConsistentCounts` | data.py:201-212 | For consistent counts with a non-zero total, every bucket's share lies between 0 and 1, and the learned and unlearned shares add up to 1. |
| `Data.ShareBetweenZeroAndOne` | data.py:208-210 | The share of a count between 0 and a positive total lies between 0 and 1. |
| `Data.SharesAddUp` | data.py:208-210 | The shares of two counts that make up the total add up to 1. |
| `Data.RefreshedSharesAreProportions` | data.py:43-54 | After a refresh, for a deck that does not look empty, every bucket's share lies between 0 and 1, and the learned and unlearned shares add up to 1. |
| `Data.SumZeroIffAllZero` | data.py:69 | Non-negative counts sum to 0 exactly when each is 0. |
| `Data.IsFinished` | data.py:56-69 | The deck is finished exactly when the scheduler's new, learning and review counts sum to 0. |
| `Data.FinishedIffNothingScheduled` | data.py:56-69 | For the scheduler's non-negative counts, the deck is finished exactly when new, learning and review are all 0. |
| `Data.Labels` | data.py:83-106 | The label keys are the thirteen keys in order. Every label ends with ":" and is its name before the colon. |
| `Data.NewDeckData` | data.py:34-41 | A new object keeps the configuration it is given and has the colon-suffixed labels. Its stats, dates and both ratio maps are empty. |
| `Data.RefreshDeckData` | data.py:43-54 | The configuration is refreshed first. Each bucket and the total are then the deck's card counts floor-divided by the refreshed factor. `learned` is mature plus young and `unlearned` is the total less `learned`. The scheduler's counts are copied, and `due` adds the reviews to the learning cards due now. Both ratio maps are computed from those stats, so they have the twelve keys with `total` 1. `unlearned >= 0` and `suspended <= total`. The deck looks empty exactly when it has fewer cards than the factor. The dates hold the days until done and their text. |
| `Legacy.ResolveSettings` | More_Overview_Stats_2_1.py:83-131 | Every call starts from factor 1, so the factor ends at least 1. With no dict, all three settings are the defaults. With a dict, the date format resolves as in `config.py`, and the user's colours are laid over the twelve legacy defaults. |
| `Legacy.LegacyCorrectionIsLongestPrefixMatch` | More_Overview_Stats_2_1.py:98-114 | The factor is 1 when no fragment matches. Otherwise it is the clamped factor of the longest matching fragment, and the earliest one wins among equally long fragments. |
| `Legacy.DeriveCards` | More_Overview_Stats_2_1.py:167-183 | Buckets and total are floor quotients. `learned = mature + young`, `unlearned = total - learned` and `total_without_suspended = total - suspended`. |
| `Legacy.LegacyUnlearnedNonNegative` | More_Overview_Stats_2_1.py:169-176 | When mature and young together fit in the raw total, `unlearned` is non-negative. |
| `Legacy.RatioCounts` | More_Overview_Stats_2_1.py:204-217 | The percentage columns are exactly the ten legacy keys, and each key holds its own count. |
| `Legacy.LegacyPercentages` | More_Overview_Stats_2_1.py:204-218 | The division fails exactly when the corrected total is 0. Otherwise the ratios are the ones `data.py` computes over the total for the same ten columns, so `total` is 1 and every entry times the total gives back its count. |
| `Legacy.LegacyPercentagesWithoutSuspended` | More_Overview_Stats_2_1.py:220-247 | The keys are the ten columns and `total` is 1. When the total less suspended cards is 0, every other ratio is 0. For cards whose denominator is the total less suspended, the ratios are the ones `data.py` computes without suspended cards. |
| `Legacy.OverviewTable` | More_Overview_Stats_2_1.py:133-247 | The output is the "No cards found." paragraph exactly when the raw total is 0. It fails with division by zero exactly when `0 < total < factor`. A table is built from the resolved settings and the counts derived over the resolved factor. Its ratios are the two legacy percentage maps of those cards. Its days are computed with a missing rate read as 0, and the day text comes from them. |
| `Legacy.ZeroCorrectedTotal` | More_Overview_Stats_2_1.py:162-174 | A positive raw total floors to 0 exactly when it is below the factor. |
| `Legacy.RawTotalGuardLetsZeroDivisionThrough` | More_Overview_Stats_2_1.py:162-206 | A one-card deck under a factor of 2 passes the raw-total check and then divides by zero. |
| `Legacy.GuardedOverviewTable` | More_Overview_Stats_2_1.py:162-218 | With the corrected total guarded, every deck with cards gets its table. The table is built from the resolved settings and the counts derived over the resolved factor. Its days and day text are computed as in the legacy table. Its shares are the guarded ratios over the corrected total, all 0 when that total is 0, and `total` is 1. |
| `Legacy.GuardedOverviewAgreesWhereLegacySucceeds` | More_Overview_Stats_2_1.py:204-218 | Wherever the legacy table is produced, the guarded version produces the same table. |
| `Legacy.IsFinishedOverride` | More_Overview_Stats_2_1.py:478-487 | The override is true exactly when the scheduler says finished, a dict exists, and it sets the flag to false. |
| `Legacy.OverrideVersusShowTableFlag` | More_Overview_Stats_2_1.py:478-487 | With the key present, the override is "finished and not showing the table". With the key absent, the override is false while the later flag is also false. |

## Left out

- table.py: HTML and CSS templating. Its only logic is gating on `is_finished`, which is modelled by `Data.IsFinished`. The HTML text of the legacy table is left out for the same reason.
- Host calls are parameters: the SQL text, `sched.counts()`, `decks.current()`, `config_dict_for_deck_id`/`confForDid`, `getConfig` and `mw.button`. The card rows stand in for the database.
- `date.today()`, `timedelta`, `strftime` and the `showInfo` fallback for a bad format. The done date depends on the calendar, so only the days count and the "N day(s)" text are modelled, and the date format is an opaque string.
- Float formatting (`:.0%`) and float rounding in `unseen / learn_per_day`. The model uses exact reals and exact integer ceilings.
- The monkey-patching of `Overview._table` and `Scheduler._is_finished`, which is a side effect on the host. `Legacy.IsFinishedOverride` takes the original check's answer as a parameter.
- `AddonConfig.__init__` on a `None` dict raises in Python. Only the default values (`Config.Defaults`) are modelled; the refreshers it calls are those of `refresh`.
- `int(factor)` on a string or float factor is left out. Factors are integers in the model.
- User dict values of the wrong type (say, a non-string "Date Format", which raises AttributeError) are left out. The record's fields are typed.
- The `except` branch around the days computation in data.py:136-138 is left out. It catches the OverflowError raised when `unseen / learn_per_day` leaves the float range and then uses 0 days. The model divides exact integers, so it has no float range.
- The translated legacy labels (`_()`) and `print` calls are left out.
- Strings.Lower: lowers ASCII capitals only, while Python's `str.lower` covers all of Unicode. Only ASCII capitals lower to the letters of `us`, `asia` and `eu` (U+0130 lowers to two characters), so shorthand recognition is unaffected.
- Data.FinishedIffNothingScheduled: states the equivalence with "all counts are 0" only for non-negative counts, which is what the scheduler reports. For other inputs `Data.IsFinished` is still `sum == 0`, by definition.

## Findings

| source | as written | input that shows it | evidently intended | confidence | as-written member | corrected member |
|---|---|---|---|---|---|---|
| More_Overview_Stats_2_1.py:162-206 | only the raw `total` is checked for 0; the ratios then divide by the corrected `cards['total']` | a deck "Japanese::Vocabulary" with one card, factor table `{"Japanese": 2}`: raw total 1, corrected total 0, ZeroDivisionError | guard the corrected total, as data.py:205 later does | high; not executed | `Legacy.OverviewTable`, `Legacy.RawTotalGuardLetsZeroDivisionThrough` | `Legacy.GuardedOverviewTable`, `Legacy.GuardedOverviewAgreesWhereLegacySucceeds` |
