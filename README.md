# PurityBot and ChapoBot, modelled in Dafny

PurityBot watches the comment stream of a subreddit. For every comment it has
not recorded yet, it looks at the author's recent submissions. It counts how
many were posted in each of a configured list of "impure" subreddits, and it
caches that count map per author for a cooldown period. `determine_bias` then
reduces the count map to one verdict `(subreddit, count)`. A warning is built
when a fresh scan's verdict count exceeds the purity threshold. Finally, one
row is written to the SQLite ledger `Replied_To`: the comment identifier, the
author, and the flag `count > threshold`. ChapoBot is its single-subreddit
predecessor. It counts the author's 200 newest submissions in
`ChapoTrapHouse` and flags a count above 10.

The project has these files:

- `wrappers.dfy`: `Option` and `Result`.
- `reddit.dfy`: the data the Reddit client supplies.
  - A comment is an identifier and an author name.
  - A history is the author's submissions' subreddit names, newest first.
  - `NewSubmissions` is `submissions.new(limit=…)`.
  - An `Event` is one streamed comment together with that author's history and the cache keys that expire before it arrives.
- `bias.dfy`: `determine_bias` and `determine_magnitude`.
  - A Python dict is modelled as its items in insertion order.
  - `sorted(…, reverse=True)` is modelled as a stable insertion sort.
  - `math.log10` of a count below one is the error `MathDomainError`.
- `tally.dfy`: the count map that `_count_impure_posts` builds with `defaultdict(int)`.
- `ledger.dfy`: the `Replied_To` table, as a `Database` class holding a map from identifier to row.
- `puritybot.dfy`: the `PurityBot` class.
  - The cache and the ledger are its state.
  - `ProcessComment` is one pass of the `stream` loop.
  - `Stream` runs the loop over a finite run of events.
- `chapobot.dfy`: the `ChapoBot` class, with the same structure.

Two behaviours of the code (puritybot/bot.py:65-75) are easy to miss:

- A zero count is not "minus infinity". `int(math.log10(0))` raises, so `DetermineBias` returns `Err(MathDomainError)` when one of the two largest counts is below one. This cannot happen on the maps the scan builds, since every count there is at least one (`PositiveCountsNeverFail`, `ScanVerdict`).
- When the two largest counts are equal, the code returns `sorted_items[1]`, the second item of the stable sort, not the first (`DetermineBiasTieGoesToSecond`).

The code also has neither a forced-reply command path nor a skip for deleted authors, so the model has neither.

## Model

| member | source | states |
|---|---|---|
| Reddit.NewSubmissions | puritybot/bot.py:26 | the scanned submissions are the newest ones of the history: a prefix of it, at most `limit` long, and the whole history when it is shorter |
| Bias.Magnitude | puritybot/bot.py:78-79 | for a count of at least one, `10^m <= x < 10^(m+1)`, i.e. the truncated base-10 logarithm |
| Bias.MagnitudeUnique | puritybot/bot.py:78-79 | those bounds determine the magnitude: it is exactly floor(log10 x) |
| Bias.MagnitudeMonotone | puritybot/bot.py:65-70 | a larger count never has a smaller magnitude |
| Bias.SortByCount | puritybot/bot.py:64 | the sort keeps the number of items; `SortByCountCorrect` and `SortByCountStable` prove it a stable descending permutation |
| Bias.SortByCountCorrect | puritybot/bot.py:64 | the sort returns a permutation (same multiset) of the items, with counts non-increasing |
| Bias.SortByCountStable | puritybot/bot.py:64 | the sort is stable: for every count, the items holding it keep their insertion order |
| Bias.DetermineBias | puritybot/bot.py:56-75 | an empty map gives `('', 0)`, a single item is returned as it is, and any verdict is an item of the map |
| Bias.CompareTopTwo | puritybot/bot.py:65-75 | comparing the two largest raises exactly when one of their counts is below one; otherwise it returns one of the two, and on sorted counts the strictly larger count wins with ties going to the second |
| Bias.SecondMagnitudeNeverLarger | puritybot/bot.py:67-70 | after the sort, the second count's magnitude never exceeds the first's, so the branch returning the second item for a larger magnitude is dead |
| Bias.DetermineBiasIsWinner | puritybot/bot.py:63-75 | with at least two items and at least two positive counts the verdict is the reference `Winner`: among the items holding the largest count, the second in insertion order if there are several, else the only one |
| Bias.DetermineBiasReturnsMaximum | puritybot/bot.py:63-75 | with at least two items and at least two positive counts the verdict is an item of the map and no item has a larger count |
| Bias.PositiveCountsNeverFail | puritybot/bot.py:56-79 | a map whose counts are all at least one never makes `determine_bias` raise |
| Bias.DetermineBiasTieGoesToSecond | puritybot/bot.py:72-75 | with at least two positive counts, when the two largest counts are equal the verdict is the second sorted item, which is the second item holding the maximum in insertion order |
| Bias.AllPositiveCount | puritybot/bot.py:63-66 | in a map whose counts are all at least one, every item is positive, so the two largest are too |
| Bias.DetermineBiasFails | puritybot/bot.py:63-66 | `determine_bias` raises exactly when the map has two or more items and fewer than two of them are positive |
| Bias.DetermineBiasExamples | puritybot/bot.py:56-79 | the verdicts on small maps: empty, one item, magnitude 2 beats 0, equal magnitudes with a larger count, a later larger count, an exact tie, and zero counts raising |
| ImpureTally.Increment | puritybot/bot.py:28 | `counts[name] += 1` raises the count read for `name` by one and adds at most one item; `IncrementShape`, `IncrementLookup` and the lemmas below give the rest |
| ImpureTally.IncrementNames | puritybot/bot.py:28 | the keys are unchanged when `name` is present, and `name` is appended otherwise |
| ImpureTally.IncrementShape | puritybot/bot.py:28 | `counts[name] += 1` keeps every key in place, keeps the length for an existing key, and appends `(name, 1)` for a new one |
| ImpureTally.IncrementDistinct | puritybot/bot.py:28 | incrementing keeps the keys distinct |
| ImpureTally.IncrementLookup | puritybot/bot.py:28 | incrementing raises the read count of that key by one and leaves every other key's count unchanged |
| ImpureTally.IncrementTotal | puritybot/bot.py:28 | incrementing raises the sum of counts by one |
| ImpureTally.IncrementPositive | puritybot/bot.py:28 | incrementing keeps every count at least one |
| ImpureTally.LookupAbsent | puritybot/bot.py:25 | a key not in the map reads as zero, as `defaultdict(int)` does |
| ImpureTally.LookupDistinct | puritybot/bot.py:25-28 | in a map with distinct keys, reading an item's key gives that item's count |
| ImpureTally.Tally | puritybot/bot.py:25-28 | the dict built by the loop has at most one item per scanned submission; `TallyWellFormed` and `TallyCounts` give its keys and counts |
| ImpureTally.TallyWellFormed | puritybot/bot.py:24-30 | the scan builds a dict with distinct keys and counts of at least one, whose keys are exactly the impure subreddits that occur in the scanned submissions |
| ImpureTally.TallyCounts | puritybot/bot.py:24-30 | reading any subreddit gives the number of scanned submissions posted there if it is impure, and zero otherwise |
| ImpureTally.TallyTotal | puritybot/bot.py:26-28 | the counts add up to at most the number of scanned submissions |
| ImpureTally.TallyInFirstSeenOrder | puritybot/bot.py:26-28 | every key is a scanned subreddit, and keys appear in the order their subreddit first occurs in the newest-first history |
| ImpureTally.FirstSeenOrderStep | puritybot/bot.py:26-28 | one more scanned submission keeps the keys scanned and in first-seen order, whether it bumps a key or appends a new one |
| Ledger.Database.constructor | puritybot/model.py:10-23 | the ledger opens with the rows already stored |
| Ledger.Database.IdentifierExists | puritybot/model.py:34-42 | reports exactly whether a row with that identifier is stored |
| Ledger.Database.InsertNewRecord | puritybot/model.py:44-56 | adds the row `(poster, flag)` under a new identifier; an identifier that is already stored (the primary key) is refused and nothing changes |
| Ledger.LedgerAfterStep | puritybot/bot.py:35-53 | handling one more comment, by skipping it exactly when its identifier is stored and otherwise storing its row under it, keeps the ledger invariant of the stream: keys, untouched old rows, skip exactly on a repeated identifier, each row under its identifier. `ChapoBot.ChapoBot.Stream` rests on the same lemma for chapobot/bot.py:29-40 |
| PurityBot.ScanCounts | puritybot/bot.py:24-30 | the scanned map has at most `post_lookback` items and at most one per submission of the history |
| PurityBot.ScanVerdict | puritybot/bot.py:41-43 | on a fresh scan the verdict never raises; it is `('', 0)` exactly when no scanned submission is impure; otherwise it is an impure subreddit with its exact number of scanned submissions, which no impure subreddit exceeds |
| PurityBot.RowsSnoc | puritybot/bot.py:32-53 | handling one more comment extends the rows by that comment's row |
| PurityBot.LedgerOutcomes | puritybot/bot.py:32-53 | from the ledger invariant after a whole run: the stored identifiers are the old ones plus the run's, a comment is skipped exactly when its identifier was stored or seen earlier, and each recorded comment's row is `(author, verdict count > threshold)` |
| PurityBot.VerdictsAfterStep | puritybot/bot.py:37-52 | one more expiry and comment, handled as `ProcessComment` promises, keeps the cache equal to the replay `CacheAfter` and every recorded comment's verdict explained by a scan or by the cache as it stood |
| PurityBot.ScannedByPrefix | puritybot/bot.py:37-40 | whether comment k triggered a scan depends only on the run up to k |
| PurityBot.LastScan | puritybot/bot.py:37-40 | the latest comment that scanned an author, or none, and then no comment scanned that author |
| PurityBot.CacheAfterSource | puritybot/bot.py:37-41 | a cached map is the scan made by the author's latest scanning comment, or the initial entry when no comment scanned the author |
| PurityBot.CacheHitRepeatsVerdict | puritybot/bot.py:37-52 | on a cache hit the verdict repeats that of the author's latest earlier scan, or that of the initial cache entry when there was none |
| PurityBot.PurityBot.constructor | puritybot/bot.py:15-22 | stores the configuration and the ledger, with an empty cache |
| PurityBot.PurityBot.CountImpurePosts | puritybot/bot.py:24-30 | the loop returns the tally of the `post_lookback` newest submissions and caches it under the author's name, leaving other cache entries alone |
| PurityBot.PurityBot.Expire | puritybot/bot.py:19 | expiry of the `ExpiringDict` only removes entries |
| PurityBot.PurityBot.ProcessComment | puritybot/bot.py:35-53 | skips a recorded comment without touching the cache or the ledger. Otherwise: scans exactly on a cache miss and caches the scan; the verdict is `determine_bias` of the author's cached map; a warning with the subreddit, lookback and count is built exactly on a fresh scan over the threshold; exactly one row `(author, count > threshold)` is added |
| PurityBot.PurityBot.Stream | puritybot/bot.py:32-53 | over any run of comments, the ledger gains exactly the new identifiers and keeps existing rows. A comment is skipped exactly when its identifier was stored before or seen earlier in the run. Every handled comment's row carries its author and flag. The cache ends as the replay `CacheAfter` of the expiries and scans. Every handled comment scans exactly on a miss in the cache as it stood after that comment's expiry; its verdict is `determine_bias` of the fresh scan or of the cached map, and its warning is built exactly on a fresh scan over the threshold |
| PurityBot.TallyOneSub | puritybot/bot.py:24-30 | a history entirely in one impure subreddit tallies to that subreddit with the history's length |
| PurityBot.FlaggedAuthorExample | puritybot/bot.py:35-53 | comment "c1" by an author with 15 submissions in the impure "Flagged", threshold 10: scanned, verdict ("Flagged", 15), warning built, row recorded as flagged |
| ChapoBot.RowsSnoc | chapobot/bot.py:23-40 | handling one more comment extends the rows by that comment's row |
| ChapoBot.LedgerOutcomes | chapobot/bot.py:23-40 | from the ledger invariant after a whole run: the stored identifiers are the old ones plus the run's, a comment is skipped exactly when its identifier was stored or seen earlier, and each recorded comment's row is `(author, count > 10)` |
| ChapoBot.CountsAfterStep | chapobot/bot.py:28-40 | one more expiry and comment, handled as `ProcessComment` promises, keeps every recorded count between 0 and 200 and explained by a scan or by the cache as it stood |
| ChapoBot.ScannedByPrefix | chapobot/bot.py:28-31 | whether comment k triggered a scan depends only on the run up to k |
| ChapoBot.LastScan | chapobot/bot.py:28-31 | the latest comment that scanned an author, or none, and then no comment scanned that author |
| ChapoBot.CacheAfterSource | chapobot/bot.py:28-32 | a cached count is the count found by the author's latest scanning comment, or the initial entry when no comment scanned the author |
| ChapoBot.CacheHitRepeatsCount | chapobot/bot.py:28-40 | on a cache hit the count repeats that of the author's latest earlier scan, or the initial cache entry when there was none |
| ChapoBot.ChapoBot.constructor | chapobot/bot.py:10-13 | stores the ledger, with an empty cache |
| ChapoBot.ChapoBot.CountChapoPosts | chapobot/bot.py:15-21 | the loop returns the number of the 200 newest submissions posted in ChapoTrapHouse, between 0 and 200, and caches it under the author's name |
| ChapoBot.ChapoBot.Expire | chapobot/bot.py:13 | expiry of the `ExpiringDict` only removes entries |
| ChapoBot.ChapoBot.ProcessComment | chapobot/bot.py:26-40 | skips a recorded comment without touching the cache or the ledger. Otherwise: scans exactly on a cache miss; a warning is built exactly on a fresh scan with more than 10; exactly one row `(author, count > 10)` is added, also on a cache hit; the count is between 0 and 200 |
| ChapoBot.ChapoBot.Stream | chapobot/bot.py:23-40 | over any run of comments, the ledger gains exactly the new identifiers and keeps existing rows. A comment is skipped exactly when its identifier was stored before or seen earlier in the run. Every handled comment's row carries its author and `count > 10`. The cache ends as the replay `CacheAfter`. Every handled comment scans exactly on a miss in the cache as it stood after its expiry; its count, between 0 and 200, is the number of ChapoTrapHouse posts among the 200 newest submissions on a scan and the cached count otherwise |

## Left out

- Reddit access (`praw`): the client, the live comment stream and the submission listing are replaced by values. The stream becomes a finite sequence of events, and each author's history is a sequence of subreddit names. Reddit's own cap on listing length is not modelled.
- Deleted authors: `comment.author` is `None` for a deleted account, and `comment.author.name` then raises and ends the stream. The model's comments always have an author name.
- `ExpiringDict` time-to-live (`harassment_cooldown`, 900 seconds in ChapoBot) and its 10000-entry capacity: there is no clock. Expiry is an `Expire` step that removes whatever keys the environment chooses before each comment. The model therefore covers any expiry order, but it does not state which entries a given time or capacity evicts.
- SQLite and SQLAlchemy: the engine, table creation and connection caching are not modelled. The ledger is the map of its rows.
- Column name: the third column is named `Is_Pure` (puritybot/model.py:19), but the bots store the impure flag in it (puritybot/bot.py:53). The model calls the column `flag` and stores what the bots store.
- Ledger.Database.InsertNewRecord: a duplicate identifier returns `false` here, where SQLite raises an integrity error. The stream never inserts a duplicate, because `ProcessComment` only inserts identifiers that are not yet stored.
- Start-up defect: `model.Database()` is called without the `db_name` argument that `Database.__init__` requires (puritybot/bot.py:18, puritybot/model.py:10), so the bot as written fails at start-up. The model's constructor takes the opened ledger's rows instead.
- Floating point: `Magnitude` is the exact floor of the base-10 logarithm. `math.log10` could round differently for counts of about 10^15 and above, far beyond any lookback.
- Output: `print` logging and the rendered warning text are left out. A `Warning` holds only the values the message interpolates. The reply itself (`comment.reply`) is commented out in both bots, so no reply is sent.
- Configuration and start-up: `configparser` and the `__main__` blocks are not modelled. PurityBot's `post_lookback` is a natural number, so a negative lookback is not modelled.
- Exceptions in the middle of the stream (network or database errors) are not modelled. Such an error ends the loop.
