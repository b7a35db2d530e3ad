/**
 * PurityBot: watches the comments of a subreddit and, for each comment not
 * seen before, decides whether its author posts mostly in the configured
 * impure subreddits, from the author's recent submissions or from a
 * per-author cache of an earlier scan, then records the comment in the
 * ledger with the impure flag.
 */
module PurityBot {
  import opened Wrappers
  import opened Reddit
  import opened Bias
  import opened ImpureTally
  import opened Ledger

  /** The warning `stream` builds for an impure author: the values it interpolates. */
  datatype Warning = Warning(author: string, subName: string, lookback: nat, count: int)

  /** What one pass of the `stream` loop did with a comment. */
  datatype Outcome =
    | AlreadyRecorded
    | Recorded(scanned: bool, verdict: Entry, warning: Option<Warning>)

  /**
   * The count map `_count_impure_posts` returns for an author whose history
   * is `history`: the scan of the `postLookback` newest submissions.
   */
  function ScanCounts(history: seq<string>, postLookback: nat, impureSubs: seq<string>): (r: CountMap)
    ensures |r| <= postLookback && |r| <= |history|
  {
    Tally(NewSubmissions(history, postLookback), impureSubs)
  }

  /** A count map the scan can produce: a dict of impure subreddits with positive counts. */
  ghost predicate IsScan(counts: CountMap, impureSubs: seq<string>) {
    && DistinctNames(counts)
    && AllPositive(counts)
    && forall name | name in Names(counts) :: name in impureSubs
  }

  /**
   * The verdict on a fresh scan is what the warning reports: an impure
   * subreddit, the number of scanned submissions posted there, and no
   * impure subreddit has more. With no impure submissions it is `('', 0)`.
   */
  lemma ScanVerdict(history: seq<string>, postLookback: nat, impureSubs: seq<string>)
    ensures DetermineBias(ScanCounts(history, postLookback, impureSubs)).Ok?
    ensures var scanned := NewSubmissions(history, postLookback);
            var verdict := DetermineBias(ScanCounts(history, postLookback, impureSubs)).value;
            && (forall sub | sub in impureSubs :: multiset(scanned)[sub] <= verdict.1)
            && (verdict == ("", 0) || (verdict.0 in impureSubs && verdict.1 == multiset(scanned)[verdict.0] >= 1))
            && (verdict == ("", 0) <==> forall sub | sub in scanned :: sub !in impureSubs)
  {
    var scanned := NewSubmissions(history, postLookback);
    var counts := ScanCounts(history, postLookback, impureSubs);
    TallyWellFormed(scanned, impureSubs);
    PositiveCountsNeverFail(counts);
    var verdict := DetermineBias(counts).value;
    if counts == [] {
      forall sub | sub in impureSubs
        ensures multiset(scanned)[sub] == 0
      {
        assert sub !in Names(counts);
      }
    } else {
      if |counts| >= 2 {
        AllPositiveCount(counts);
        DetermineBiasReturnsMaximum(counts);
      }
      var k :| 0 <= k < |counts| && counts[k] == verdict;
      assert Names(counts)[k] == verdict.0;
      LookupDistinct(counts, k);
      TallyCounts(scanned, impureSubs, verdict.0);
      forall sub | sub in impureSubs
        ensures multiset(scanned)[sub] <= verdict.1
      {
        if sub in scanned {
          assert sub in Names(counts);
          var j :| 0 <= j < |counts| && Names(counts)[j] == sub;
          LookupDistinct(counts, j);
          TallyCounts(scanned, impureSubs, sub);
          assert counts[j] in counts;
        }
      }
      assert Names(counts)[0] in Names(counts);
    }
  }

  /** The ledger row `stream` writes for a comment, or None when it skips it. */
  function Row(event: Event, outcome: Outcome, threshold: int): Option<Record> {
    match outcome
    case AlreadyRecorded => None
    case Recorded(_, verdict, _) => Some(Record(event.comment.author, verdict.1 > threshold))
  }

  /** The rows written for the comments of `outcomes`. */
  function Rows(events: seq<Event>, outcomes: seq<Outcome>, threshold: int): (rows: seq<Option<Record>>)
    requires |outcomes| <= |events|
    ensures |rows| == |outcomes|
    ensures forall j | 0 <= j < |outcomes| :: rows[j] == Row(events[j], outcomes[j], threshold)
  {
    seq(|outcomes|, j requires 0 <= j < |outcomes| => Row(events[j], outcomes[j], threshold))
  }

  /** Rows of one more handled comment extend the rows before it. */
  lemma RowsSnoc(events: seq<Event>, outcomes: seq<Outcome>, outcome: Outcome, threshold: int)
    requires |outcomes| < |events|
    ensures Rows(events, outcomes + [outcome], threshold) == Rows(events, outcomes, threshold) + [Row(events[|outcomes|], outcome, threshold)]
  {
  }

  /** `LedgerAfter` over the rows of a whole run, read back in terms of its outcomes. */
  lemma LedgerOutcomes(initial: map<string, Record>, records: map<string, Record>,
                       events: seq<Event>, outcomes: seq<Outcome>, threshold: int)
    requires |outcomes| == |events|
    requires LedgerAfter(initial, records, events, Rows(events, outcomes, threshold))
    ensures records.Keys == initial.Keys + CommentIds(events)
    ensures forall i | 0 <= i < |events| ::
      outcomes[i] == AlreadyRecorded <==>
        events[i].comment.id in initial || events[i].comment.id in CommentIds(events[..i])
    ensures forall i | 0 <= i < |events| && outcomes[i].Recorded? ::
      events[i].comment.id in records &&
        records[events[i].comment.id] == Record(events[i].comment.author, outcomes[i].verdict.1 > threshold)
  {
    var rows := Rows(events, outcomes, threshold);
    assert events[..|rows|] == events;
    forall i | 0 <= i < |events|
      ensures outcomes[i] == AlreadyRecorded <==>
                events[i].comment.id in initial || events[i].comment.id in CommentIds(events[..i])
      ensures outcomes[i].Recorded? ==>
                events[i].comment.id in records &&
                records[events[i].comment.id] == Record(events[i].comment.author, outcomes[i].verdict.1 > threshold)
    {
      assert rows[i] == Row(events[i], outcomes[i], threshold);
    }
  }

  /**
   * What handling a comment that was not yet recorded gives, when the cache
   * held `cache` as the comment arrived: a scan exactly on a miss, the
   * verdict of `determine_bias` on the fresh scan or on the cached map, and a
   * warning exactly on a fresh scan whose verdict count exceeds `threshold`.
   */
  ghost predicate Handled(cache: map<string, CountMap>, comment: Comment, history: seq<string>, outcome: Outcome,
                          postLookback: nat, threshold: int, impureSubs: seq<string>)
    requires outcome.Recorded?
  {
    && (outcome.scanned <==> comment.author !in cache)
    && DetermineBias(if outcome.scanned then ScanCounts(history, postLookback, impureSubs)
                     else cache[comment.author]) == Ok(outcome.verdict)
    && (outcome.warning.Some? <==> outcome.scanned && outcome.verdict.1 > threshold)
    && (outcome.warning.Some? ==>
          outcome.warning.value == Warning(comment.author, outcome.verdict.0, postLookback, outcome.verdict.1))
  }

  /**
   * The cache after the stream has handled the comments of `outcomes`,
   * starting from `initial`: before each comment the expired entries go, and
   * each fresh scan is cached under its author.
   */
  function CacheAfter(initial: map<string, CountMap>, events: seq<Event>, outcomes: seq<Outcome>,
                      postLookback: nat, impureSubs: seq<string>): map<string, CountMap>
    requires |outcomes| <= |events|
  {
    if outcomes == [] then initial
    else
      var n := |outcomes| - 1;
      var cache := CacheAfter(initial, events, outcomes[..n], postLookback, impureSubs) - events[n].expired;
      if outcomes[n].Recorded? && outcomes[n].scanned
      then cache[events[n].comment.author := ScanCounts(events[n].history, postLookback, impureSubs)]
      else cache
  }

  /** The comment at index `k` was handled by scanning `author`. */
  predicate ScannedBy(events: seq<Event>, outcomes: seq<Outcome>, k: nat, author: string) {
    k < |outcomes| && k < |events| && outcomes[k].Recorded? && outcomes[k].scanned &&
    events[k].comment.author == author
  }

  /**
   * The cache and the verdicts after the stream has handled the first
   * |outcomes| of `events`: the cache is `CacheAfter`, and each recorded
   * comment was handled against the cache as it stood when it arrived.
   */
  ghost predicate VerdictsAfter(initial: map<string, CountMap>, cache: map<string, CountMap>,
                                events: seq<Event>, outcomes: seq<Outcome>,
                                postLookback: nat, threshold: int, impureSubs: seq<string>)
  {
    && |outcomes| <= |events|
    && cache == CacheAfter(initial, events, outcomes, postLookback, impureSubs)
    && forall j | 0 <= j < |outcomes| && outcomes[j].Recorded? ::
         Handled(CacheAfter(initial, events, outcomes[..j], postLookback, impureSubs) - events[j].expired,
                 events[j].comment, events[j].history, outcomes[j], postLookback, threshold, impureSubs)
  }

  /** Expiry then one more comment handled as `ProcessComment` promises keeps `VerdictsAfter`. */
  lemma VerdictsAfterStep(initial: map<string, CountMap>, before: map<string, CountMap>, after: map<string, CountMap>,
                          events: seq<Event>, outcomes: seq<Outcome>, outcome: Outcome,
                          postLookback: nat, threshold: int, impureSubs: seq<string>)
    requires |outcomes| < |events|
    requires VerdictsAfter(initial, before, events, outcomes, postLookback, threshold, impureSubs)
    requires var e := events[|outcomes|];
             var cache := before - e.expired;
             && (outcome.Recorded? ==> Handled(cache, e.comment, e.history, outcome, postLookback, threshold, impureSubs))
             && after == if outcome.Recorded? && outcome.scanned
                         then cache[e.comment.author := ScanCounts(e.history, postLookback, impureSubs)]
                         else cache
    ensures VerdictsAfter(initial, after, events, outcomes + [outcome], postLookback, threshold, impureSubs)
  {
    var i := |outcomes|;
    var extended := outcomes + [outcome];
    assert extended[..i] == outcomes;
    forall j | 0 <= j < i + 1 && extended[j].Recorded?
      ensures Handled(CacheAfter(initial, events, extended[..j], postLookback, impureSubs) - events[j].expired,
                      events[j].comment, events[j].history, extended[j], postLookback, threshold, impureSubs)
    {
      if j < i {
        assert extended[j] == outcomes[j];
        assert extended[..j] == outcomes[..j];
      }
    }
  }

  /** Whether the comment at index `k` is scanned the same way in a prefix of `outcomes` as in `outcomes`. */
  lemma ScannedByPrefix(events: seq<Event>, outcomes: seq<Outcome>, n: nat, author: string)
    requires n <= |outcomes|
    ensures forall k: nat | k < n :: ScannedBy(events, outcomes[..n], k, author) == ScannedBy(events, outcomes, k, author)
  {
    forall k: nat | k < n
      ensures ScannedBy(events, outcomes[..n], k, author) == ScannedBy(events, outcomes, k, author)
    {
      assert outcomes[..n][k] == outcomes[k];
    }
  }

  /** The index of the latest comment of `outcomes` handled by scanning `author`, if any. */
  function LastScan(events: seq<Event>, outcomes: seq<Outcome>, author: string): (r: Option<nat>)
    ensures r.Some? ==>
      && ScannedBy(events, outcomes, r.value, author)
      && forall k: nat | r.value < k < |outcomes| :: !ScannedBy(events, outcomes, k, author)
    ensures r.None? ==> forall k: nat | k < |outcomes| :: !ScannedBy(events, outcomes, k, author)
  {
    if outcomes == [] then None
    else
      var n := |outcomes| - 1;
      if ScannedBy(events, outcomes, n, author) then Some(n)
      else
        ScannedByPrefix(events, outcomes, n, author);
        LastScan(events, outcomes[..n], author)
  }

  /**
   * An entry of the cache after the stream is the latest scan of that author
   * in the stream or, when there was none, the entry cached before it.
   */
  lemma {:induction false} CacheAfterSource(initial: map<string, CountMap>, events: seq<Event>, outcomes: seq<Outcome>,
                                            postLookback: nat, impureSubs: seq<string>, author: string)
    requires |outcomes| <= |events|
    requires author in CacheAfter(initial, events, outcomes, postLookback, impureSubs)
    ensures var cached := CacheAfter(initial, events, outcomes, postLookback, impureSubs)[author];
            match LastScan(events, outcomes, author)
            case None => author in initial && cached == initial[author]
            case Some(j) => cached == ScanCounts(events[j].history, postLookback, impureSubs)
  {
    if outcomes != [] {
      var n := |outcomes| - 1;
      if !ScannedBy(events, outcomes, n, author) {
        CacheAfterSource(initial, events, outcomes[..n], postLookback, impureSubs, author);
      }
    }
  }

  /**
   * A comment handled from the cache gets the verdict of the latest earlier
   * scan of its author in the stream or, when there was none, the verdict on
   * the entry cached before the stream.
   */
  lemma CacheHitRepeatsVerdict(initial: map<string, CountMap>, events: seq<Event>, outcomes: seq<Outcome>,
                               postLookback: nat, threshold: int, impureSubs: seq<string>, i: nat)
    requires |outcomes| <= |events|
    requires forall j | 0 <= j < |outcomes| && outcomes[j].Recorded? ::
               Handled(CacheAfter(initial, events, outcomes[..j], postLookback, impureSubs) - events[j].expired,
                       events[j].comment, events[j].history, outcomes[j], postLookback, threshold, impureSubs)
    requires i < |outcomes| && outcomes[i].Recorded? && !outcomes[i].scanned
    ensures var author := events[i].comment.author;
            || (author in initial && DetermineBias(initial[author]) == Ok(outcomes[i].verdict) &&
                forall k: nat | k < i :: !ScannedBy(events, outcomes, k, author))
            || (exists j: nat | j < i ::
                  ScannedBy(events, outcomes, j, author) && outcomes[j].verdict == outcomes[i].verdict &&
                  forall k: nat | j < k < i :: !ScannedBy(events, outcomes, k, author))
  {
    var author := events[i].comment.author;
    var pre := outcomes[..i];
    assert Handled(CacheAfter(initial, events, pre, postLookback, impureSubs) - events[i].expired,
                   events[i].comment, events[i].history, outcomes[i], postLookback, threshold, impureSubs);
    var cached := CacheAfter(initial, events, pre, postLookback, impureSubs)[author];
    assert DetermineBias(cached) == Ok(outcomes[i].verdict);
    ScannedByPrefix(events, outcomes, i, author);
    CacheAfterSource(initial, events, pre, postLookback, impureSubs, author);
    var last := LastScan(events, pre, author);
    if last.Some? {
      var j := last.value;
      assert Handled(CacheAfter(initial, events, outcomes[..j], postLookback, impureSubs) - events[j].expired,
                     events[j].comment, events[j].history, outcomes[j], postLookback, threshold, impureSubs);
      assert ScannedBy(events, outcomes, j, author);
      assert forall k: nat | j < k < i :: !ScannedBy(events, outcomes, k, author);
    } else {
      assert forall k: nat | k < i :: !ScannedBy(events, outcomes, k, author);
    }
  }

  class PurityBot {
    const postLookback: nat
    const purityThreshold: int
    const impureSubs: seq<string>
    const db: Database
    /** `_purity_cache`: author name to the count map of their last scan. */
    var purityCache: map<string, CountMap>

    /** Every cached count map came from a scan. */
    ghost predicate Valid()
      reads this
    {
      forall author | author in purityCache :: IsScan(purityCache[author], impureSubs)
    }

    /** `__init__`, with the ledger it opens passed in and an empty cache. */
    constructor (postLookback: nat, purityThreshold: int, impureSubs: seq<string>, db: Database)
      ensures Valid()
      ensures this.postLookback == postLookback && this.purityThreshold == purityThreshold
      ensures this.impureSubs == impureSubs && this.db == db
      ensures purityCache == map[]
    {
      this.postLookback := postLookback;
      this.purityThreshold := purityThreshold;
      this.impureSubs := impureSubs;
      this.db := db;
      purityCache := map[];
    }

    /**
     * `_count_impure_posts`: counts, per impure subreddit, the author's
     * `postLookback` newest submissions posted there, caches the result under
     * the author's name and returns it.
     */
    method CountImpurePosts(author: string, history: seq<string>) returns (counts: CountMap)
      requires Valid()
      modifies this
      ensures Valid()
      ensures counts == ScanCounts(history, postLookback, impureSubs)
      ensures purityCache == old(purityCache)[author := counts]
    {
      var scanned := NewSubmissions(history, postLookback);
      counts := [];
      for i := 0 to |scanned|
        invariant counts == Tally(scanned[..i], impureSubs)
      {
        assert scanned[..i + 1][..i] == scanned[..i];
        if scanned[i] in impureSubs {
          counts := Increment(counts, scanned[i]);
        }
      }
      assert scanned[..|scanned|] == scanned;
      TallyWellFormed(scanned, impureSubs);
      purityCache := purityCache[author := counts];
    }

    /** The expiring dict drops entries on its own (age or capacity). */
    method Expire(expired: set<string>)
      requires Valid()
      modifies this
      ensures Valid()
      ensures purityCache == old(purityCache) - expired
    {
      purityCache := purityCache - expired;
    }

    /**
     * One pass of the `stream` loop. A comment already in the ledger is left
     * alone. Otherwise the author's count map comes from the cache or, on a
     * miss, from a fresh scan (which builds a warning when the verdict's
     * count exceeds the threshold); either way one ledger row records the
     * comment with the flag `count > purityThreshold`.
     */
    method ProcessComment(comment: Comment, history: seq<string>) returns (outcome: Outcome)
      requires Valid()
      modifies this, db
      ensures Valid()
      ensures outcome == AlreadyRecorded <==> comment.id in old(db.records)
      ensures outcome == AlreadyRecorded ==> purityCache == old(purityCache)
      ensures db.records == if outcome == AlreadyRecorded then old(db.records)
                            else old(db.records)[comment.id := Record(comment.author, outcome.verdict.1 > purityThreshold)]
      ensures outcome.Recorded? ==>
        && outcome.scanned == (comment.author !in old(purityCache))
        && purityCache == (if outcome.scanned
                           then old(purityCache)[comment.author := ScanCounts(history, postLookback, impureSubs)]
                           else old(purityCache))
        && DetermineBias(purityCache[comment.author]) == Ok(outcome.verdict)
        && (outcome.warning.Some? <==> outcome.scanned && outcome.verdict.1 > purityThreshold)
        && (outcome.warning.Some? ==>
              outcome.warning.value == Warning(comment.author, outcome.verdict.0, postLookback, outcome.verdict.1))
    {
      var cached := if comment.author in purityCache then Some(purityCache[comment.author]) else None;
      var recordExists := db.IdentifierExists(comment.id);
      if recordExists {
        return AlreadyRecorded;
      }
      var counts: CountMap;
      var warning: Option<Warning> := None;
      if cached.None? {
        counts := CountImpurePosts(comment.author, history);
      } else {
        counts := cached.value;
      }
      assert counts == purityCache[comment.author];
      assert IsScan(counts, impureSubs);
      PositiveCountsNeverFail(counts);
      var verdict := DetermineBias(counts).value;
      if cached.None? && verdict.1 > purityThreshold {
        warning := Some(Warning(comment.author, verdict.0, postLookback, verdict.1));
      }
      var inserted := db.InsertNewRecord(comment.id, comment.author, verdict.1 > purityThreshold);
      outcome := Recorded(cached.None?, verdict, warning);
    }

    /**
     * `stream` over a finite stretch of the comment stream: each comment is
     * recorded once, by the first event carrying its identifier, and rows
     * already in the ledger are never touched.
     */
    method Stream(events: seq<Event>) returns (outcomes: seq<Outcome>)
      requires Valid()
      modifies this, db
      ensures Valid()
      ensures |outcomes| == |events|
      ensures db.records.Keys == old(db.records).Keys + CommentIds(events)
      ensures forall id | id in old(db.records) :: db.records[id] == old(db.records)[id]
      ensures forall i | 0 <= i < |events| ::
        outcomes[i] == AlreadyRecorded <==>
          events[i].comment.id in old(db.records) || events[i].comment.id in CommentIds(events[..i])
      ensures forall i | 0 <= i < |events| && outcomes[i].Recorded? ::
        events[i].comment.id in db.records &&
          db.records[events[i].comment.id] == Record(events[i].comment.author, outcomes[i].verdict.1 > purityThreshold)
      ensures purityCache == CacheAfter(old(purityCache), events, outcomes, postLookback, impureSubs)
      ensures forall i | 0 <= i < |events| && outcomes[i].Recorded? ::
        Handled(CacheAfter(old(purityCache), events, outcomes[..i], postLookback, impureSubs) - events[i].expired,
                events[i].comment, events[i].history, outcomes[i], postLookback, purityThreshold, impureSubs)
      ensures forall i | 0 <= i < |events| && outcomes[i].Recorded? && outcomes[i].scanned ::
        DetermineBias(ScanCounts(events[i].history, postLookback, impureSubs)) == Ok(outcomes[i].verdict)
    {
      outcomes := [];
      for i := 0 to |events|
        invariant Valid()
        invariant |outcomes| == i
        invariant LedgerAfter(old(db.records), db.records, events, Rows(events, outcomes, purityThreshold))
        invariant VerdictsAfter(old(purityCache), purityCache, events, outcomes, postLookback, purityThreshold, impureSubs)
      {
        ghost var cacheBefore := purityCache;
        Expire(events[i].expired);
        ghost var before := db.records;
        var outcome := ProcessComment(events[i].comment, events[i].history);
        LedgerAfterStep(old(db.records), before, db.records, events, Rows(events, outcomes, purityThreshold),
                        Row(events[i], outcome, purityThreshold));
        RowsSnoc(events, outcomes, outcome, purityThreshold);
        VerdictsAfterStep(old(purityCache), cacheBefore, purityCache, events, outcomes, outcome,
                          postLookback, purityThreshold, impureSubs);
        outcomes := outcomes + [outcome];
      }
      LedgerOutcomes(old(db.records), db.records, events, outcomes, purityThreshold);
      assert events[..|events|] == events;
    }
  }
  /**
   * A new comment "c1" by an author with fifteen submissions in "Flagged",
   * the one impure subreddit, against a threshold of ten: the author is
   * scanned, warned with ("Flagged", 15), and recorded as flagged.
   */
  method FlaggedAuthorExample() returns (outcome: Outcome, row: Record)
    ensures outcome == Recorded(true, ("Flagged", 15), Some(Warning("alice", "Flagged", 200, 15)))
    ensures row == Record("alice", true)
  {
    var db := new Database(map[]);
    var bot := new PurityBot(200, 10, ["Flagged"], db);
    var history := seq(15, _ => "Flagged");
    TallyOneSub(15, "Flagged", ["Flagged"]);
    outcome := bot.ProcessComment(Comment("c1", "alice"), history);
    row := db.records["c1"];
  }

  /** A history entirely in one impure subreddit tallies to that subreddit and its length. */
  lemma {:induction false} TallyOneSub(n: nat, sub: string, impureSubs: seq<string>)
    requires n >= 1 && sub in impureSubs
    ensures Tally(seq(n, _ => sub), impureSubs) == [(sub, n)]
  {
    var history := seq(n, _ => sub);
    assert history[..n - 1] == seq(n - 1, _ => sub);
    if n > 1 {
      TallyOneSub(n - 1, sub, impureSubs);
    }
  }
}
