/**
 * ChapoBot: the single-subreddit predecessor of PurityBot. For each comment
 * not seen before it counts how many of the author's 200 newest submissions
 * were posted in ChapoTrapHouse (or takes the count cached by an earlier
 * scan), and records the comment in the ledger with the flag `count > 10`.
 */
module ChapoBot {
  import opened Wrappers
  import opened Reddit
  import opened Ledger

  /** The subreddit whose submissions are counted. */
  const ChapoSub: string := "ChapoTrapHouse"

  /** `user.submissions.new(limit=200)`. */
  const Lookback: nat := 200

  /** An author is flagged with more than this many counted submissions. */
  const Threshold: int := 10

  /** The warning `stream` builds: the author and the count it interpolates. */
  datatype Warning = Warning(author: string, count: int)

  /** What one pass of the `stream` loop did with a comment. */
  datatype Outcome =
    | AlreadyRecorded
    | Recorded(scanned: bool, count: int, warning: Option<Warning>)

  /** The ledger row `stream` writes for a comment, or None when it skips it. */
  function Row(event: Event, outcome: Outcome): Option<Record> {
    match outcome
    case AlreadyRecorded => None
    case Recorded(_, count, _) => Some(Record(event.comment.author, count > Threshold))
  }

  /** The rows written for the comments of `outcomes`. */
  function Rows(events: seq<Event>, outcomes: seq<Outcome>): (rows: seq<Option<Record>>)
    requires |outcomes| <= |events|
    ensures |rows| == |outcomes|
    ensures forall j | 0 <= j < |outcomes| :: rows[j] == Row(events[j], outcomes[j])
  {
    seq(|outcomes|, j requires 0 <= j < |outcomes| => Row(events[j], outcomes[j]))
  }

  /** Rows of one more handled comment extend the rows before it. */
  lemma RowsSnoc(events: seq<Event>, outcomes: seq<Outcome>, outcome: Outcome)
    requires |outcomes| < |events|
    ensures Rows(events, outcomes + [outcome]) == Rows(events, outcomes) + [Row(events[|outcomes|], outcome)]
  {
  }

  /** `LedgerAfter` over the rows of a whole run, read back in terms of its outcomes. */
  lemma LedgerOutcomes(initial: map<string, Record>, records: map<string, Record>,
                       events: seq<Event>, outcomes: seq<Outcome>)
    requires |outcomes| == |events|
    requires LedgerAfter(initial, records, events, Rows(events, outcomes))
    ensures records.Keys == initial.Keys + CommentIds(events)
    ensures forall i | 0 <= i < |events| ::
      outcomes[i] == AlreadyRecorded <==>
        events[i].comment.id in initial || events[i].comment.id in CommentIds(events[..i])
    ensures forall i | 0 <= i < |events| && outcomes[i].Recorded? ::
      events[i].comment.id in records &&
        records[events[i].comment.id] == Record(events[i].comment.author, outcomes[i].count > Threshold)
  {
    var rows := Rows(events, outcomes);
    assert events[..|rows|] == events;
    forall i | 0 <= i < |events|
      ensures outcomes[i] == AlreadyRecorded <==>
                events[i].comment.id in initial || events[i].comment.id in CommentIds(events[..i])
      ensures outcomes[i].Recorded? ==>
                events[i].comment.id in records &&
                records[events[i].comment.id] == Record(events[i].comment.author, outcomes[i].count > Threshold)
    {
      assert rows[i] == Row(events[i], outcomes[i]);
    }
  }

  /**
   * What handling a comment that was not yet recorded gives, when the cache
   * held `cache` as the comment arrived: a scan exactly on a miss, the count
   * of the fresh scan or the cached count, and a warning exactly on a fresh
   * scan with more than 10.
   */
  ghost predicate Handled(cache: map<string, int>, comment: Comment, history: seq<string>, outcome: Outcome)
    requires outcome.Recorded?
  {
    && (outcome.scanned <==> comment.author !in cache)
    && outcome.count == (if outcome.scanned then multiset(NewSubmissions(history, Lookback))[ChapoSub]
                         else cache[comment.author])
    && (outcome.warning.Some? <==> outcome.scanned && outcome.count > Threshold)
    && (outcome.warning.Some? ==> outcome.warning.value == Warning(comment.author, outcome.count))
  }

  /**
   * The cache after the stream has handled the comments of `outcomes`,
   * starting from `initial`: before each comment the expired entries go, and
   * each fresh count is cached under its author.
   */
  function CacheAfter(initial: map<string, int>, events: seq<Event>, outcomes: seq<Outcome>): map<string, int>
    requires |outcomes| <= |events|
  {
    if outcomes == [] then initial
    else
      var n := |outcomes| - 1;
      var cache := CacheAfter(initial, events, outcomes[..n]) - events[n].expired;
      if outcomes[n].Recorded? && outcomes[n].scanned
      then cache[events[n].comment.author := outcomes[n].count]
      else cache
  }

  /** The comment at index `k` was handled by scanning `author`. */
  predicate ScannedBy(events: seq<Event>, outcomes: seq<Outcome>, k: nat, author: string) {
    k < |outcomes| && k < |events| && outcomes[k].Recorded? && outcomes[k].scanned &&
    events[k].comment.author == author
  }

  /**
   * The cache and the counts after the stream has handled the first
   * |outcomes| of `events`: the cache is `CacheAfter`, and each recorded
   * comment was handled against the cache as it stood when it arrived.
   */
  ghost predicate CountsAfter(initial: map<string, int>, cache: map<string, int>,
                              events: seq<Event>, outcomes: seq<Outcome>)
  {
    && |outcomes| <= |events|
    && cache == CacheAfter(initial, events, outcomes)
    && forall j | 0 <= j < |outcomes| && outcomes[j].Recorded? ::
         && 0 <= outcomes[j].count <= Lookback
         && Handled(CacheAfter(initial, events, outcomes[..j]) - events[j].expired,
                    events[j].comment, events[j].history, outcomes[j])
  }

  /** Expiry then one more comment handled as `ProcessComment` promises keeps `CountsAfter`. */
  lemma CountsAfterStep(initial: map<string, int>, before: map<string, int>, after: map<string, int>,
                        events: seq<Event>, outcomes: seq<Outcome>, outcome: Outcome)
    requires |outcomes| < |events|
    requires CountsAfter(initial, before, events, outcomes)
    requires var e := events[|outcomes|];
             var cache := before - e.expired;
             && (outcome.Recorded? ==> 0 <= outcome.count <= Lookback && Handled(cache, e.comment, e.history, outcome))
             && after == if outcome.Recorded? && outcome.scanned
                         then cache[e.comment.author := outcome.count]
                         else cache
    ensures CountsAfter(initial, after, events, outcomes + [outcome])
  {
    var i := |outcomes|;
    var extended := outcomes + [outcome];
    assert extended[..i] == outcomes;
    forall j | 0 <= j < i + 1 && extended[j].Recorded?
      ensures 0 <= extended[j].count <= Lookback
      ensures Handled(CacheAfter(initial, events, extended[..j]) - events[j].expired,
                      events[j].comment, events[j].history, extended[j])
    {
      if j < i {
        assert extended[j] == outcomes[j];
        assert extended[..j] == outcomes[..j];
      }
    }
  }

  /** Whether the comment at index `k` is scanned the same way in a prefix of `outcomes` as in `outcomes`. */
  lemma ScannedByPrefix(events: seq<Event>, outcomes: seq<Outcome>, n: nat, author: string)
    requires n <= |outcomes|
    ensures forall k: nat | k < n :: ScannedBy(events, outcomes[..n], k, author) == ScannedBy(events, outcomes, k, author)
  {
    forall k: nat | k < n
      ensures ScannedBy(events, outcomes[..n], k, author) == ScannedBy(events, outcomes, k, author)
    {
      assert outcomes[..n][k] == outcomes[k];
    }
  }

  /** The index of the latest comment of `outcomes` handled by scanning `author`, if any. */
  function LastScan(events: seq<Event>, outcomes: seq<Outcome>, author: string): (r: Option<nat>)
    ensures r.Some? ==>
      && ScannedBy(events, outcomes, r.value, author)
      && forall k: nat | r.value < k < |outcomes| :: !ScannedBy(events, outcomes, k, author)
    ensures r.None? ==> forall k: nat | k < |outcomes| :: !ScannedBy(events, outcomes, k, author)
  {
    if outcomes == [] then None
    else
      var n := |outcomes| - 1;
      if ScannedBy(events, outcomes, n, author) then Some(n)
      else
        ScannedByPrefix(events, outcomes, n, author);
        LastScan(events, outcomes[..n], author)
  }

  /**
   * An entry of the cache after the stream is the count of the latest scan
   * of that author in the stream or, when there was none, the entry cached
   * before it.
   */
  lemma {:induction false} CacheAfterSource(initial: map<string, int>, events: seq<Event>, outcomes: seq<Outcome>,
                                            author: string)
    requires |outcomes| <= |events|
    requires author in CacheAfter(initial, events, outcomes)
    ensures var cached := CacheAfter(initial, events, outcomes)[author];
            match LastScan(events, outcomes, author)
            case None => author in initial && cached == initial[author]
            case Some(j) => cached == outcomes[j].count
  {
    if outcomes != [] {
      var n := |outcomes| - 1;
      if !ScannedBy(events, outcomes, n, author) {
        CacheAfterSource(initial, events, outcomes[..n], author);
        assert outcomes[..n][..] == outcomes[..n];
        var last := LastScan(events, outcomes[..n], author);
        if last.Some? {
          assert outcomes[..n][last.value] == outcomes[last.value];
        }
      }
    }
  }

  /**
   * A comment handled from the cache gets the count of the latest earlier
   * scan of its author in the stream or, when there was none, the count
   * cached before the stream.
   */
  lemma CacheHitRepeatsCount(initial: map<string, int>, events: seq<Event>, outcomes: seq<Outcome>, i: nat)
    requires |outcomes| <= |events|
    requires forall j | 0 <= j < |outcomes| && outcomes[j].Recorded? ::
               Handled(CacheAfter(initial, events, outcomes[..j]) - events[j].expired,
                       events[j].comment, events[j].history, outcomes[j])
    requires i < |outcomes| && outcomes[i].Recorded? && !outcomes[i].scanned
    ensures var author := events[i].comment.author;
            || (author in initial && outcomes[i].count == initial[author] &&
                forall k: nat | k < i :: !ScannedBy(events, outcomes, k, author))
            || (exists j: nat | j < i ::
                  ScannedBy(events, outcomes, j, author) && outcomes[j].count == outcomes[i].count &&
                  forall k: nat | j < k < i :: !ScannedBy(events, outcomes, k, author))
  {
    var author := events[i].comment.author;
    var pre := outcomes[..i];
    assert Handled(CacheAfter(initial, events, pre) - events[i].expired,
                   events[i].comment, events[i].history, outcomes[i]);
    ScannedByPrefix(events, outcomes, i, author);
    CacheAfterSource(initial, events, pre, author);
    var last := LastScan(events, pre, author);
    if last.Some? {
      var j := last.value;
      assert pre[j] == outcomes[j];
      assert ScannedBy(events, outcomes, j, author);
      assert forall k: nat | j < k < i :: !ScannedBy(events, outcomes, k, author);
    } else {
      assert forall k: nat | k < i :: !ScannedBy(events, outcomes, k, author);
    }
  }

  class ChapoBot {
    const db: Database
    /** `_chapo_cache`: author name to the count of their last scan. */
    var chapoCache: map<string, int>

    /** Every cached count is a count of at most `Lookback` submissions. */
    ghost predicate Valid()
      reads this
    {
      forall author | author in chapoCache :: 0 <= chapoCache[author] <= Lookback
    }

    /** `__init__`, with the ledger it opens passed in and an empty cache. */
    constructor (db: Database)
      ensures Valid()
      ensures this.db == db && chapoCache == map[]
    {
      this.db := db;
      chapoCache := map[];
    }

    /**
     * `_count_chapo_posts`: the number of the author's 200 newest submissions
     * posted in ChapoTrapHouse, cached under the author's name.
     */
    method CountChapoPosts(author: string, history: seq<string>) returns (count: int)
      requires Valid()
      modifies this
      ensures Valid()
      ensures count == multiset(NewSubmissions(history, Lookback))[ChapoSub]
      ensures 0 <= count <= Lookback
      ensures chapoCache == old(chapoCache)[author := count]
    {
      var scanned := NewSubmissions(history, Lookback);
      count := 0;
      for i := 0 to |scanned|
        invariant count == multiset(scanned[..i])[ChapoSub]
        invariant 0 <= count <= i
      {
        assert scanned[..i + 1] == scanned[..i] + [scanned[i]];
        if scanned[i] == ChapoSub {
          count := count + 1;
        }
      }
      assert scanned[..|scanned|] == scanned;
      chapoCache := chapoCache[author := count];
    }

    /** The expiring dict drops entries on its own (age or capacity). */
    method Expire(expired: set<string>)
      requires Valid()
      modifies this
      ensures Valid()
      ensures chapoCache == old(chapoCache) - expired
    {
      chapoCache := chapoCache - expired;
    }

    /**
     * One pass of the `stream` loop. A comment already in the ledger is left
     * alone. Otherwise the count comes from the cache or, on a miss, from a
     * fresh scan (which builds a warning when the count exceeds 10); either
     * way one ledger row records the comment with the flag `count > 10`.
     */
    method ProcessComment(comment: Comment, history: seq<string>) returns (outcome: Outcome)
      requires Valid()
      modifies this, db
      ensures Valid()
      ensures outcome == AlreadyRecorded <==> comment.id in old(db.records)
      ensures outcome == AlreadyRecorded ==> chapoCache == old(chapoCache)
      ensures db.records == if outcome == AlreadyRecorded then old(db.records)
                            else old(db.records)[comment.id := Record(comment.author, outcome.count > Threshold)]
      ensures outcome.Recorded? ==>
        && 0 <= outcome.count <= Lookback
        && outcome.scanned == (comment.author !in old(chapoCache))
        && outcome.count == (if outcome.scanned then multiset(NewSubmissions(history, Lookback))[ChapoSub]
                             else old(chapoCache)[comment.author])
        && chapoCache == (if outcome.scanned then old(chapoCache)[comment.author := outcome.count]
                          else old(chapoCache))
        && (outcome.warning.Some? <==> outcome.scanned && outcome.count > Threshold)
        && (outcome.warning.Some? ==> outcome.warning.value == Warning(comment.author, outcome.count))
    {
      var cached := if comment.author in chapoCache then Some(chapoCache[comment.author]) else None;
      var recordExists := db.IdentifierExists(comment.id);
      if recordExists {
        return AlreadyRecorded;
      }
      var count: int;
      var warning: Option<Warning> := None;
      if cached.None? {
        count := CountChapoPosts(comment.author, history);
        if count > Threshold {
          warning := Some(Warning(comment.author, count));
        }
      } else {
        count := cached.value;
      }
      var inserted := db.InsertNewRecord(comment.id, comment.author, count > Threshold);
      outcome := Recorded(cached.None?, count, warning);
    }

    /**
     * `stream` over a finite stretch of the comment stream: each comment is
     * recorded once, by the first event carrying its identifier, and rows
     * already in the ledger are never touched.
     */
    method Stream(events: seq<Event>) returns (outcomes: seq<Outcome>)
      requires Valid()
      modifies this, db
      ensures Valid()
      ensures |outcomes| == |events|
      ensures db.records.Keys == old(db.records).Keys + CommentIds(events)
      ensures forall id | id in old(db.records) :: db.records[id] == old(db.records)[id]
      ensures forall i | 0 <= i < |events| ::
        outcomes[i] == AlreadyRecorded <==>
          events[i].comment.id in old(db.records) || events[i].comment.id in CommentIds(events[..i])
      ensures forall i | 0 <= i < |events| && outcomes[i].Recorded? ::
        events[i].comment.id in db.records &&
          db.records[events[i].comment.id] == Record(events[i].comment.author, outcomes[i].count > Threshold)
      ensures chapoCache == CacheAfter(old(chapoCache), events, outcomes)
      ensures forall i | 0 <= i < |events| && outcomes[i].Recorded? ::
        && 0 <= outcomes[i].count <= Lookback
        && Handled(CacheAfter(old(chapoCache), events, outcomes[..i]) - events[i].expired,
                   events[i].comment, events[i].history, outcomes[i])
      ensures forall i | 0 <= i < |events| && outcomes[i].Recorded? && outcomes[i].scanned ::
        outcomes[i].count == multiset(NewSubmissions(events[i].history, Lookback))[ChapoSub]
    {
      outcomes := [];
      for i := 0 to |events|
        invariant Valid()
        invariant |outcomes| == i
        invariant LedgerAfter(old(db.records), db.records, events, Rows(events, outcomes))
        invariant CountsAfter(old(chapoCache), chapoCache, events, outcomes)
      {
        ghost var cacheBefore := chapoCache;
        Expire(events[i].expired);
        ghost var before := db.records;
        var outcome := ProcessComment(events[i].comment, events[i].history);
        LedgerAfterStep(old(db.records), before, db.records, events, Rows(events, outcomes), Row(events[i], outcome));
        RowsSnoc(events, outcomes, outcome);
        CountsAfterStep(old(chapoCache), cacheBefore, chapoCache, events, outcomes, outcome);
        outcomes := outcomes + [outcome];
      }
      LedgerOutcomes(old(db.records), db.records, events, outcomes);
      assert events[..|events|] == events;
    }
  }
}
