/**
 * What `PurityBot._count_impure_posts` builds: a `defaultdict(int)` from
 * subreddit display name to the number of scanned submissions posted there,
 * restricted to the configured impure subreddits. Keys enter the dict the
 * first time their subreddit is seen, so the count map lists them in order of
 * first appearance in the (newest first) history.
 */
module ImpureTally {
  import opened Bias

  /** The keys of a count map, in insertion order. */
  function Names(counts: CountMap): (names: seq<string>)
    ensures |names| == |counts|
    ensures forall i | 0 <= i < |counts| :: names[i] == counts[i].0
  {
    seq(|counts|, i requires 0 <= i < |counts| => counts[i].0)
  }

  /** A dict has each key once. */
  ghost predicate DistinctNames(counts: CountMap) {
    forall i, j :: 0 <= i < j < |counts| ==> counts[i].0 != counts[j].0
  }

  /** Reading `counts[name]` on a `defaultdict(int)`: zero for a missing key. */
  function Lookup(counts: CountMap, name: string): int {
    if counts == [] then 0
    else if counts[0].0 == name then counts[0].1
    else Lookup(counts[1..], name)
  }

  /** `counts[name] += 1`: bump an existing key in place, or append it with count one. */
  function Increment(counts: CountMap, name: string): (r: CountMap)
    ensures Lookup(r, name) == Lookup(counts, name) + 1
    ensures |counts| <= |r| <= |counts| + 1
  {
    if counts == [] then [(name, 1)]
    else if counts[0].0 == name then [(name, counts[0].1 + 1)] + counts[1..]
    else [counts[0]] + Increment(counts[1..], name)
  }

  /** The sum of the counts. */
  function Total(counts: CountMap): int {
    if counts == [] then 0 else counts[0].1 + Total(counts[1..])
  }

  /**
   * The dict the scanning loop has built after the submissions `scanned`:
   * each one posted in a subreddit of `impureSubs` increments that key.
   */
  function Tally(scanned: seq<string>, impureSubs: seq<string>): (r: CountMap)
    ensures |r| <= |scanned|
  {
    if scanned == [] then []
    else
      var before := Tally(scanned[..|scanned| - 1], impureSubs);
      var sub := scanned[|scanned| - 1];
      if sub in impureSubs then Increment(before, sub) else before
  }

  /** The position of the first (newest) submission in `scanned` posted in `sub`. */
  function FirstIndex(scanned: seq<string>, sub: string): (i: nat)
    requires sub in scanned
    ensures i < |scanned| && scanned[i] == sub && sub !in scanned[..i]
  {
    if scanned[0] == sub then 0
    else
      assert sub in scanned[1..];
      var k := FirstIndex(scanned[1..], sub);
      assert scanned[..k + 1] == [scanned[0]] + scanned[1..][..k];
      1 + k
  }

  // ---------------------------------------------------------------------
  // Increment
  // ---------------------------------------------------------------------

  /** Incrementing keeps every key in its place, and appends a new key with count one. */
  lemma {:induction false} IncrementShape(counts: CountMap, name: string)
    ensures name in Names(counts) ==> |Increment(counts, name)| == |counts|
    ensures name !in Names(counts) ==> |Increment(counts, name)| == |counts| + 1
    ensures name !in Names(counts) ==> Increment(counts, name)[|counts|] == (name, 1)
    ensures forall i | 0 <= i < |counts| :: Increment(counts, name)[i].0 == counts[i].0
  {
    if counts == [] {
    } else if counts[0].0 == name {
      assert Names(counts)[0] == name;
    } else {
      var rest := counts[1..];
      IncrementShape(rest, name);
      assert Names(counts) == [counts[0].0] + Names(rest);
      assert name in Names(counts) <==> name in Names(rest);
      var after := Increment(counts, name);
      assert after == [counts[0]] + Increment(rest, name);
      forall i | 0 < i < |counts|
        ensures after[i].0 == counts[i].0
      {
        assert after[i] == Increment(rest, name)[i - 1] && counts[i] == rest[i - 1];
      }
    }
  }

  /** The keys after `counts[name] += 1`: unchanged for a present key, else `name` appended. */
  lemma IncrementNames(counts: CountMap, name: string)
    ensures Names(Increment(counts, name)) ==
            if name in Names(counts) then Names(counts) else Names(counts) + [name]
  {
    IncrementShape(counts, name);
  }

  lemma {:induction false} IncrementDistinct(counts: CountMap, name: string)
    requires DistinctNames(counts)
    ensures DistinctNames(Increment(counts, name))
  {
    if counts != [] && counts[0].0 != name {
      var rest := Increment(counts[1..], name);
      IncrementDistinct(counts[1..], name);
      IncrementShape(counts[1..], name);
      forall k | 0 <= k < |rest|
        ensures rest[k].0 != counts[0].0
      {
        if k < |counts[1..]| {
          assert counts[1..][k] == counts[k + 1];
        } else {
          assert name !in Names(counts[1..]);
        }
      }
      var after := Increment(counts, name);
      assert after == [counts[0]] + rest;
      forall i, j | 0 <= i < j < |after|
        ensures after[i].0 != after[j].0
      {
        assert after[j] == rest[j - 1];
        if i > 0 {
          assert after[i] == rest[i - 1];
        }
      }
    } else if counts != [] {
      var after := Increment(counts, name);
      assert forall i | 0 <= i < |after| :: after[i].0 == counts[i].0;
    }
  }

  lemma {:induction false} IncrementLookup(counts: CountMap, name: string, other: string)
    ensures Lookup(Increment(counts, name), other) == Lookup(counts, other) + (if other == name then 1 else 0)
  {
    if counts != [] && counts[0].0 != name {
      IncrementLookup(counts[1..], name, other);
    }
  }

  lemma {:induction false} IncrementTotal(counts: CountMap, name: string)
    ensures Total(Increment(counts, name)) == Total(counts) + 1
  {
    if counts != [] {
      if counts[0].0 == name {
        assert ([(name, counts[0].1 + 1)] + counts[1..])[1..] == counts[1..];
      } else {
        IncrementTotal(counts[1..], name);
        assert ([counts[0]] + Increment(counts[1..], name))[1..] == Increment(counts[1..], name);
      }
    }
  }

  lemma {:induction false} IncrementPositive(counts: CountMap, name: string)
    requires AllPositive(counts)
    ensures AllPositive(Increment(counts, name))
  {
    if counts != [] && counts[0].0 != name {
      IncrementPositive(counts[1..], name);
    }
  }

  /** A key absent from a dict reads as zero. */
  lemma {:induction false} LookupAbsent(counts: CountMap, name: string)
    requires name !in Names(counts)
    ensures Lookup(counts, name) == 0
  {
    if counts != [] {
      assert Names(counts) == [counts[0].0] + Names(counts[1..]);
      LookupAbsent(counts[1..], name);
    }
  }

  /** In a dict, reading the key of an item gives that item's count. */
  lemma {:induction false} LookupDistinct(counts: CountMap, i: nat)
    requires DistinctNames(counts) && i < |counts|
    ensures Lookup(counts, counts[i].0) == counts[i].1
  {
    if i > 0 {
      LookupDistinct(counts[1..], i - 1);
    }
  }

  // ---------------------------------------------------------------------
  // What the scan produces
  // ---------------------------------------------------------------------

  /**
   * The scan yields a dict: distinct keys, every key an impure subreddit seen
   * in the scanned history, every count at least one, and each impure
   * subreddit of the history a key.
   */
  lemma {:induction false} TallyWellFormed(scanned: seq<string>, impureSubs: seq<string>)
    ensures DistinctNames(Tally(scanned, impureSubs))
    ensures AllPositive(Tally(scanned, impureSubs))
    ensures forall name :: name in Names(Tally(scanned, impureSubs)) <==> name in impureSubs && name in scanned
  {
    if scanned != [] {
      var before := Tally(scanned[..|scanned| - 1], impureSubs);
      var sub := scanned[|scanned| - 1];
      TallyWellFormed(scanned[..|scanned| - 1], impureSubs);
      assert scanned == scanned[..|scanned| - 1] + [sub];
      if sub in impureSubs {
        IncrementNames(before, sub);
        IncrementPositive(before, sub);
        IncrementDistinct(before, sub);
      }
    }
  }

  /** Each count is the number of scanned submissions posted in that subreddit. */
  lemma {:induction false} TallyCounts(scanned: seq<string>, impureSubs: seq<string>, name: string)
    ensures Lookup(Tally(scanned, impureSubs), name) == if name in impureSubs then multiset(scanned)[name] else 0
  {
    if scanned != [] {
      var sub := scanned[|scanned| - 1];
      TallyCounts(scanned[..|scanned| - 1], impureSubs, name);
      assert scanned == scanned[..|scanned| - 1] + [sub];
      if sub in impureSubs {
        IncrementLookup(Tally(scanned[..|scanned| - 1], impureSubs), sub, name);
      }
    }
  }

  /** The counts add up to at most the number of scanned submissions. */
  lemma {:induction false} TallyTotal(scanned: seq<string>, impureSubs: seq<string>)
    ensures 0 <= Total(Tally(scanned, impureSubs)) <= |scanned|
  {
    if scanned != [] {
      var sub := scanned[|scanned| - 1];
      TallyTotal(scanned[..|scanned| - 1], impureSubs);
      if sub in impureSubs {
        IncrementTotal(Tally(scanned[..|scanned| - 1], impureSubs), sub);
      }
    }
  }

  /** Keys are ordered by the first appearance of their subreddit in the history. */
  lemma {:induction false} TallyInFirstSeenOrder(scanned: seq<string>, impureSubs: seq<string>)
    ensures forall i | 0 <= i < |Tally(scanned, impureSubs)| :: Tally(scanned, impureSubs)[i].0 in scanned
    ensures forall i, j | 0 <= i < j < |Tally(scanned, impureSubs)| ::
      Tally(scanned, impureSubs)[i].0 in scanned && Tally(scanned, impureSubs)[j].0 in scanned &&
      FirstIndex(scanned, Tally(scanned, impureSubs)[i].0) < FirstIndex(scanned, Tally(scanned, impureSubs)[j].0)
  {
    if scanned != [] {
      var prefix := scanned[..|scanned| - 1];
      var sub := scanned[|scanned| - 1];
      var before := Tally(prefix, impureSubs);
      var after := Tally(scanned, impureSubs);
      TallyInFirstSeenOrder(prefix, impureSubs);
      TallyWellFormed(prefix, impureSubs);
      assert scanned == prefix + [sub];
      if sub in impureSubs {
        IncrementShape(before, sub);
        if sub !in Names(before) {
          assert sub !in prefix;
        }
      }
      FirstSeenOrderStep(prefix, sub, before, after);
    }
  }

  /**
   * One more submission `sub` at the end of the history: keys already in the
   * dict keep their first-seen order, and a key appended for it comes last.
   */
  lemma FirstSeenOrderStep(prefix: seq<string>, sub: string, before: CountMap, after: CountMap)
    requires forall i | 0 <= i < |before| :: before[i].0 in prefix
    requires forall i, j | 0 <= i < j < |before| ::
      before[i].0 in prefix && before[j].0 in prefix &&
      FirstIndex(prefix, before[i].0) < FirstIndex(prefix, before[j].0)
    requires |before| <= |after| <= |before| + 1
    requires forall i | 0 <= i < |before| :: after[i].0 == before[i].0
    requires |after| == |before| + 1 ==> after[|before|].0 == sub && sub !in prefix
    ensures forall i | 0 <= i < |after| :: after[i].0 in prefix + [sub]
    ensures forall i, j | 0 <= i < j < |after| ::
      after[i].0 in prefix + [sub] && after[j].0 in prefix + [sub] &&
      FirstIndex(prefix + [sub], after[i].0) < FirstIndex(prefix + [sub], after[j].0)
  {
    var scanned := prefix + [sub];
    forall i | 0 <= i < |after|
      ensures after[i].0 in scanned
    {
      if i < |before| {
        assert after[i].0 in prefix;
      } else {
        assert scanned[|prefix|] == sub;
      }
    }
    forall i, j | 0 <= i < j < |after|
      ensures FirstIndex(scanned, after[i].0) < FirstIndex(scanned, after[j].0)
    {
      FirstIndexExtend(prefix, sub, before[i].0);
      if j < |before| {
        FirstIndexExtend(prefix, sub, before[j].0);
      } else {
        assert scanned[..|prefix|] == prefix;
        assert forall t | 0 <= t < |prefix| :: scanned[t] in prefix;
      }
    }
  }

  lemma FirstIndexExtend(prefix: seq<string>, sub: string, name: string)
    requires name in prefix
    ensures FirstIndex(prefix + [sub], name) == FirstIndex(prefix, name)
  {
    var k := FirstIndex(prefix, name);
    var l := FirstIndex(prefix + [sub], name);
    assert (prefix + [sub])[..k] == prefix[..k];
    var extended := prefix + [sub];
    assert extended[k] == name && extended[l] == name;
    assert forall j | 0 <= j < k :: extended[j] in prefix[..k];
    assert forall j | 0 <= j < l :: extended[j] in extended[..l];
  }
}
