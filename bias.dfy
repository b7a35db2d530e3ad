/**
 * The purity classifier of PurityBot: `determine_bias` and
 * `determine_magnitude`.
 *
 * A count map is the bot's `Dict[str, int]` from subreddit display name to a
 * number of submissions, written as its list of items in insertion order,
 * which is the order Python iterates a dict in. `determine_bias` sorts the
 * items by count, largest first, with Python's stable `sorted`, and compares
 * the orders of magnitude of the two largest counts.
 */
module Bias {
  import opened Wrappers

  /** One item of a count map: (subreddit display name, count). */
  type Entry = (string, int)

  /** A count map as its items in insertion order. */
  type CountMap = seq<Entry>

  /** `math.log10` raises `ValueError` on an argument that is not positive. */
  datatype MathError = MathDomainError

  /** The verdict `(sub_name, bias)`, or the error `determine_bias` raises. */
  type Verdict = Result<Entry, MathError>

  // ---------------------------------------------------------------------
  // Order of magnitude
  // ---------------------------------------------------------------------

  function Pow10(n: nat): (p: nat)
    ensures p >= 1
  {
    if n == 0 then 1 else 10 * Pow10(n - 1)
  }

  lemma {:induction false} Pow10Monotone(m: nat, n: nat)
    requires m <= n
    ensures Pow10(m) <= Pow10(n)
  {
    if m < n {
      Pow10Monotone(m, n - 1);
    }
  }

  /**
   * `determine_magnitude`: `int(math.log10(x))`, the number of decimal
   * digits of `x` minus one. Defined for `x >= 1` only.
   */
  function Magnitude(x: int): (m: nat)
    requires x >= 1
    ensures Pow10(m) <= x < Pow10(m + 1)
  {
    if x < 10 then 0 else 1 + Magnitude(x / 10)
  }

  /** The bounds in Magnitude's contract determine it: it is floor(log10 x). */
  lemma MagnitudeUnique(x: int, m: nat)
    requires x >= 1
    requires Pow10(m) <= x < Pow10(m + 1)
    ensures Magnitude(x) == m
  {
    var k := Magnitude(x);
    if k < m {
      Pow10Monotone(k + 1, m);
    } else if m < k {
      Pow10Monotone(m + 1, k);
    }
  }

  /** A larger count never has a smaller order of magnitude. */
  lemma MagnitudeMonotone(x: int, y: int)
    requires 1 <= x && 1 <= y
    ensures x <= y ==> Magnitude(x) <= Magnitude(y)
  {
  }

  // ---------------------------------------------------------------------
  // sorted(items, key=count, reverse=True)
  // ---------------------------------------------------------------------

  /**
   * Places `e` in front of the first item whose count is not larger than its
   * own, so that `e` stays ahead of every later item with the same count.
   */
  function InsertByCount(e: Entry, s: CountMap): (r: CountMap)
    ensures |r| == |s| + 1
  {
    if s == [] then [e]
    else if e.1 >= s[0].1 then [e] + s
    else [s[0]] + InsertByCount(e, s[1..])
  }

  /** Python's stable `sorted(items, key=lambda kv: kv[1], reverse=True)`. */
  function SortByCount(s: CountMap): (r: CountMap)
    ensures |r| == |s|
  {
    if s == [] then [] else InsertByCount(s[0], SortByCount(s[1..]))
  }

  /** Counts never increase along `s`. */
  ghost predicate SortedByCount(s: CountMap) {
    forall i, j :: 0 <= i < j < |s| ==> s[i].1 >= s[j].1
  }

  /** The items of `s` with count `c`, in their order in `s`. */
  function WithCount(s: CountMap, c: int): seq<Entry> {
    if s == [] then [] else (if s[0].1 == c then [s[0]] else []) + WithCount(s[1..], c)
  }

  /** How many items of `s` have a count of at least one. */
  function CountPositive(s: CountMap): nat {
    if s == [] then 0 else (if s[0].1 >= 1 then 1 else 0) + CountPositive(s[1..])
  }

  predicate AllPositive(s: CountMap) {
    forall e | e in s :: e.1 >= 1
  }

  lemma {:induction false} InsertByCountPermutes(e: Entry, s: CountMap)
    ensures multiset(InsertByCount(e, s)) == multiset(s) + multiset{e}
  {
    if s != [] && e.1 < s[0].1 {
      InsertByCountPermutes(e, s[1..]);
      assert s == [s[0]] + s[1..];
    }
  }

  lemma {:induction false} InsertByCountSorted(e: Entry, s: CountMap)
    requires SortedByCount(s)
    ensures SortedByCount(InsertByCount(e, s))
  {
    if s != [] && e.1 < s[0].1 {
      var t := InsertByCount(e, s[1..]);
      InsertByCountSorted(e, s[1..]);
      InsertByCountPermutes(e, s[1..]);
      forall k | 0 <= k < |t|
        ensures t[k].1 <= s[0].1
      {
        assert t[k] in multiset(t);
        if t[k] != e {
          assert t[k] in multiset(s[1..]);
        }
      }
    }
  }

  lemma {:induction false} InsertByCountWithCount(e: Entry, s: CountMap, c: int)
    ensures WithCount(InsertByCount(e, s), c) == (if e.1 == c then [e] else []) + WithCount(s, c)
  {
    if s != [] {
      if e.1 >= s[0].1 {
        assert ([e] + s)[1..] == s;
      } else {
        InsertByCountWithCount(e, s[1..], c);
        assert ([s[0]] + InsertByCount(e, s[1..]))[1..] == InsertByCount(e, s[1..]);
      }
    }
  }

  lemma {:induction false} InsertByCountPositive(e: Entry, s: CountMap)
    ensures CountPositive(InsertByCount(e, s)) == (if e.1 >= 1 then 1 else 0) + CountPositive(s)
  {
    if s != [] {
      if e.1 >= s[0].1 {
        assert ([e] + s)[1..] == s;
      } else {
        InsertByCountPositive(e, s[1..]);
        assert ([s[0]] + InsertByCount(e, s[1..]))[1..] == InsertByCount(e, s[1..]);
      }
    }
  }

  /** The sort returns a permutation of its input, ordered by count. */
  lemma {:induction false} SortByCountCorrect(s: CountMap)
    ensures multiset(SortByCount(s)) == multiset(s)
    ensures SortedByCount(SortByCount(s))
  {
    if s != [] {
      SortByCountCorrect(s[1..]);
      InsertByCountPermutes(s[0], SortByCount(s[1..]));
      InsertByCountSorted(s[0], SortByCount(s[1..]));
      assert s == [s[0]] + s[1..];
    }
  }

  /** The sort is stable: items with equal counts keep their relative order. */
  lemma {:induction false} SortByCountStable(s: CountMap, c: int)
    ensures WithCount(SortByCount(s), c) == WithCount(s, c)
  {
    if s != [] {
      SortByCountStable(s[1..], c);
      InsertByCountWithCount(s[0], SortByCount(s[1..]), c);
    }
  }

  lemma {:induction false} SortByCountPositive(s: CountMap)
    ensures CountPositive(SortByCount(s)) == CountPositive(s)
  {
    if s != [] {
      SortByCountPositive(s[1..]);
      InsertByCountPositive(s[0], SortByCount(s[1..]));
    }
  }

  // ---------------------------------------------------------------------
  // determine_bias
  // ---------------------------------------------------------------------

  /**
   * `determine_bias`: no items give `('', 0)`; one item is returned as it is;
   * otherwise the larger order of magnitude of the two largest counts wins,
   * and on equal magnitudes the strictly larger count, else the second item.
   */
  function DetermineBias(counts: CountMap): (r: Verdict)
    ensures |counts| == 0 ==> r == Ok(("", 0))
    ensures |counts| == 1 ==> r == Ok(counts[0])
    ensures r.Ok? && |counts| >= 1 ==> r.value in counts
  {
    if |counts| == 0 then Ok(("", 0))
    else if |counts| == 1 then Ok(counts[0])
    else
      var sorted := SortByCount(counts);
      SortByCountCorrect(counts);
      assert sorted[0] in multiset(counts) && sorted[1] in multiset(counts);
      CompareTopTwo(sorted[0], sorted[1])
  }

  /**
   * The comparison `determine_bias` makes between the first and the second
   * item of the sorted list. Computing either magnitude raises on a count
   * below one; on counts in sorted order the larger count wins and a tie goes
   * to the second item.
   */
  function CompareTopTwo(first: Entry, second: Entry): (r: Verdict)
    ensures r.Err? <==> first.1 < 1 || second.1 < 1
    ensures r.Ok? ==> r.value == first || r.value == second
    ensures 1 <= second.1 <= first.1 ==> r == Ok(if first.1 > second.1 then first else second)
  {
    if first.1 < 1 || second.1 < 1 then Err(MathDomainError)
    else
      var mag1 := Magnitude(first.1);
      var mag2 := Magnitude(second.1);
      MagnitudeMonotone(second.1, first.1);
      MagnitudeMonotone(first.1, second.1);
      if mag1 > mag2 then Ok(first)
      else if mag1 < mag2 then Ok(second)
      else if first.1 > second.1 then Ok(first)
      else Ok(second)
  }

  /** The largest count of a non-empty count map. */
  function MaxCount(s: CountMap): (m: int)
    requires |s| > 0
    ensures forall e | e in s :: e.1 <= m
    ensures exists e | e in s :: e.1 == m
  {
    if |s| == 1 then s[0].1
    else
      var rest := MaxCount(s[1..]);
      assert s == [s[0]] + s[1..];
      if s[0].1 >= rest then s[0].1 else rest
  }

  lemma {:induction false} WithCountMembers(s: CountMap, c: int)
    ensures forall e | e in WithCount(s, c) :: e in s && e.1 == c
    ensures (exists e | e in s :: e.1 == c) ==> |WithCount(s, c)| > 0
  {
    if s != [] {
      WithCountMembers(s[1..], c);
      assert s == [s[0]] + s[1..];
    }
  }

  lemma {:induction false} WithCountNone(s: CountMap, c: int)
    requires forall e | e in s :: e.1 != c
    ensures WithCount(s, c) == []
  {
    if s != [] {
      WithCountNone(s[1..], c);
    }
  }

  lemma {:induction false} CountPositiveNone(s: CountMap)
    requires forall e | e in s :: e.1 < 1
    ensures CountPositive(s) == 0
  {
    if s != [] {
      CountPositiveNone(s[1..]);
    }
  }

  /**
   * The reference answer for two or more positive counts: among the items
   * holding the largest count, in insertion order, the second one if there
   * are several, else the only one.
   */
  function Winner(counts: CountMap): (e: Entry)
    requires |counts| > 0
    ensures e in counts && e.1 == MaxCount(counts)
  {
    var top := WithCount(counts, MaxCount(counts));
    WithCountMembers(counts, MaxCount(counts));
    if |top| >= 2 then top[1] else top[0]
  }

  /**
   * On a count map sorted largest first, the second count never has a
   * larger magnitude than the first, so the branch of `determine_bias` that
   * returns the second item because its magnitude is larger is never taken.
   */
  lemma SecondMagnitudeNeverLarger(counts: CountMap)
    requires |counts| >= 2
    requires SortByCount(counts)[1].1 >= 1
    ensures SortByCount(counts)[0].1 >= SortByCount(counts)[1].1
    ensures Magnitude(SortByCount(counts)[0].1) >= Magnitude(SortByCount(counts)[1].1)
  {
    var sorted := SortByCount(counts);
    SortByCountCorrect(counts);
    MagnitudeMonotone(sorted[1].1, sorted[0].1);
  }

  /**
   * With two or more items of which at least two have a positive count (the
   * maps on which it does not raise), `determine_bias` returns the first item
   * holding the largest count, unless a second item holds it too, in which
   * case it returns that second one.
   */
  lemma DetermineBiasIsWinner(counts: CountMap)
    requires |counts| >= 2
    requires CountPositive(counts) >= 2
    ensures DetermineBias(counts) == Ok(Winner(counts))
  {
    var sorted := SortByCount(counts);
    var m := MaxCount(counts);
    DetermineBiasFails(counts);
    assert sorted[1].1 >= 1;
    SortByCountCorrect(counts);
    SortByCountStable(counts, m);
    assert sorted[1] in multiset(counts);
    var w :| w in counts && w.1 == m;
    assert w in multiset(sorted);
    assert sorted[0] in multiset(counts);
    assert sorted[0].1 == m;
    if sorted[1].1 < m {
      TopOneWithCount(sorted, m);
    } else {
      TopTwoWithCount(sorted, m);
    }
  }

  /** On a sorted list whose first item alone holds `c`, `WithCount(s, c)` is that item. */
  lemma TopOneWithCount(s: CountMap, c: int)
    requires |s| >= 2 && SortedByCount(s) && s[0].1 == c && s[1].1 < c
    ensures WithCount(s, c) == [s[0]]
  {
    forall e | e in s[1..] ensures e.1 != c {
      var k :| 0 <= k < |s[1..]| && s[1..][k] == e;
      assert e == s[k + 1];
    }
    WithCountNone(s[1..], c);
  }

  /** Whenever it does not raise on two or more items, the verdict carries the largest count. */
  lemma DetermineBiasReturnsMaximum(counts: CountMap)
    requires |counts| >= 2
    requires CountPositive(counts) >= 2
    ensures DetermineBias(counts).Ok?
    ensures DetermineBias(counts).value in counts
    ensures forall e | e in counts :: e.1 <= DetermineBias(counts).value.1
  {
    DetermineBiasIsWinner(counts);
  }

  /** A count map whose counts are all positive never makes `determine_bias` raise. */
  lemma PositiveCountsNeverFail(counts: CountMap)
    requires AllPositive(counts)
    ensures DetermineBias(counts).Ok?
  {
    if |counts| >= 2 {
      AllPositiveCount(counts);
      DetermineBiasFails(counts);
    }
  }

  /** In a map whose counts are all positive, every item counts as positive. */
  lemma {:induction false} AllPositiveCount(s: CountMap)
    requires AllPositive(s)
    ensures CountPositive(s) == |s|
  {
    if s != [] {
      assert forall e | e in s[1..] :: e in s;
      AllPositiveCount(s[1..]);
    }
  }

  /**
   * When the two largest counts are equal (and positive, so that it does not
   * raise), `determine_bias` returns the second item of the stably sorted
   * list: of the items holding the largest count, the one inserted second.
   */
  lemma DetermineBiasTieGoesToSecond(counts: CountMap)
    requires |counts| >= 2
    requires CountPositive(counts) >= 2
    requires SortByCount(counts)[0].1 == SortByCount(counts)[1].1
    ensures DetermineBias(counts) == Ok(SortByCount(counts)[1])
    ensures |WithCount(counts, MaxCount(counts))| >= 2
    ensures SortByCount(counts)[1] == WithCount(counts, MaxCount(counts))[1]
  {
    var sorted := SortByCount(counts);
    var m := MaxCount(counts);
    DetermineBiasFails(counts);
    assert sorted[1].1 >= 1;
    SortByCountCorrect(counts);
    SortByCountStable(counts, m);
    assert sorted[1] in multiset(counts);
    var w :| w in counts && w.1 == m;
    assert w in multiset(sorted);
    assert sorted[0] in multiset(counts);
    assert sorted[0].1 == m;
    TopTwoWithCount(sorted, m);
  }

  /** On a list whose first two items hold `c`, those two open `WithCount(s, c)`. */
  lemma TopTwoWithCount(s: CountMap, c: int)
    requires |s| >= 2 && s[0].1 == c && s[1].1 == c
    ensures |WithCount(s, c)| >= 2 && WithCount(s, c)[..2] == s[..2]
  {
  }

  /**
   * `determine_bias` raises exactly when there are two or more items and at
   * most one of them has a positive count: the logarithm of the second
   * largest count is then undefined.
   */
  lemma DetermineBiasFails(counts: CountMap)
    ensures DetermineBias(counts).Err? <==> |counts| >= 2 && CountPositive(counts) < 2
  {
    if |counts| >= 2 {
      var sorted := SortByCount(counts);
      SortByCountCorrect(counts);
      SortByCountPositive(counts);
      assert sorted[1..][1..] == sorted[2..];
      if sorted[1].1 < 1 {
        forall e | e in sorted[2..] ensures e.1 < 1 {
          var k :| 0 <= k < |sorted[2..]| && sorted[2..][k] == e;
          assert e == sorted[k + 2];
        }
        CountPositiveNone(sorted[2..]);
      }
    }
  }

  /** The verdicts on small count maps, items listed in insertion order. */
  lemma DetermineBiasExamples()
    ensures DetermineBias([]) == Ok(("", 0))
    ensures DetermineBias([("A", 5)]) == Ok(("A", 5))
    ensures DetermineBias([("A", 100), ("B", 9)]) == Ok(("A", 100))
    ensures DetermineBias([("A", 50), ("B", 40)]) == Ok(("A", 50))
    ensures DetermineBias([("A", 5), ("B", 50)]) == Ok(("B", 50))
    ensures DetermineBias([("A", 7), ("B", 7)]) == Ok(("B", 7))
    ensures DetermineBias([("A", 0), ("B", 0)]) == Err(MathDomainError)
  {
  }
}
