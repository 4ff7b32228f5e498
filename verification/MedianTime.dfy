/** The median time past of a block: the middle of the last 99 block times. */
module MedianTime {
  import Target

  const MEDIAN_TIME_SPAN: nat := 99

  /** How many elements are below a bound. */
  function Below(s: seq<int>, x: int): nat {
    if s == [] then 0 else (if s[0] < x then 1 else 0) + Below(s[1..], x)
  }

  /** At most half of the elements are below a median, and more than half are not above it. */
  predicate IsMedian(s: seq<int>, m: int) {
    m in s && Below(s, m) <= |s| / 2 < Below(s, m + 1)
  }

  /** The times that count for the last of some blocks, given with the oldest first. */
  function Window(times: seq<int>): seq<int> {
    if |times| <= MEDIAN_TIME_SPAN then times else times[|times| - MEDIAN_TIME_SPAN..]
  }

  // ---------- counting ----------

  lemma {:induction false} BelowAppended(s: seq<int>, t: int, x: int)
    ensures Below(s + [t], x) == Below(s, x) + if t < x then 1 else 0
  {
    if s == [] {
      assert s + [t] == [t];
    } else {
      assert (s + [t])[1..] == s[1..] + [t];
      BelowAppended(s[1..], t, x);
    }
  }

  lemma {:induction false} BelowJoined(a: seq<int>, b: seq<int>, x: int)
    ensures Below(a + b, x) == Below(a, x) + Below(b, x)
  {
    if a == [] {
      assert a + b == b;
    } else {
      assert (a + b)[1..] == a[1..] + b;
      BelowJoined(a[1..], b, x);
    }
  }

  lemma {:induction false} BelowMonotone(s: seq<int>, x: int, y: int)
    requires x <= y
    ensures Below(s, x) <= Below(s, y) <= |s|
  {
    if s != [] {
      BelowMonotone(s[1..], x, y);
    }
  }

  /** Counting does not depend on the order. */
  lemma {:induction false} BelowPermuted(a: seq<int>, b: seq<int>, x: int)
    requires multiset(a) == multiset(b)
    ensures |a| == |b| && Below(a, x) == Below(b, x)
    decreases |a|
  {
    assert |multiset(a)| == |a| && |multiset(b)| == |b|;
    if a != [] {
      assert a[0] in multiset(b);
      var j :| 0 <= j < |b| && b[j] == a[0];
      Removed(a, 0);
      Removed(b, j);
      BelowPermuted(a[..0] + a[1..], b[..j] + b[j + 1..], x);
      BelowRemoved(a, 0, x);
      BelowRemoved(b, j, x);
    }
  }

  lemma Removed(s: seq<int>, j: nat)
    requires j < |s|
    ensures multiset(s[..j] + s[j + 1..]) == multiset(s) - multiset{s[j]}
  {
    assert s == s[..j] + ([s[j]] + s[j + 1..]);
  }

  lemma BelowRemoved(s: seq<int>, j: nat, x: int)
    requires j < |s|
    ensures Below(s, x) == Below(s[..j] + s[j + 1..], x) + if s[j] < x then 1 else 0
  {
    var after := s[j + 1..];
    assert s == s[..j] + ([s[j]] + after);
    BelowJoined(s[..j], [s[j]] + after, x);
    BelowJoined(s[..j], after, x);
    BelowJoined([s[j]], after, x);
  }

  lemma MedianIsUnique(s: seq<int>, m: int, n: int)
    requires IsMedian(s, m) && IsMedian(s, n)
    ensures m == n
  {
    if m < n {
      BelowMonotone(s, m + 1, n);
    } else if n < m {
      BelowMonotone(s, n + 1, m);
    }
  }

  // ---------- sorting and picking ----------

  predicate Sorted(s: seq<int>) {
    forall i, j :: 0 <= i < j < |s| ==> s[i] <= s[j]
  }

  lemma {:induction false} BelowOfSorted(s: seq<int>, k: nat)
    requires Sorted(s) && k < |s|
    ensures Below(s, s[k]) <= k < Below(s, s[k] + 1)
  {
    BelowMonotone(s[1..], s[k], s[k] + 1);
    if k == 0 {
      BelowNone(s, s[0]);
    } else {
      BelowOfSorted(s[1..], k - 1);
    }
  }

  lemma {:induction false} BelowNone(s: seq<int>, x: int)
    requires forall i :: 0 <= i < |s| ==> s[i] >= x
    ensures Below(s, x) == 0
  {
    if s != [] {
      BelowNone(s[1..], x);
    }
  }

  /** The middle of a sorted arrangement is the median. */
  lemma MiddleIsMedian(s: seq<int>, sorted: seq<int>)
    requires s != [] && multiset(s) == multiset(sorted) && Sorted(sorted)
    ensures |s| == |sorted| && IsMedian(s, sorted[|s| / 2])
  {
    BelowPermuted(s, sorted, 0);
    var m := sorted[|s| / 2];
    BelowPermuted(s, sorted, m);
    BelowPermuted(s, sorted, m + 1);
    BelowOfSorted(sorted, |s| / 2);
    assert m in multiset(sorted);
  }

  /** Sorts an array from a position on. */
  method Sort(a: array<int>, begin: nat)
    requires begin <= a.Length
    modifies a
    ensures a[..begin] == old(a[..begin]) && Sorted(a[begin..])
    ensures multiset(a[begin..]) == multiset(old(a[begin..]))
  {
    ghost var was := a[..];
    var i := begin;
    while i < a.Length
      invariant begin <= i <= a.Length
      invariant Sorted(a[begin..i])
      invariant a[..begin] == was[..begin] && multiset(a[..]) == multiset(was)
    {
      SortIn(a, begin, i);
      i := i + 1;
    }
    assert a[begin..] == a[begin..i];
    TailPermuted(a[..], was, begin);
    assert a[..][begin..] == a[begin..] && was[begin..] == old(a[begin..]);
  }

  lemma TailPermuted(s: seq<int>, t: seq<int>, k: nat)
    requires k <= |s| == |t| && s[..k] == t[..k] && multiset(s) == multiset(t)
    ensures multiset(s[k..]) == multiset(t[k..])
  {
    assert s == s[..k] + s[k..] && t == t[..k] + t[k..];
    var front, a, b := multiset(s[..k]), multiset(s[k..]), multiset(t[k..]);
    assert front + a == front + b;
    assert a == (front + a) - front == (front + b) - front == b;
  }

  /** Sorted from one position to another, except that one element may be too far up. */
  predicate SortedBut(s: seq<int>, begin: nat, i: nat, j: nat)
    requires i < |s|
  {
    forall p, q :: begin <= p < q <= i && q != j ==> s[p] <= s[q]
  }

  function Swap(s: seq<int>, j: nat): seq<int>
    requires 0 < j < |s|
  {
    s[j - 1 := s[j]][j := s[j - 1]]
  }

  lemma SwapStep(s: seq<int>, begin: nat, i: nat, j: nat)
    requires i < |s| && begin < j <= i && SortedBut(s, begin, i, j) && s[j - 1] > s[j]
    ensures SortedBut(Swap(s, j), begin, i, j - 1)
    ensures Swap(s, j)[..begin] == s[..begin] && multiset(Swap(s, j)) == multiset(s)
  {
  }

  /** Moves an element down to where it belongs among the sorted ones before it. */
  method SortIn(a: array<int>, begin: nat, i: nat)
    requires begin <= i < a.Length && Sorted(a[begin..i])
    modifies a
    ensures a[..begin] == old(a[..begin]) && multiset(a[..]) == multiset(old(a[..]))
    ensures Sorted(a[begin..i + 1])
  {
    hide Sorted, SortedBut, Swap;
    ghost var s := a[..];
    var j := i;
    AlmostSorted(s, begin, i);
    while j > begin && a[j - 1] > a[j]
      invariant begin <= j <= i && s == a[..] && SortedBut(s, begin, i, j)
      invariant s[..begin] == old(a[..])[..begin] && multiset(s) == multiset(old(a[..]))
    {
      SwapStep(s, begin, i, j);
      a[j - 1], a[j] := a[j], a[j - 1];
      SwapIs(s, a[..], j);
      s := a[..];
      j := j - 1;
    }
    Settled(s, begin, i, j);
    assert s[begin..i + 1] == a[begin..i + 1] && s[..begin] == a[..begin] && old(a[..])[..begin] == old(a[..begin]);
  }

  lemma SwapIs(s: seq<int>, t: seq<int>, j: nat)
    requires 0 < j < |s| == |t| && t[j] == s[j - 1] && t[j - 1] == s[j]
    requires forall k :: 0 <= k < |s| && k != j && k != j - 1 ==> t[k] == s[k]
    ensures t == Swap(s, j)
  {
  }

  lemma AlmostSorted(s: seq<int>, begin: nat, i: nat)
    requires begin <= i < |s| && Sorted(s[begin..i])
    ensures SortedBut(s, begin, i, i)
  {
    assert forall p :: begin <= p < i ==> s[p] == s[begin..i][p - begin];
  }

  lemma Settled(s: seq<int>, begin: nat, i: nat, j: nat)
    requires begin <= j <= i < |s| && SortedBut(s, begin, i, j) && (j == begin || s[j - 1] <= s[j])
    ensures Sorted(s[begin..i + 1])
  {
    forall p | begin <= p < j
      ensures s[p] <= s[j]
    {
      assert p < j - 1 ==> s[p] <= s[j - 1];
    }
  }

  /** Fills an array from its end with the times going back from the last block. */
  method CollectTimes(times: seq<int>, median: array<int>) returns (begin: nat)
    requires times != [] && median.Length == MEDIAN_TIME_SPAN
    modifies median
    ensures begin < MEDIAN_TIME_SPAN && median[begin..] == Window(times)
  {
    begin := MEDIAN_TIME_SPAN;
    var index := |times| - 1;
    while begin > 0 && index >= 0
      invariant begin <= MEDIAN_TIME_SPAN && -1 <= index < |times|
      invariant MEDIAN_TIME_SPAN - begin == |times| - 1 - index
      invariant forall k :: begin <= k < MEDIAN_TIME_SPAN ==> median[k] == times[k + |times| - MEDIAN_TIME_SPAN]
      decreases index
    {
      begin := begin - 1;
      median[begin] := times[index];
      index := index - 1;
    }
  }

  /** Collects the times, sorts them and takes the middle one. */
  method GetMedianTimePast(times: seq<int>) returns (m: int)
    requires times != []
    ensures IsMedian(Window(times), m)
  {
    hide Window, IsMedian;
    var median := new int[MEDIAN_TIME_SPAN];
    var begin := CollectTimes(times, median);
    Sort(median, begin);
    MiddleIsMedian(Window(times), median[begin..]);
    var middle := begin + (MEDIAN_TIME_SPAN - begin) / 2;
    m := median[middle];
  }

  // ---------- the rule for block times ----------

  /**
   A block whose time is not below the median past of its parent does not lower the median, whether
   or not the window slides.
   */
  lemma MedianDoesNotDecrease(times: seq<int>, t: int, m: int, m': int)
    requires times != [] && IsMedian(Window(times), m) && t >= m
    requires IsMedian(Window(times + [t]), m')
    ensures m <= m'
  {
    if m' < m {
      BelowMonotone(Window(times), m' + 1, m);
      WindowMoves(times, t, m' + 1);
    }
  }

  lemma WindowMoves(times: seq<int>, t: int, x: int)
    requires times != [] && x <= t
    ensures |Window(times)| <= |Window(times + [t])|
    ensures Below(Window(times + [t]), x) <= Below(Window(times), x)
  {
    var w := Window(times);
    BelowAppended(w, t, x);
    if |times| < MEDIAN_TIME_SPAN {
      assert Window(times + [t]) == w + [t];
    } else {
      assert Window(times + [t]) == (w + [t])[1..];
    }
  }

  /** Each block after the first has a time above the median time past of its parent. */
  ghost predicate TimesObeyRule(times: seq<int>) {
    forall i, m :: 0 < i < |times| && IsMedian(Window(times[..i]), m) ==> times[i] > m
  }

  /** Along a chain that obeys the rule the median time past never decreases. */
  lemma {:induction false} MediansNeverDecrease(times: seq<int>, i: nat, j: nat, m: int, n: int)
    requires TimesObeyRule(times) && 0 < i <= j <= |times|
    requires IsMedian(Window(times[..i]), m) && IsMedian(Window(times[..j]), n)
    ensures m <= n
    decreases j - i
  {
    hide IsMedian;
    if i == j {
      MedianIsUnique(Window(times[..i]), m, n);
    } else {
      var k := j - 1;
      var o := MedianExists(Window(times[..k]));
      MediansNeverDecrease(times, i, k, m, o);
      assert times[k] > o;
      assert times[..k] + [times[k]] == times[..j];
      MedianDoesNotDecrease(times[..k], times[k], o, n);
    }
  }

  /** The rule allows a block far ahead of time and a next one long before it. */
  function OneFarAhead(): seq<int> {
    seq(99, i => i) + [1_000_099, 100]
  }

  /** So spacings do occur that are negative enough for a target easier than on-target spacing gives. */
  lemma NegativeSpacingOccurs()
    ensures TimesObeyRule(OneFarAhead()) && |OneFarAhead()| == 101
    ensures var actual := OneFarAhead()[100] - OneFarAhead()[99];
            var bits := 7 * Target.FRACTION + Target.FRACTION / 2;
            && Target.Divisor(10080, 60, actual) < 0 < Target.Divisor(10080, 60, 60)
            && Target.Step(bits, Target.NextDifficulty(bits, 10080, 60, actual))
               < Target.Step(bits, Target.NextDifficulty(bits, 10080, 60, 60))
  {
    hide IsMedian;
    var times := OneFarAhead();
    forall i, m | 0 < i < |times| && IsMedian(Window(times[..i]), m)
      ensures times[i] > m
    {
      if i < 100 {
        MedianBelow(Window(times[..i]), m, times[i]);
      } else {
        var front := times[1..99];
        assert Window(times[..100]) == front + [1_000_099];
        MedianBelowMost(front, 1_000_099, m, 100);
      }
    }
    hide OneFarAhead, Target.Step, Target.NextDifficulty;
    Target.NegativeSpacingBreaksOrder();
  }

  lemma MedianBelow(s: seq<int>, m: int, bound: int)
    requires IsMedian(s, m) && forall i :: 0 <= i < |s| ==> s[i] < bound
    ensures m < bound
  {
  }

  lemma MedianBelowMost(s: seq<int>, last: int, m: int, bound: int)
    requires IsMedian(s + [last], m) && |s| >= 2 && forall i :: 0 <= i < |s| ==> s[i] < bound
    ensures m < bound
  {
    if m >= bound {
      BelowAll(s, m);
      BelowAppended(s, last, m);
    }
  }

  lemma {:induction false} BelowAll(s: seq<int>, x: int)
    requires forall i :: 0 <= i < |s| ==> s[i] < x
    ensures Below(s, x) == |s|
  {
    if s != [] {
      BelowAll(s[1..], x);
    }
  }

  lemma {:induction false} MedianExists(s: seq<int>) returns (m: int)
    requires s != []
    ensures IsMedian(s, m)
  {
    var sorted := Arranged(s);
    MiddleIsMedian(s, sorted);
    m := sorted[|s| / 2];
  }

  lemma {:induction false} Arranged(s: seq<int>) returns (sorted: seq<int>)
    ensures Sorted(sorted) && multiset(sorted) == multiset(s)
  {
    if s == [] {
      return s;
    }
    var rest := Arranged(s[1..]);
    var k := 0;
    while k < |rest| && rest[k] < s[0]
      invariant 0 <= k <= |rest|
      invariant forall i :: 0 <= i < k ==> rest[i] < s[0]
    {
      k := k + 1;
    }
    sorted := rest[..k] + [s[0]] + rest[k..];
    assert rest == rest[..k] + rest[k..] && s == [s[0]] + s[1..];
  }
}
