/** Percentile position of a value inside one momentum window: the index of its
    first occurrence in the ascending sort of the window's values, divided by
    max(n - 1, 1), times 100. Ties share the lowest index; they are not averaged. */
module Percentile {

  predicate SortedAsc(s: seq<real>)
  {
    forall i, j :: 0 <= i < j < |s| ==> s[i] <= s[j]
  }

  /** Inserts `x` before the first element that is not smaller. */
  function Insert(x: real, s: seq<real>): seq<real>
  {
    if s == [] || x <= s[0] then [x] + s else [s[0]] + Insert(x, s[1..])
  }

  /** Ascending sort of the window's values. */
  function SortAsc(s: seq<real>): seq<real>
  {
    if s == [] then [] else Insert(s[0], SortAsc(s[1..]))
  }

  /** Index of the first occurrence of `v`. */
  function IndexOf(s: seq<real>, v: real): nat
    requires v in s
  {
    if s[0] == v then 0 else 1 + IndexOf(s[1..], v)
  }

  /** Number of values strictly below `v`. */
  function CountLess(s: seq<real>, v: real): nat
  {
    if s == [] then 0 else (if s[0] < v then 1 else 0) + CountLess(s[1..], v)
  }

  /** max(n - 1, 1) */
  function Divisor(n: nat): (d: nat)
  {
    if n - 1 > 1 then n - 1 else 1
  }

  /** Percentile of `v` within the ascending list `sorted`. */
  function PctRank(v: real, sorted: seq<real>): real
    requires v in sorted
  {
    (IndexOf(sorted, v) as real / Divisor(|sorted|) as real) * 100.0
  }

  // ---------------------------------------------------------------------------
  // The sort

  predicate AllAtLeast(b: real, s: seq<real>)
  {
    forall i :: 0 <= i < |s| ==> b <= s[i]
  }

  lemma {:induction false} InsertAtLeast(b: real, x: real, s: seq<real>)
    requires b <= x && AllAtLeast(b, s)
    ensures AllAtLeast(b, Insert(x, s))
  {
    if s != [] && x > s[0] {
      InsertAtLeast(b, x, s[1..]);
    }
  }

  lemma {:induction false} InsertSorted(x: real, s: seq<real>)
    requires SortedAsc(s)
    ensures SortedAsc(Insert(x, s))
  {
    if s != [] && x > s[0] {
      InsertSorted(x, s[1..]);
      InsertAtLeast(s[0], x, s[1..]);
    }
  }

  lemma {:induction false} InsertPermutes(x: real, s: seq<real>)
    ensures multiset(Insert(x, s)) == multiset(s) + multiset{x}
  {
    if s != [] && x > s[0] {
      InsertPermutes(x, s[1..]);
      assert s == [s[0]] + s[1..];
    }
  }

  /** The sort yields an ascending permutation of its input. */
  lemma {:induction false} SortAscCorrect(s: seq<real>)
    ensures SortedAsc(SortAsc(s))
    ensures multiset(SortAsc(s)) == multiset(s)
  {
    if s != [] {
      SortAscCorrect(s[1..]);
      InsertSorted(s[0], SortAsc(s[1..]));
      InsertPermutes(s[0], SortAsc(s[1..]));
      assert s == [s[0]] + s[1..];
    }
  }

  lemma SortedFirstIsLeast(t: seq<real>, x: real)
    requires SortedAsc(t) && x in t
    ensures t[0] <= x
  {
  }

  lemma DropFirst<T>(s: seq<T>)
    requires s != []
    ensures multiset(s[1..]) == multiset(s) - multiset{s[0]}
  {
    assert s == [s[0]] + s[1..];
  }

  lemma SameHead(s: seq<real>, t: seq<real>)
    requires SortedAsc(s) && SortedAsc(t) && s != []
    requires multiset(s) == multiset(t)
    ensures t != [] && s[0] == t[0]
    ensures multiset(s[1..]) == multiset(t[1..])
  {
    assert s[0] in multiset(s);
    assert s[0] in t;
    assert t[0] in multiset(t);
    assert t[0] in s;
    SortedFirstIsLeast(t, s[0]);
    SortedFirstIsLeast(s, t[0]);
    DropFirst(s);
    DropFirst(t);
  }

  /** Two ascending lists holding the same values are the same list. */
  lemma {:induction false} SortedUnique(s: seq<real>, t: seq<real>)
    requires SortedAsc(s) && SortedAsc(t)
    requires multiset(s) == multiset(t)
    ensures s == t
  {
    if s == [] {
      assert |t| == |multiset(t)| == 0;
    } else {
      SameHead(s, t);
      SortedUnique(s[1..], t[1..]);
      assert s == [s[0]] + s[1..] && t == [t[0]] + t[1..];
    }
  }

  /** The sorted window, and hence every percentile computed from it, depends
      only on which values occur and how often, not on the row order. */
  lemma SortAscOrderIndependent(a: seq<real>, b: seq<real>)
    requires multiset(a) == multiset(b)
    ensures SortAsc(a) == SortAsc(b)
  {
    SortAscCorrect(a);
    SortAscCorrect(b);
    SortedUnique(SortAsc(a), SortAsc(b));
  }

  // ---------------------------------------------------------------------------
  // Counting

  lemma {:induction false} CountLessAppend(a: seq<real>, b: seq<real>, v: real)
    ensures CountLess(a + b, v) == CountLess(a, v) + CountLess(b, v)
  {
    if a == [] {
      assert a + b == b;
    } else {
      assert (a + b)[0] == a[0];
      assert (a + b)[1..] == a[1..] + b;
      CountLessAppend(a[1..], b, v);
    }
  }

  lemma {:induction false} CountLessAll(s: seq<real>, v: real)
    ensures CountLess(s, v) <= |s|
    ensures CountLess(s, v) == |s| <==> forall i :: 0 <= i < |s| ==> s[i] < v
  {
    if s != [] {
      CountLessAll(s[1..], v);
      if forall i :: 0 <= i < |s| ==> s[i] < v {
        forall i | 0 <= i < |s| - 1 ensures s[1..][i] < v {
          assert s[1..][i] == s[i + 1];
        }
      }
      if CountLess(s, v) == |s| {
        forall i | 0 <= i < |s| ensures s[i] < v {
          if i > 0 { assert s[1..][i - 1] == s[i]; }
        }
      }
    }
  }

  lemma {:induction false} CountLessInsert(x: real, s: seq<real>, v: real)
    ensures CountLess(Insert(x, s), v) == CountLess([x] + s, v)
  {
    if s != [] && x > s[0] {
      CountLessInsert(x, s[1..], v);
      assert ([x] + s)[1..] == s;
      assert ([x] + s[1..])[1..] == s[1..];
    }
  }

  lemma {:induction false} CountLessSort(s: seq<real>, v: real)
    ensures CountLess(SortAsc(s), v) == CountLess(s, v)
  {
    if s != [] {
      CountLessSort(s[1..], v);
      CountLessInsert(s[0], SortAsc(s[1..]), v);
      assert ([s[0]] + SortAsc(s[1..]))[1..] == SortAsc(s[1..]);
    }
  }

  /** In an ascending list the first occurrence of `v` sits right after the
      values strictly below it. */
  lemma {:induction false} IndexOfSorted(s: seq<real>, v: real)
    requires SortedAsc(s) && v in s
    ensures IndexOf(s, v) == CountLess(s, v)
  {
    if s[0] == v {
      CountLessNoneBelow(s[1..], v);
    } else {
      assert s[0] < v by {
        var k :| 0 <= k < |s| && s[k] == v;
      }
      IndexOfSorted(s[1..], v);
    }
  }

  lemma {:induction false} CountLessNoneBelow(s: seq<real>, v: real)
    requires forall i :: 0 <= i < |s| ==> v <= s[i]
    ensures CountLess(s, v) == 0
  {
    if s != [] {
      CountLessNoneBelow(s[1..], v);
    }
  }

  lemma {:induction false} CountLessMonotone(s: seq<real>, v: real, w: real)
    requires v <= w
    ensures CountLess(s, v) <= CountLess(s, w)
    ensures v < w && v in s ==> CountLess(s, v) < CountLess(s, w)
  {
    if s != [] {
      CountLessMonotone(s[1..], v, w);
    }
  }

  // ---------------------------------------------------------------------------
  // Percentiles of a window

  /** Reference definition: the percentile of a window value is 100 times the
      number of window values strictly below it, over max(n - 1, 1). */
  lemma PctRankCountsLower(vals: seq<real>, v: real)
    requires v in vals
    ensures v in SortAsc(vals)
    ensures PctRank(v, SortAsc(vals)) == (CountLess(vals, v) as real / Divisor(|vals|) as real) * 100.0
  {
    SortAscCorrect(vals);
    assert v in multiset(SortAsc(vals));
    IndexOfSorted(SortAsc(vals), v);
    CountLessSort(vals, v);
  }

  /** Every percentile lies between 0 and 100. */
  lemma PctRankBounds(vals: seq<real>, v: real)
    requires v in vals
    ensures v in SortAsc(vals)
    ensures 0.0 <= PctRank(v, SortAsc(vals)) <= 100.0
  {
    PctRankCountsLower(vals, v);
    var k :| 0 <= k < |vals| && vals[k] == v;
    CountLessSplit(vals, k);
    CountLessAll(vals[..k], v);
    CountLessAll(vals[k + 1..], v);
    FractionBounds(CountLess(vals, v), Divisor(|vals|));
  }

  /** The smallest value of a window has percentile 0. */
  lemma PctRankOfMinimum(vals: seq<real>, v: real)
    requires v in vals
    requires forall i :: 0 <= i < |vals| ==> v <= vals[i]
    ensures v in SortAsc(vals)
    ensures PctRank(v, SortAsc(vals)) == 0.0
  {
    PctRankCountsLower(vals, v);
    CountLessNoneBelow(vals, v);
    FractionBounds(0, Divisor(|vals|));
  }

  /** With more than one row, a value has percentile 100 exactly when it is
      above every other value of the window; a maximum shared by two rows maps
      to the first of their positions and so stays below 100. */
  lemma PctRankOfMaximum(vals: seq<real>, k: nat)
    requires k < |vals| && |vals| > 1
    ensures vals[k] in SortAsc(vals)
    ensures PctRank(vals[k], SortAsc(vals)) == 100.0 <==>
              forall i :: 0 <= i < |vals| && i != k ==> vals[i] < vals[k]
  {
    var v := vals[k];
    PctRankCountsLower(vals, v);
    CountLessSplit(vals, k);
    var front, back := vals[..k], vals[k + 1..];
    CountLessAll(front, v);
    CountLessAll(back, v);
    var d := Divisor(|vals|);
    assert d == |vals| - 1 == |front| + |back|;
    FractionBounds(CountLess(vals, v), d);
    if forall i :: 0 <= i < |vals| && i != k ==> vals[i] < v {
      forall i | 0 <= i < |front| ensures front[i] < v { assert front[i] == vals[i]; }
      forall i | 0 <= i < |back| ensures back[i] < v { assert back[i] == vals[k + 1 + i]; }
    }
    if CountLess(vals, v) == d {
      forall i | 0 <= i < |vals| && i != k ensures vals[i] < v {
        if i < k { assert front[i] == vals[i]; } else { assert back[i - k - 1] == vals[i]; }
      }
    }
  }

  /** Percentiles follow the order of the values: a larger window value never
      has a smaller percentile, and a strictly larger one has a strictly larger
      percentile. */
  lemma PctRankMonotone(vals: seq<real>, v: real, w: real)
    requires v in vals && w in vals && v <= w
    ensures v in SortAsc(vals) && w in SortAsc(vals)
    ensures PctRank(v, SortAsc(vals)) <= PctRank(w, SortAsc(vals))
    ensures v < w ==> PctRank(v, SortAsc(vals)) < PctRank(w, SortAsc(vals))
  {
    PctRankCountsLower(vals, v);
    PctRankCountsLower(vals, w);
    CountLessMonotone(vals, v, w);
    FractionMonotone(CountLess(vals, v), CountLess(vals, w), Divisor(|vals|));
  }

  lemma CountLessSplit(vals: seq<real>, k: nat)
    requires k < |vals|
    ensures CountLess(vals, vals[k]) == CountLess(vals[..k], vals[k]) + CountLess(vals[k + 1..], vals[k])
  {
    var v := vals[k];
    assert vals == vals[..k] + ([v] + vals[k + 1..]);
    CountLessAppend(vals[..k], [v] + vals[k + 1..], v);
    assert ([v] + vals[k + 1..])[1..] == vals[k + 1..];
  }

  lemma FractionBounds(k: nat, d: nat)
    requires 0 < d
    ensures 0.0 <= (k as real / d as real) * 100.0
    ensures k <= d ==> (k as real / d as real) * 100.0 <= 100.0
    ensures (k as real / d as real) * 100.0 == 100.0 <==> k == d
    ensures (k as real / d as real) * 100.0 == 0.0 <==> k == 0
  {
  }

  lemma FractionMonotone(k1: nat, k2: nat, d: nat)
    requires 0 < d && k1 <= k2
    ensures (k1 as real / d as real) * 100.0 <= (k2 as real / d as real) * 100.0
    ensures k1 < k2 ==> (k1 as real / d as real) * 100.0 < (k2 as real / d as real) * 100.0
  {
  }
}
