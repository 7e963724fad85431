/** The cross-sectional ranker: the RSL trend gate, one percentile per
    momentum window, the weighted composite, and the stable descending sort
    that assigns ranks 1..n. */
module Ranking {
  import opened Wrappers
  import opened Percentile

  const TOP_N: nat := 20
  const RSL_THRESHOLD: real := 1.0
  const W_12M: real := 0.40
  const W_6M: real := 0.35
  const W_3M: real := 0.25

  /** One valid instrument. `composite`, `rank` and `prevRank` are written by
      the ranking steps; whatever they hold before that is overwritten. */
  datatype Row = Row(
    name: string,
    ticker: string,
    price: real,
    rsl: real,
    mom12: real,
    mom6: real,
    mom3: real,
    composite: real,
    rank: int,
    prevRank: Option<int>)

  /** The three momentum windows. */
  datatype Window = Long | Medium | Short

  function Value(r: Row, w: Window): real
  {
    match w
    case Long => r.mom12
    case Medium => r.mom6
    case Short => r.mom3
  }

  /** The values of one window, row by row. */
  function Column(rows: seq<Row>, w: Window): (c: seq<real>)
    ensures |c| == |rows|
    ensures forall i :: 0 <= i < |rows| ==> c[i] == Value(rows[i], w)
  {
    seq(|rows|, i requires 0 <= i < |rows| => Value(rows[i], w))
  }

  // ---------------------------------------------------------------------------
  // Trend gate

  /** The rows whose RSL reaches the threshold, in their original order. */
  function RslSurvivors(rows: seq<Row>): seq<Row>
  {
    if rows == [] then []
    else
      var last := rows[|rows| - 1];
      RslSurvivors(rows[..|rows| - 1]) + (if last.rsl >= RSL_THRESHOLD then [last] else [])
  }

  method FilterByRsl(rows: seq<Row>) returns (kept: seq<Row>)
    ensures kept == RslSurvivors(rows)
    ensures forall r :: r in kept <==> r in rows && r.rsl >= RSL_THRESHOLD
  {
    kept := [];
    for i := 0 to |rows|
      invariant kept == RslSurvivors(rows[..i])
    {
      assert rows[..i + 1][..i] == rows[..i];
      if rows[i].rsl >= RSL_THRESHOLD {
        kept := kept + [rows[i]];
      }
    }
    assert rows[..|rows|] == rows;
    RslSurvivorsMembers(rows);
  }

  /** A row survives exactly when it is one of the input rows and its RSL is
      at least 1. */
  lemma {:induction false} RslSurvivorsMembers(rows: seq<Row>)
    ensures forall r :: r in RslSurvivors(rows) <==> r in rows && r.rsl >= RSL_THRESHOLD
  {
    if rows != [] {
      RslSurvivorsMembers(rows[..|rows| - 1]);
      assert rows == rows[..|rows| - 1] + [rows[|rows| - 1]];
    }
  }

  /** The gate keeps relative order: filtering two runs of rows one after the
      other is filtering their concatenation. */
  lemma {:induction false} RslSurvivorsAppend(a: seq<Row>, b: seq<Row>)
    ensures RslSurvivors(a + b) == RslSurvivors(a) + RslSurvivors(b)
  {
    if b == [] {
      assert a + b == a;
    } else {
      assert (a + b)[..|a + b| - 1] == a + b[..|b| - 1];
      RslSurvivorsAppend(a, b[..|b| - 1]);
    }
  }

  // ---------------------------------------------------------------------------
  // Percentiles and composite

  /** Percentile of row `i` within window `w`, against the ascending sort of
      that window's values over all rows. */
  function WindowPct(rows: seq<Row>, i: nat, w: Window): real
    requires i < |rows|
  {
    var vals := Column(rows, w);
    PctRankCountsLower(vals, vals[i]);
    PctRank(vals[i], SortAsc(vals))
  }

  /** Weighted blend of the three window percentiles. */
  function CompositeScore(rows: seq<Row>, i: nat): real
    requires i < |rows|
  {
    W_12M * WindowPct(rows, i, Long) + W_6M * WindowPct(rows, i, Medium) + W_3M * WindowPct(rows, i, Short)
  }

  /** Sets every row's composite, the sorted window lists being built once
      before the loop. */
  method ScoreComposites(rows: seq<Row>) returns (scored: seq<Row>)
    ensures |scored| == |rows|
    ensures forall i :: 0 <= i < |rows| ==> scored[i] == rows[i].(composite := CompositeScore(rows, i))
    ensures forall i :: 0 <= i < |rows| ==> 0.0 <= scored[i].composite <= 100.0
  {
    var vals12, vals6, vals3 := SortAsc(Column(rows, Long)), SortAsc(Column(rows, Medium)), SortAsc(Column(rows, Short));
    scored := rows;
    for i := 0 to |rows|
      invariant |scored| == |rows|
      invariant forall j :: 0 <= j < i ==> scored[j] == rows[j].(composite := CompositeScore(rows, j))
      invariant forall j :: i <= j < |rows| ==> scored[j] == rows[j]
    {
      var r := scored[i];
      PctRankCountsLower(Column(rows, Long), r.mom12);
      PctRankCountsLower(Column(rows, Medium), r.mom6);
      PctRankCountsLower(Column(rows, Short), r.mom3);
      var p12, p6, p3 := PctRank(r.mom12, vals12), PctRank(r.mom6, vals6), PctRank(r.mom3, vals3);
      scored := scored[i := r.(composite := W_12M * p12 + W_6M * p6 + W_3M * p3)];
    }
    forall i | 0 <= i < |rows| ensures 0.0 <= scored[i].composite <= 100.0 {
      CompositeBounds(rows, i);
    }
  }

  /** Every row with its composite set, as `ScoreComposites` leaves them. */
  function WithComposites(rows: seq<Row>): (scored: seq<Row>)
    ensures |scored| == |rows|
    ensures forall i :: 0 <= i < |rows| ==> scored[i] == rows[i].(composite := CompositeScore(rows, i))
  {
    seq(|rows|, i requires 0 <= i < |rows| => rows[i].(composite := CompositeScore(rows, i)))
  }

  lemma WindowPctBounds(rows: seq<Row>, i: nat, w: Window)
    requires i < |rows|
    ensures 0.0 <= WindowPct(rows, i, w) <= 100.0
  {
    var vals := Column(rows, w);
    PctRankBounds(vals, vals[i]);
  }

  /** The weights sum to 1, so the composite stays within 0..100. */
  lemma CompositeBounds(rows: seq<Row>, i: nat)
    requires i < |rows|
    ensures 0.0 <= CompositeScore(rows, i) <= 100.0
  {
    WindowPctBounds(rows, i, Long);
    WindowPctBounds(rows, i, Medium);
    WindowPctBounds(rows, i, Short);
  }

  lemma WindowPctMonotone(rows: seq<Row>, i: nat, j: nat, w: Window)
    requires i < |rows| && j < |rows|
    requires Value(rows[i], w) <= Value(rows[j], w)
    ensures WindowPct(rows, i, w) <= WindowPct(rows, j, w)
    ensures Value(rows[i], w) < Value(rows[j], w) ==> WindowPct(rows, i, w) < WindowPct(rows, j, w)
  {
    var vals := Column(rows, w);
    PctRankMonotone(vals, vals[i], vals[j]);
  }

  /** A row at least as strong as another in every window scores at least as
      high, and strictly higher when it is strictly stronger in some window. */
  lemma CompositeDominance(rows: seq<Row>, i: nat, j: nat)
    requires i < |rows| && j < |rows|
    requires rows[i].mom12 <= rows[j].mom12 && rows[i].mom6 <= rows[j].mom6 && rows[i].mom3 <= rows[j].mom3
    ensures CompositeScore(rows, i) <= CompositeScore(rows, j)
    ensures rows[i].mom12 < rows[j].mom12 || rows[i].mom6 < rows[j].mom6 || rows[i].mom3 < rows[j].mom3 ==>
              CompositeScore(rows, i) < CompositeScore(rows, j)
  {
    WindowPctMonotone(rows, i, j, Long);
    WindowPctMonotone(rows, i, j, Medium);
    WindowPctMonotone(rows, i, j, Short);
  }

  /** With more than one row, a row that is strictly best in all three windows
      scores exactly 100. */
  lemma CompositeOfLeader(rows: seq<Row>, k: nat)
    requires k < |rows| && |rows| > 1
    requires forall i :: 0 <= i < |rows| && i != k ==>
               rows[i].mom12 < rows[k].mom12 && rows[i].mom6 < rows[k].mom6 && rows[i].mom3 < rows[k].mom3
    ensures CompositeScore(rows, k) == 100.0
  {
    var c12, c6, c3 := Column(rows, Long), Column(rows, Medium), Column(rows, Short);
    PctRankOfMaximum(c12, k);
    PctRankOfMaximum(c6, k);
    PctRankOfMaximum(c3, k);
  }

  /** A row's composite depends only on its own values and on which values
      each window holds, not on the order of the rows. */
  lemma CompositeOrderIndependent(a: seq<Row>, i: nat, b: seq<Row>, j: nat)
    requires i < |a| && j < |b|
    requires forall w :: multiset(Column(a, w)) == multiset(Column(b, w))
    requires forall w :: Value(a[i], w) == Value(b[j], w)
    ensures CompositeScore(a, i) == CompositeScore(b, j)
  {
    SortAscOrderIndependent(Column(a, Long), Column(b, Long));
    SortAscOrderIndependent(Column(a, Medium), Column(b, Medium));
    SortAscOrderIndependent(Column(a, Short), Column(b, Short));
    assert Value(a[i], Long) == Value(b[j], Long);
    assert Value(a[i], Medium) == Value(b[j], Medium);
    assert Value(a[i], Short) == Value(b[j], Short);
  }

  // ---------------------------------------------------------------------------
  // Stable descending sort by composite

  predicate SortedDesc(s: seq<Row>)
  {
    forall i, j :: 0 <= i < j < |s| ==> s[i].composite >= s[j].composite
  }

  /** Inserts `x` before the first row whose composite does not exceed its own,
      so that `x` stays ahead of the rows that followed it with an equal score. */
  function InsertDesc(x: Row, s: seq<Row>): (r: seq<Row>)
    ensures |r| == |s| + 1
  {
    if s == [] || x.composite >= s[0].composite then [x] + s else [s[0]] + InsertDesc(x, s[1..])
  }

  /** The order `list.sort(key=composite, reverse=True)` produces. */
  function SortByComposite(s: seq<Row>): (r: seq<Row>)
    ensures |r| == |s|
  {
    if s == [] then [] else InsertDesc(s[0], SortByComposite(s[1..]))
  }

  /** The rows scoring exactly `c`, in order. */
  function WithComposite(s: seq<Row>, c: real): seq<Row>
  {
    if s == [] then []
    else (if s[0].composite == c then [s[0]] else []) + WithComposite(s[1..], c)
  }

  predicate AllAtMost(c: real, s: seq<Row>)
  {
    forall i :: 0 <= i < |s| ==> s[i].composite <= c
  }

  lemma {:induction false} InsertDescAtMost(c: real, x: Row, s: seq<Row>)
    requires x.composite <= c && AllAtMost(c, s)
    ensures AllAtMost(c, InsertDesc(x, s))
  {
    if s != [] && x.composite < s[0].composite {
      InsertDescAtMost(c, x, s[1..]);
    }
  }

  lemma {:induction false} InsertDescSorted(x: Row, s: seq<Row>)
    requires SortedDesc(s)
    ensures SortedDesc(InsertDesc(x, s))
  {
    if s != [] && x.composite < s[0].composite {
      InsertDescSorted(x, s[1..]);
      InsertDescAtMost(s[0].composite, x, s[1..]);
    }
  }

  lemma {:induction false} InsertDescPermutes(x: Row, s: seq<Row>)
    ensures multiset(InsertDesc(x, s)) == multiset(s) + multiset{x}
  {
    if s != [] && x.composite < s[0].composite {
      InsertDescPermutes(x, s[1..]);
      assert s == [s[0]] + s[1..];
    }
  }

  /** The sort yields a permutation of its input, by non-increasing composite. */
  lemma {:induction false} SortByCompositeCorrect(s: seq<Row>)
    ensures SortedDesc(SortByComposite(s))
    ensures multiset(SortByComposite(s)) == multiset(s)
  {
    if s != [] {
      SortByCompositeCorrect(s[1..]);
      InsertDescSorted(s[0], SortByComposite(s[1..]));
      InsertDescPermutes(s[0], SortByComposite(s[1..]));
      assert s == [s[0]] + s[1..];
    }
  }

  lemma {:induction false} WithCompositeInsert(x: Row, s: seq<Row>, c: real)
    ensures WithComposite(InsertDesc(x, s), c) == WithComposite([x] + s, c)
  {
    if s != [] && x.composite < s[0].composite {
      WithCompositeInsert(x, s[1..], c);
      assert ([x] + s)[1..] == s;
      assert ([x] + s[1..])[1..] == s[1..];
      assert ([s[0]] + InsertDesc(x, s[1..]))[1..] == InsertDesc(x, s[1..]);
    }
  }

  /** The sort is stable: for every score, the rows with that score appear in
      the same relative order as in the input. */
  lemma {:induction false} SortByCompositeStable(s: seq<Row>, c: real)
    ensures WithComposite(SortByComposite(s), c) == WithComposite(s, c)
  {
    if s != [] {
      SortByCompositeStable(s[1..], c);
      WithCompositeInsert(s[0], SortByComposite(s[1..]), c);
      assert ([s[0]] + SortByComposite(s[1..]))[1..] == SortByComposite(s[1..]);
    }
  }

  // ---------------------------------------------------------------------------
  // Independence of the rank order from the input order

  /** No two different rows share a score: a tie can only be between copies
      of the same row. */
  predicate ScoreDeterminesRow(s: seq<Row>)
  {
    forall x, y :: x in s && y in s && x.composite == y.composite ==> x == y
  }

  lemma SameHeadRow(s: seq<Row>, t: seq<Row>)
    requires SortedDesc(s) && SortedDesc(t) && s != []
    requires multiset(s) == multiset(t)
    requires ScoreDeterminesRow(s)
    ensures t != [] && s[0] == t[0]
    ensures multiset(s[1..]) == multiset(t[1..])
  {
    assert s[0] in multiset(t);
    assert t[0] in multiset(s);
    var i :| 0 <= i < |t| && t[i] == s[0];
    var j :| 0 <= j < |s| && s[j] == t[0];
    assert t[0].composite >= t[i].composite && s[0].composite >= s[j].composite;
    DropFirst(s);
    DropFirst(t);
  }

  /** Two descending lists holding the same rows, where a score identifies its
      row, are the same list. */
  lemma {:induction false} SortedDescUnique(s: seq<Row>, t: seq<Row>)
    requires SortedDesc(s) && SortedDesc(t)
    requires multiset(s) == multiset(t)
    requires ScoreDeterminesRow(s)
    ensures s == t
  {
    if s == [] {
      assert |t| == |multiset(t)| == 0;
    } else {
      SameHeadRow(s, t);
      assert forall x :: x in s[1..] ==> x in s;
      SortedDescUnique(s[1..], t[1..]);
      assert s == [s[0]] + s[1..] && t == [t[0]] + t[1..];
    }
  }

  /** When a score identifies its row, the sort's result does not depend on
      the input order. (With ties between different rows it does, and
      `SortByCompositeStable` says how.) */
  lemma SortByCompositeUnique(a: seq<Row>, b: seq<Row>)
    requires multiset(a) == multiset(b)
    requires ScoreDeterminesRow(a)
    ensures SortByComposite(a) == SortByComposite(b)
  {
    SortByCompositeCorrect(a);
    SortByCompositeCorrect(b);
    var sa := SortByComposite(a);
    assert forall x :: x in sa ==> x in multiset(a);
    SortedDescUnique(sa, SortByComposite(b));
  }

  /** The rows of `s` mapped through `f`. */
  function MapRows<T>(f: Row -> T, s: seq<Row>): (r: seq<T>)
    ensures |r| == |s|
    ensures forall i :: 0 <= i < |s| ==> r[i] == f(s[i])
  {
    seq(|s|, i requires 0 <= i < |s| => f(s[i]))
  }

  lemma MapRowsAppend<T>(f: Row -> T, a: seq<Row>, b: seq<Row>)
    ensures MapRows(f, a + b) == MapRows(f, a) + MapRows(f, b)
  {
    var lhs, rhs := MapRows(f, a + b), MapRows(f, a) + MapRows(f, b);
    assert |lhs| == |rhs|;
    forall i | 0 <= i < |lhs| ensures lhs[i] == rhs[i] {
      if i < |a| { assert (a + b)[i] == a[i]; } else { assert (a + b)[i] == b[i - |a|]; }
    }
  }

  lemma RemoveAt(b: seq<Row>, k: nat)
    requires k < |b|
    ensures b == b[..k] + ([b[k]] + b[k + 1..])
    ensures multiset(b[..k] + b[k + 1..]) == multiset(b) - multiset{b[k]}
  {
    assert b == b[..k] + [b[k]] + b[k + 1..];
  }

  lemma MapRowsSplice<T>(f: Row -> T, front: seq<Row>, x: Row, back: seq<Row>)
    ensures MapRows(f, [x] + back) == [f(x)] + MapRows(f, back)
    ensures MapRows(f, front + ([x] + back)) == MapRows(f, front) + ([f(x)] + MapRows(f, back))
    ensures MapRows(f, front + back) == MapRows(f, front) + MapRows(f, back)
  {
    MapRowsAppend(f, [x], back);
    assert MapRows(f, [x]) == [f(x)];
    MapRowsAppend(f, front, [x] + back);
    MapRowsAppend(f, front, back);
  }

  lemma MultisetSplice<T>(p: seq<T>, q: seq<T>, r: seq<T>, y: T)
    requires multiset(r) == multiset(p + q)
    ensures multiset([y] + r) == multiset(p + ([y] + q))
  {
  }

  /** The inductive step of `MapRowsPermutes`: moving the first row of `a`
      to its place `k` in `b`. */
  lemma MapRowsPermutesStep<T>(f: Row -> T, a: seq<Row>, b: seq<Row>, k: nat)
    requires a != [] && k < |b| && b[k] == a[0]
    requires multiset(MapRows(f, a[1..])) == multiset(MapRows(f, b[..k] + b[k + 1..]))
    ensures multiset(MapRows(f, a)) == multiset(MapRows(f, b))
  {
    var x, front, back := a[0], b[..k], b[k + 1..];
    var mFront, mBack, mRest := MapRows(f, front), MapRows(f, back), MapRows(f, a[1..]);
    assert MapRows(f, a) == [f(x)] + mRest by {
      assert a == [x] + a[1..];
      MapRowsSplice(f, [], x, a[1..]);
    }
    RemoveAt(b, k);
    MapRowsSplice(f, front, x, back);
    MultisetSplice(mFront, mBack, mRest, f(x));
  }

  lemma {:induction false} MapRowsPermutes<T>(f: Row -> T, a: seq<Row>, b: seq<Row>)
    requires multiset(a) == multiset(b)
    ensures multiset(MapRows(f, a)) == multiset(MapRows(f, b))
    decreases |a|
  {
    if a == [] {
      assert |b| == |multiset(b)| == 0;
      assert MapRows(f, a) == [] == MapRows(f, b);
    } else {
      assert a[0] in multiset(b);
      var k :| 0 <= k < |b| && b[k] == a[0];
      RemoveAt(b, k);
      DropFirst(a);
      MapRowsPermutes(f, a[1..], b[..k] + b[k + 1..]);
      MapRowsPermutesStep(f, a, b, k);
    }
  }

  /** A row with its composite computed from the three sorted windows. */
  function Rescored(r: Row, s12: seq<real>, s6: seq<real>, s3: seq<real>): Row
    requires r.mom12 in s12 && r.mom6 in s6 && r.mom3 in s3
  {
    r.(composite := W_12M * PctRank(r.mom12, s12) + W_6M * PctRank(r.mom6, s6) + W_3M * PctRank(r.mom3, s3))
  }

  lemma ColumnPermutes(a: seq<Row>, b: seq<Row>, w: Window)
    requires multiset(a) == multiset(b)
    ensures SortAsc(Column(a, w)) == SortAsc(Column(b, w))
  {
    var f := (r: Row) => Value(r, w);
    assert Column(a, w) == MapRows(f, a);
    assert Column(b, w) == MapRows(f, b);
    MapRowsPermutes(f, a, b);
    SortAscOrderIndependent(Column(a, w), Column(b, w));
  }

  /** Scoring a row needs only the row and the three sorted windows. */
  lemma WithCompositesRescored(rows: seq<Row>, i: nat)
    requires i < |rows|
    ensures var s12, s6, s3 := SortAsc(Column(rows, Long)), SortAsc(Column(rows, Medium)), SortAsc(Column(rows, Short));
            && rows[i].mom12 in s12 && rows[i].mom6 in s6 && rows[i].mom3 in s3
            && WithComposites(rows)[i] == Rescored(rows[i], s12, s6, s3)
  {
    PctRankCountsLower(Column(rows, Long), rows[i].mom12);
    PctRankCountsLower(Column(rows, Medium), rows[i].mom6);
    PctRankCountsLower(Column(rows, Short), rows[i].mom3);
  }

  lemma WithCompositesAsMap(rows: seq<Row>, s12: seq<real>, s6: seq<real>, s3: seq<real>)
    requires s12 == SortAsc(Column(rows, Long)) && s6 == SortAsc(Column(rows, Medium)) && s3 == SortAsc(Column(rows, Short))
    ensures WithComposites(rows) ==
              MapRows((r: Row) => if r.mom12 in s12 && r.mom6 in s6 && r.mom3 in s3 then Rescored(r, s12, s6, s3) else r, rows)
  {
    var f := (r: Row) => if r.mom12 in s12 && r.mom6 in s6 && r.mom3 in s3 then Rescored(r, s12, s6, s3) else r;
    var lhs, rhs := WithComposites(rows), MapRows(f, rows);
    forall i | 0 <= i < |rows| ensures lhs[i] == rhs[i] {
      WithCompositesRescored(rows, i);
    }
  }

  /** Scoring a permutation of the rows yields a permutation of the scored
      rows. */
  lemma WithCompositesPermutes(a: seq<Row>, b: seq<Row>)
    requires multiset(a) == multiset(b)
    ensures multiset(WithComposites(a)) == multiset(WithComposites(b))
  {
    ColumnPermutes(a, b, Long);
    ColumnPermutes(a, b, Medium);
    ColumnPermutes(a, b, Short);
    var s12, s6, s3 := SortAsc(Column(a, Long)), SortAsc(Column(a, Medium)), SortAsc(Column(a, Short));
    WithCompositesAsMap(a, s12, s6, s3);
    WithCompositesAsMap(b, s12, s6, s3);
    MapRowsPermutes((r: Row) => if r.mom12 in s12 && r.mom6 in s6 && r.mom3 in s3 then Rescored(r, s12, s6, s3) else r, a, b);
  }

  /** Rows surviving the trend gate, counted with multiplicity. */
  lemma {:induction false} RslSurvivorsCount(rows: seq<Row>, x: Row)
    ensures multiset(RslSurvivors(rows))[x] == if x.rsl >= RSL_THRESHOLD then multiset(rows)[x] else 0
  {
    if rows != [] {
      RslSurvivorsCount(rows[..|rows| - 1], x);
      assert rows == rows[..|rows| - 1] + [rows[|rows| - 1]];
    }
  }

  /** Permuting the rows that enter the ranking does not change the ranked
      order, as long as no two different surviving rows tie on composite. */
  lemma RankOrderIndependent(a: seq<Row>, b: seq<Row>)
    requires multiset(a) == multiset(b)
    requires ScoreDeterminesRow(WithComposites(RslSurvivors(a)))
    ensures SortByComposite(WithComposites(RslSurvivors(a))) == SortByComposite(WithComposites(RslSurvivors(b)))
  {
    forall x ensures multiset(RslSurvivors(a))[x] == multiset(RslSurvivors(b))[x] {
      RslSurvivorsCount(a, x);
      RslSurvivorsCount(b, x);
    }
    assert multiset(RslSurvivors(a)) == multiset(RslSurvivors(b));
    WithCompositesPermutes(RslSurvivors(a), RslSurvivors(b));
    SortByCompositeUnique(WithComposites(RslSurvivors(a)), WithComposites(RslSurvivors(b)));
  }

  /** Sorts by composite and numbers the rows 1..n in that order. */
  method SortAndRank(scored: seq<Row>) returns (ranked: seq<Row>)
    ensures |ranked| == |scored|
    ensures forall i :: 0 <= i < |scored| ==> ranked[i] == SortByComposite(scored)[i].(rank := i + 1)
    ensures forall i :: 0 <= i < |ranked| ==> ranked[i].rank == i + 1
    ensures SortedDesc(ranked)
  {
    SortByCompositeCorrect(scored);
    var sorted := SortByComposite(scored);
    ranked := sorted;
    for i := 0 to |ranked|
      invariant |ranked| == |sorted|
      invariant forall j :: 0 <= j < i ==> ranked[j] == sorted[j].(rank := j + 1)
      invariant forall j :: i <= j < |ranked| ==> ranked[j] == sorted[j]
    {
      ranked := ranked[i := ranked[i].(rank := i + 1)];
    }
  }
}
