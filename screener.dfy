/** One screener run: per-instrument evaluation of the fetched closes, then,
    over the valid rows, the abort rule, the trend gate, percentiles and
    composite, sort and ranks, the top-N cut, the prior-rank index and the
    history ledger. Fetching, files, printing and the clock are outside: the
    closes, the stored index and ledger, and today's date are parameters. */
module Screener {
  import opened Wrappers
  import opened Metrics
  import opened Ranking
  import opened PriorRanks
  import opened History

  /** Fewer sessions than this are skipped before any metric is computed. */
  const MIN_SESSIONS: nat := 60

  datatype SkipReason = InsufficientData | InsufficientHistory | FetchError

  datatype SkipRecord = SkipRecord(name: string, ticker: string, reason: SkipReason, days: nat)

  datatype Evaluation = Valid(row: Row) | Skipped(record: SkipRecord)

  /** An instrument to screen; `closes` is None when the price fetch failed. */
  datatype Instrument = Instrument(name: string, ticker: string, closes: Option<seq<real>>)

  datatype RunOutcome =
    | Aborted(validCount: nat)
    | Completed(top: seq<Row>, newPrevRanks: map<string, int>, history: seq<Snapshot>, screened: nat)

  /** The per-instrument step: a failed fetch, a short series or any undefined
      metric gives a skip record; otherwise a row with the latest close, the
      RSL and the three momentum returns. */
  function Evaluate(inst: Instrument): Evaluation
  {
    match inst.closes
    case None => Skipped(SkipRecord(inst.name, inst.ticker, FetchError, 0))
    case Some(prices) =>
      if |prices| == 0 || |prices| < MIN_SESSIONS then
        Skipped(SkipRecord(inst.name, inst.ticker, InsufficientData, |prices|))
      else
        var m12 := MomentumReturn(prices, MOM_12M, MOM_SKIP);
        var m6 := MomentumReturn(prices, MOM_6M, MOM_SKIP);
        var m3 := MomentumReturn(prices, MOM_3M, MOM_SKIP);
        var rsl := RslScore(prices, RSL_PERIOD);
        if m12.None? || m6.None? || m3.None? || rsl.None? then
          Skipped(SkipRecord(inst.name, inst.ticker, InsufficientHistory, |prices|))
        else
          Valid(Row(inst.name, inst.ticker, prices[|prices| - 1], rsl.value,
                    m12.value, m6.value, m3.value, 0.0, 0, None))
  }

  /** An instrument yields a row exactly when its fetch succeeded, it has at
      least 252 + 21 closes, the three start closes are positive and the
      130-session mean is positive; the 60-session guard is thus implied. */
  lemma EvaluateValidIff(inst: Instrument)
    ensures Evaluate(inst).Valid? <==>
              inst.closes.Some? &&
              var p := inst.closes.value;
              && |p| >= MOM_12M + MOM_SKIP
              && p[|p| - (MOM_12M + MOM_SKIP)] > 0.0
              && p[|p| - (MOM_6M + MOM_SKIP)] > 0.0
              && p[|p| - (MOM_3M + MOM_SKIP)] > 0.0
              && Mean(Tail(p, RSL_PERIOD)) > 0.0
    ensures Evaluate(inst).Skipped? ==>
              Evaluate(inst).record.name == inst.name && Evaluate(inst).record.ticker == inst.ticker
  {
  }

  function ValidRows(insts: seq<Instrument>): seq<Row>
  {
    if insts == [] then []
    else
      var e := Evaluate(insts[|insts| - 1]);
      ValidRows(insts[..|insts| - 1]) + (if e.Valid? then [e.row] else [])
  }

  function SkipRecords(insts: seq<Instrument>): seq<SkipRecord>
  {
    if insts == [] then []
    else
      var e := Evaluate(insts[|insts| - 1]);
      SkipRecords(insts[..|insts| - 1]) + (if e.Skipped? then [e.record] else [])
  }

  /** The download loop: every instrument ends up either as a row or as a
      skip record, in instrument order. */
  method CollectRows(insts: seq<Instrument>) returns (results: seq<Row>, skipped: seq<SkipRecord>)
    ensures results == ValidRows(insts) && skipped == SkipRecords(insts)
    ensures |results| + |skipped| == |insts|
  {
    results, skipped := [], [];
    for i := 0 to |insts|
      invariant results == ValidRows(insts[..i]) && skipped == SkipRecords(insts[..i])
      invariant |results| + |skipped| == i
    {
      assert insts[..i + 1][..i] == insts[..i];
      match Evaluate(insts[i])
      case Valid(row) => results := results + [row];
      case Skipped(record) => skipped := skipped + [record];
    }
    assert insts[..|insts|] == insts;
  }

  /** The ledger's copy of a top row. */
  function HistoryEntry(r: Row): HistoryStock
  {
    HistoryStock(r.ticker, r.name, r.rank, r.composite, r.rsl, r.mom12, r.mom6, r.mom3, r.price)
  }

  /** Steps 4 to 6 of a run: the trend gate, the composite, the sort with
      ranks, the top-N cut and each top row's previous rank. */
  method RankTop(rows: seq<Row>, prevRanks: map<string, int>) returns (top: seq<Row>, screened: nat)
    ensures var survivors := RslSurvivors(rows);
            var ranked := SortByComposite(WithComposites(survivors));
            && screened == |survivors|
            && |top| == (if |survivors| < TOP_N then |survivors| else TOP_N)
            && SortedDesc(top)
            && forall i :: 0 <= i < |top| ==>
                 top[i] == ranked[i].(rank := i + 1, prevRank := Lookup(prevRanks, ranked[i].ticker))
  {
    var results := FilterByRsl(rows);
    results := ScoreComposites(results);
    ghost var scored := results;
    assert scored == WithComposites(RslSurvivors(rows));
    results := SortAndRank(results);
    var n := if |results| < TOP_N then |results| else TOP_N;
    top := results[..n];
    top := AttachPrevRanks(top, prevRanks);
    screened := |results|;
  }

  /** Steps 3 to 8 of a run, over the valid rows. The run stops when there are
      fewer than TOP_N valid rows; after the trend gate it goes on with however
      many rows survive, and the top list is simply shorter. */
  method RunScreener(rows: seq<Row>, prevRanks: map<string, int>, history: seq<Snapshot>, date: string)
    returns (outcome: RunOutcome)
    ensures outcome.Aborted? <==> |rows| < TOP_N
    ensures outcome.Aborted? ==> outcome.validCount == |rows|
    ensures outcome.Completed? ==>
              var survivors := RslSurvivors(rows);
              var ranked := SortByComposite(WithComposites(survivors));
              var top := outcome.top;
              && outcome.screened == |survivors|
              && |top| == (if |survivors| < TOP_N then |survivors| else TOP_N)
              && SortedDesc(top)
              && (forall i :: 0 <= i < |top| ==>
                    top[i] == ranked[i].(rank := i + 1, prevRank := Lookup(prevRanks, ranked[i].ticker)))
              && (forall t :: t in outcome.newPrevRanks <==> exists i :: 0 <= i < |top| && top[i].ticker == t)
              && (forall i :: 0 <= i < |top| && LastWithTicker(top, i) ==>
                    top[i].ticker in outcome.newPrevRanks && outcome.newPrevRanks[top[i].ticker] == i + 1)
              && outcome.history == Recorded(history, Snapshot(date, seq(|top|, i requires 0 <= i < |top| => HistoryEntry(top[i]))))
  {
    if |rows| < TOP_N {
      return Aborted(|rows|);
    }
    var top, screened := RankTop(rows, prevRanks);
    var newPrev := NewPrevRanks(top);
    var stocks := seq(|top|, i requires 0 <= i < |top| => HistoryEntry(top[i]));
    var updated := Record(history, Snapshot(date, stocks));
    outcome := Completed(top, newPrev, updated, screened);
  }
}
