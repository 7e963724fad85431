/** The prior-rank index: each top row is annotated with the rank its ticker
    held in the previous run, and the index is then replaced by this run's
    top rows alone. The index is a value here; reading and writing its file
    is not modelled. */
module PriorRanks {
  import opened Wrappers
  import opened Ranking

  /** A ticker's previous rank, or None for a new entrant. */
  function Lookup(prevRanks: map<string, int>, ticker: string): Option<int>
  {
    if ticker in prevRanks then Some(prevRanks[ticker]) else None
  }

  /** Row `i` is the last row carrying its ticker. */
  predicate LastWithTicker(top: seq<Row>, i: nat)
    requires i < |top|
  {
    forall j :: i < j < |top| ==> top[j].ticker != top[i].ticker
  }

  /** Sets each top row's previous rank from the old index. */
  method AttachPrevRanks(top: seq<Row>, prevRanks: map<string, int>) returns (annotated: seq<Row>)
    ensures |annotated| == |top|
    ensures forall i :: 0 <= i < |top| ==> annotated[i] == top[i].(prevRank := Lookup(prevRanks, top[i].ticker))
  {
    annotated := top;
    for i := 0 to |top|
      invariant |annotated| == |top|
      invariant forall j :: 0 <= j < i ==> annotated[j] == top[j].(prevRank := Lookup(prevRanks, top[j].ticker))
      invariant forall j :: i <= j < |top| ==> annotated[j] == top[j]
    {
      annotated := annotated[i := annotated[i].(prevRank := Lookup(prevRanks, annotated[i].ticker))];
    }
  }

  /** The new index `{ticker: rank}` over the top rows; a ticker that occurs
      twice keeps the rank of its last row, as a dictionary comprehension does. */
  method NewPrevRanks(top: seq<Row>) returns (newPrev: map<string, int>)
    ensures forall t :: t in newPrev <==> exists i :: 0 <= i < |top| && top[i].ticker == t
    ensures forall i :: 0 <= i < |top| && LastWithTicker(top, i) ==>
              top[i].ticker in newPrev && newPrev[top[i].ticker] == top[i].rank
  {
    newPrev := map[];
    for i := 0 to |top|
      invariant forall t :: t in newPrev <==> exists k :: 0 <= k < i && top[k].ticker == t
      invariant forall k :: 0 <= k < i && (forall j :: k < j < i ==> top[j].ticker != top[k].ticker) ==>
                  top[k].ticker in newPrev && newPrev[top[k].ticker] == top[k].rank
    {
      newPrev := newPrev[top[i].ticker := top[i].rank];
    }
  }
}
