/** The history ledger: the snapshots of past runs, oldest first, at most one
    per date and at most HISTORY_LIMIT in all. The ledger is a value here;
    reading and writing its file is not modelled. */
module History {

  const HISTORY_LIMIT: nat := 104

  /** What the ledger keeps of one top row. */
  datatype HistoryStock = HistoryStock(
    ticker: string,
    name: string,
    rank: int,
    composite: real,
    rsl: real,
    mom12: real,
    mom6: real,
    mom3: real,
    price: real)

  datatype Snapshot = Snapshot(date: string, stocks: seq<HistoryStock>)

  /** The entries whose date differs from `date`, in order. */
  function WithoutDate(history: seq<Snapshot>, date: string): seq<Snapshot>
  {
    if history == [] then []
    else
      var last := history[|history| - 1];
      WithoutDate(history[..|history| - 1], date) + (if last.date != date then [last] else [])
  }

  /** No entry carries `date`. */
  predicate NoneDated(entries: seq<Snapshot>, date: string)
  {
    forall i :: 0 <= i < |entries| ==> entries[i].date != date
  }

  /** The last `n` entries, or all of them when there are fewer. */
  function KeepLast(history: seq<Snapshot>, n: nat): seq<Snapshot>
  {
    if |history| > n then history[|history| - n..] else history
  }

  /** The ledger after recording `snapshot`, which carries today's date. */
  function Recorded(history: seq<Snapshot>, snapshot: Snapshot): seq<Snapshot>
  {
    KeepLast(WithoutDate(history, snapshot.date) + [snapshot], HISTORY_LIMIT)
  }

  /** Drops today's entries, appends the new snapshot, keeps the last 104. */
  method Record(history: seq<Snapshot>, snapshot: Snapshot) returns (updated: seq<Snapshot>)
    ensures updated == Recorded(history, snapshot)
  {
    updated := [];
    for i := 0 to |history|
      invariant updated == WithoutDate(history[..i], snapshot.date)
    {
      assert history[..i + 1][..i] == history[..i];
      if history[i].date != snapshot.date {
        updated := updated + [history[i]];
      }
    }
    assert history[..|history|] == history;
    updated := updated + [snapshot];
    if |updated| > HISTORY_LIMIT {
      updated := updated[|updated| - HISTORY_LIMIT..];
    }
  }

  // ---------------------------------------------------------------------------
  // Properties

  /** An entry survives the date filter exactly when its date differs. */
  lemma {:induction false} WithoutDateMembers(history: seq<Snapshot>, date: string)
    ensures forall s :: s in WithoutDate(history, date) <==> s in history && s.date != date
  {
    if history != [] {
      WithoutDateMembers(history[..|history| - 1], date);
      assert history == history[..|history| - 1] + [history[|history| - 1]];
    }
  }

  lemma {:induction false} WithoutDateAppend(a: seq<Snapshot>, b: seq<Snapshot>, date: string)
    ensures WithoutDate(a + b, date) == WithoutDate(a, date) + WithoutDate(b, date)
  {
    if b == [] {
      assert a + b == a;
    } else {
      assert (a + b)[..|a + b| - 1] == a + b[..|b| - 1];
      WithoutDateAppend(a, b[..|b| - 1], date);
    }
  }

  lemma {:induction false} WithoutDateUnchanged(history: seq<Snapshot>, date: string)
    requires NoneDated(history, date)
    ensures WithoutDate(history, date) == history
  {
    if history != [] {
      WithoutDateUnchanged(history[..|history| - 1], date);
      assert history == history[..|history| - 1] + [history[|history| - 1]];
    }
  }

  /** Trimming after an append keeps the new entry and one fewer old ones. */
  lemma KeepLastAppend(entries: seq<Snapshot>, snapshot: Snapshot, n: nat)
    requires n >= 1
    ensures KeepLast(entries + [snapshot], n) == KeepLast(entries, n - 1) + [snapshot]
  {
  }

  /** Entries kept from a filtered ledger still avoid the filtered date. */
  lemma KeepLastWithoutDate(history: seq<Snapshot>, date: string, n: nat)
    ensures NoneDated(KeepLast(WithoutDate(history, date), n), date)
  {
  }

  /** After recording: the ledger holds at most 104 entries, the new snapshot
      is the last one and the only one with its date, and the entries before it
      are the most recent older entries with another date, in their order. */
  lemma RecordedShape(history: seq<Snapshot>, snapshot: Snapshot)
    ensures var updated := Recorded(history, snapshot);
            var older := WithoutDate(history, snapshot.date);
            var kept := if |older| < HISTORY_LIMIT then |older| else HISTORY_LIMIT - 1;
            && 1 <= |updated| <= HISTORY_LIMIT
            && updated[|updated| - 1] == snapshot
            && (forall i :: 0 <= i < |updated| - 1 ==> updated[i].date != snapshot.date)
            && |updated| == kept + 1
            && updated[..|updated| - 1] == older[|older| - kept..]
  {
    var older := WithoutDate(history, snapshot.date);
    KeepLastAppend(older, snapshot, HISTORY_LIMIT);
    KeepLastWithoutDate(history, snapshot.date, HISTORY_LIMIT - 1);
    var updated := Recorded(history, snapshot);
    assert updated[..|updated| - 1] == KeepLast(older, HISTORY_LIMIT - 1);
  }

  /** Re-running on the same day replaces that day's entry instead of adding a
      second one: recording twice with the same date is recording once. */
  lemma RecordSameDayReplaces(history: seq<Snapshot>, first: Snapshot, second: Snapshot)
    requires first.date == second.date
    ensures Recorded(Recorded(history, first), second) == Recorded(history, second)
  {
    var date := first.date;
    var older := WithoutDate(history, date);
    var rest := KeepLast(older, HISTORY_LIMIT - 1);
    KeepLastAppend(older, first, HISTORY_LIMIT);
    KeepLastWithoutDate(history, date, HISTORY_LIMIT - 1);
    WithoutDateAppendToday(rest, first);
    KeepLastAppend(rest, second, HISTORY_LIMIT);
    KeepLastAppend(older, second, HISTORY_LIMIT);
  }

  lemma WithoutDateAppendToday(rest: seq<Snapshot>, snapshot: Snapshot)
    requires NoneDated(rest, snapshot.date)
    ensures WithoutDate(rest + [snapshot], snapshot.date) == rest
  {
    assert (rest + [snapshot])[..|rest|] == rest;
    WithoutDateUnchanged(rest, snapshot.date);
  }
}
