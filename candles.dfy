/** Candle normalisation (`fetch_candles` in dags/example_dag.py): the last
    `limit` raw OHLCV rows of one exchange become a dictionary from
    canonical minute to candle. The exchange fetch itself is an input: the
    rows it returned. The numeric fields have the type parameter `V`; they
    are copied, never computed on. */
module Candles {
  import opened Results
  import opened MinuteKey

  /** The record stored per minute: `{open, high, low, close, volume}`. */
  datatype Candle<V> = Candle(open: V, high: V, low: V, close: V, volume: V)

  /** One raw row as the exchange returns it: a timestamp in epoch
      milliseconds followed by the remaining fields. */
  datatype RawRow<V> = RawRow(ts: int, fields: seq<V>)

  /** Unpacking a raw row into `ts, o, h, l, c, v` failed: the row had
      `arity` values instead of six. */
  datatype FetchError = ValueError(arity: nat)

  /** The number of values the loop unpacks from each row. */
  const RowArity: nat := 6

  function Arity<V>(row: RawRow<V>): nat
  {
    1 + |row.fields|
  }

  predicate WellFormed<V>(row: RawRow<V>)
  {
    Arity(row) == RowArity
  }

  /** The record built from a well-formed row. */
  function CandleOf<V>(row: RawRow<V>): Candle<V>
    requires WellFormed(row)
  {
    Candle(row.fields[0], row.fields[1], row.fields[2], row.fields[3], row.fields[4])
  }

  function Min(a: int, b: int): int
  {
    if a <= b then a else b
  }

  /** Python's `s[start:]`: a negative start counts from the end, and a
      start outside the sequence is clamped to it. */
  function SliceFrom<T>(s: seq<T>, start: int): (r: seq<T>)
    ensures |r| <= |s| && r == s[|s| - |r|..]
    ensures start >= 0 ==> |r| == |s| - Min(start, |s|)
    ensures start < 0 ==> |r| == Min(-start, |s|)
  {
    if start < 0 then
      (if start + |s| < 0 then s else s[start + |s|..])
    else
      (if start > |s| then [] else s[start..])
  }

  /** The rows the loop visits: the Python slice of the fetched rows that
      starts at index `-limit`. It is always a
      suffix of the input. A positive limit keeps the last `limit` rows (all
      of them when there are fewer); a zero limit keeps every row, since
      `-0` is `0`; a negative limit drops the first `-limit` rows. */
  function Window<T>(ohlcv: seq<T>, limit: int): (w: seq<T>)
    ensures |w| <= |ohlcv| && w == ohlcv[|ohlcv| - |w|..]
    ensures limit > 0 ==> |w| == Min(limit, |ohlcv|)
    ensures limit == 0 ==> w == ohlcv
    ensures limit < 0 ==> |w| == |ohlcv| - Min(-limit, |ohlcv|)
  {
    SliceFrom(ohlcv, -limit)
  }

  /** The dictionary that results from visiting `rows` first to last, each
      row writing its candle under its minute, so that a later row of the
      same minute overwrites an earlier one. */
  function Normalize<V>(rows: seq<RawRow<V>>): (d: map<int, Candle<V>>)
    requires forall i :: 0 <= i < |rows| ==> WellFormed(rows[i])
    ensures |d| <= |rows|
    ensures rows != [] ==> IsoTimestamp(rows[|rows| - 1].ts) in d
                           && d[IsoTimestamp(rows[|rows| - 1].ts)] == CandleOf(rows[|rows| - 1])
  {
    if rows == [] then map[]
    else
      var last := rows[|rows| - 1];
      Normalize(rows[..|rows| - 1])[IsoTimestamp(last.ts) := CandleOf(last)]
  }

  /** `i` is the index of the first malformed row of `rows`. */
  ghost predicate FirstMalformed<V>(rows: seq<RawRow<V>>, i: int)
  {
    0 <= i < |rows| && !WellFormed(rows[i])
    && forall j :: 0 <= j < i ==> WellFormed(rows[j])
  }

  /** The minutes of the rows. */
  ghost function Minutes<V>(rows: seq<RawRow<V>>): set<int>
  {
    set i | 0 <= i < |rows| :: IsoTimestamp(rows[i].ts)
  }

  /** Every key of the normalised dictionary is the minute of some row, and
      every row's minute is a key. */
  lemma {:induction false} NormalizeKeys<V>(rows: seq<RawRow<V>>)
    requires forall i :: 0 <= i < |rows| ==> WellFormed(rows[i])
    ensures Normalize(rows).Keys == Minutes(rows)
  {
    if rows != [] {
      var init := rows[..|rows| - 1];
      NormalizeKeys(init);
      var k := IsoTimestamp(rows[|rows| - 1].ts);
      assert Minutes(rows) == Minutes(init) + {k} by {
        forall t | t in Minutes(rows) ensures t in Minutes(init) + {k} {
          var i :| 0 <= i < |rows| && IsoTimestamp(rows[i].ts) == t;
          if i < |rows| - 1 { assert init[i] == rows[i]; }
        }
        forall t | t in Minutes(init) ensures t in Minutes(rows) {
          var i :| 0 <= i < |init| && IsoTimestamp(init[i].ts) == t;
          assert rows[i] == init[i];
        }
      }
    }
  }

  /** The record stored under a row's minute is that row's candle when no
      later row has the same minute: the last row of each minute wins. */
  lemma {:induction false} NormalizeLastWins<V>(rows: seq<RawRow<V>>, i: int)
    requires forall j :: 0 <= j < |rows| ==> WellFormed(rows[j])
    requires 0 <= i < |rows|
    requires forall j :: i < j < |rows| ==> IsoTimestamp(rows[j].ts) != IsoTimestamp(rows[i].ts)
    ensures IsoTimestamp(rows[i].ts) in Normalize(rows)
    ensures Normalize(rows)[IsoTimestamp(rows[i].ts)] == CandleOf(rows[i])
  {
    if i < |rows| - 1 {
      var init := rows[..|rows| - 1];
      assert init[i] == rows[i];
      forall j | i < j < |init| ensures IsoTimestamp(init[j].ts) != IsoTimestamp(init[i].ts) {
        assert init[j] == rows[j];
      }
      NormalizeLastWins(init, i);
    }
  }

  /** Each key's record comes from the last row of that minute. */
  lemma NormalizeValue<V>(rows: seq<RawRow<V>>, k: int)
    requires forall j :: 0 <= j < |rows| ==> WellFormed(rows[j])
    requires k in Normalize(rows)
    ensures exists i ::
              && 0 <= i < |rows| && IsoTimestamp(rows[i].ts) == k
              && (forall j :: i < j < |rows| ==> IsoTimestamp(rows[j].ts) != k)
              && Normalize(rows)[k] == CandleOf(rows[i])
  {
    NormalizeKeys(rows);
    var i :| 0 <= i < |rows| && IsoTimestamp(rows[i].ts) == k;
    while exists j :: i < j < |rows| && IsoTimestamp(rows[j].ts) == k
      invariant 0 <= i < |rows| && IsoTimestamp(rows[i].ts) == k
      decreases |rows| - i
    {
      var j :| i < j < |rows| && IsoTimestamp(rows[j].ts) == k;
      i := j;
    }
    NormalizeLastWins(rows, i);
  }

  /** `fetch_candles` on the rows the exchange returned: visits the window
      of the last rows in order, unpacking each row and storing its candle
      under its minute. A malformed row raises, and nothing is returned. */
  method FetchCandles<V>(ohlcv: seq<RawRow<V>>, limit: int)
    returns (r: Result<map<int, Candle<V>>, FetchError>)
    ensures r.Failure? <==> exists i :: 0 <= i < |Window(ohlcv, limit)| && !WellFormed(Window(ohlcv, limit)[i])
    ensures r.Failure? ==> exists i ::
              FirstMalformed(Window(ohlcv, limit), i) && r.error == ValueError(Arity(Window(ohlcv, limit)[i]))
    ensures r.Success? ==> r.value == Normalize(Window(ohlcv, limit))
    ensures r.Success? ==> r.value.Keys == Minutes(Window(ohlcv, limit))
    ensures r.Success? && limit > 0 ==> |r.value| <= Min(limit, |ohlcv|)
    ensures r.Success? ==> |r.value| <= |ohlcv|
  {
    var rows := Window(ohlcv, limit);
    var data: map<int, Candle<V>> := map[];
    for i := 0 to |rows|
      invariant forall j :: 0 <= j < i ==> WellFormed(rows[j])
      invariant data == Normalize(rows[..i])
    {
      var row := rows[i];
      if |row.fields| + 1 != RowArity {
        assert FirstMalformed(rows, i);
        return Failure(ValueError(|row.fields| + 1));
      }
      assert rows[..i + 1][..i] == rows[..i];
      data := data[IsoTimestamp(row.ts) := Candle(row.fields[0], row.fields[1], row.fields[2], row.fields[3], row.fields[4])];
    }
    assert rows[..|rows|] == rows;
    NormalizeKeys(rows);
    return Success(data);
  }
}
