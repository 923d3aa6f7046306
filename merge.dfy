/** The multi-exchange merge in the body of `load_info`
    (dags/example_dag.py): the per-exchange dictionaries are joined on
    their minute keys into one series ordered by time, in which every row
    has a slot per configured exchange, holding that exchange's candle for
    the minute or `None`. */
module Merge {
  import opened Results
  import opened Candles

  /** The configured exchanges, in the order of `EXCHANGE_CLASSES`. */
  const ExchangeClasses: seq<string> := ["binance", "kucoin", "okx"]

  /** One exchange's normalised candles, keyed by minute. */
  type Series<V> = map<int, Candle<V>>

  /** One exchange's entry in a merged row. */
  datatype Slot<V> = Slot(name: string, candle: Option<Candle<V>>)

  /** One minute of the merged series with its row of slots. */
  datatype Entry<V> = Entry(ts: int, row: seq<Slot<V>>)

  /** The names are pairwise distinct, as the keys of a dictionary are. */
  predicate Distinct(names: seq<string>)
  {
    forall i, j :: 0 <= i < j < |names| ==> names[i] != names[j]
  }

  /** `per` is the dictionary built from one candle fetch per configured
      exchange: it has exactly the configured names as keys. */
  ghost predicate Configured<V>(names: seq<string>, per: map<string, Series<V>>)
  {
    && Distinct(names)
    && (forall i :: 0 <= i < |names| ==> names[i] in per)
    && |per| == |names|
  }

  /** Python's `dict.get`: `None` for a missing key, otherwise the stored
      candle as it is. */
  function Get<V>(m: Series<V>, ts: int): (r: Option<Candle<V>>)
    ensures r.None? <==> ts !in m
    ensures r.Some? ==> r.value == m[ts]
  {
    if ts in m then Some(m[ts]) else None
  }

  /** The union of a sequence of key sets, taken left to right. */
  function KeyUnion(keySets: seq<set<int>>): (u: set<int>)
    ensures forall t :: t in u <==> exists i :: 0 <= i < |keySets| && t in keySets[i]
  {
    if keySets == [] then {}
    else
      var init := keySets[..|keySets| - 1];
      var u := KeyUnion(init) + keySets[|keySets| - 1];
      assert forall i :: 0 <= i < |init| ==> init[i] == keySets[i];
      u
  }

  /** The key sets of the exchanges' dictionaries, in configuration order
      (the order of `per_exchange.values()`). */
  function KeySets<V>(names: seq<string>, per: map<string, Series<V>>): seq<set<int>>
    requires forall i :: 0 <= i < |names| ==> names[i] in per
  {
    seq(|names|, i requires 0 <= i < |names| => per[names[i]].Keys)
  }

  /** Every minute seen by any exchange. */
  function Timestamps<V>(names: seq<string>, per: map<string, Series<V>>): (ts: set<int>)
    requires forall i :: 0 <= i < |names| ==> names[i] in per
    ensures forall i :: 0 <= i < |names| ==> per[names[i]].Keys <= ts
  {
    var ks := KeySets(names, per);
    assert forall i :: 0 <= i < |names| ==> ks[i] == per[names[i]].Keys;
    KeyUnion(ks)
  }

  /** A minute is in the union exactly when some configured exchange has a
      candle for it. */
  lemma TimestampsComplete<V>(names: seq<string>, per: map<string, Series<V>>, t: int)
    requires forall i :: 0 <= i < |names| ==> names[i] in per
    ensures t in Timestamps(names, per) <==> exists i :: 0 <= i < |names| && t in per[names[i]]
  {
  }

  /** The union does not depend on the order in which the key sets are
      taken: any rearrangement of them gives the same set. */
  lemma KeyUnionOrderIndependent(a: seq<set<int>>, b: seq<set<int>>)
    requires multiset(a) == multiset(b)
    ensures KeyUnion(a) == KeyUnion(b)
  {
    forall t | t in KeyUnion(a) ensures t in KeyUnion(b) {
      var i :| 0 <= i < |a| && t in a[i];
      assert a[i] in multiset(b);
      var j :| 0 <= j < |b| && b[j] == a[i];
    }
    forall t | t in KeyUnion(b) ensures t in KeyUnion(a) {
      var j :| 0 <= j < |b| && t in b[j];
      assert b[j] in multiset(a);
      var i :| 0 <= i < |a| && a[i] == b[j];
    }
  }

  /** The row for minute `ts`: a dictionary comprehension over the
      configured names that looks each exchange's candle up with `get`. A
      row has one slot per configured exchange, in configuration order, and
      no other; the slot holds the exchange's candle, unchanged, exactly when
      the exchange has one for that minute, and `None` otherwise. */
  function RowFor<V>(names: seq<string>, per: map<string, Series<V>>, ts: int): (row: seq<Slot<V>>)
    requires forall i :: 0 <= i < |names| ==> names[i] in per
    ensures |row| == |names|
    ensures forall i :: 0 <= i < |names| ==> row[i].name == names[i]
    ensures forall i :: 0 <= i < |names| ==> (row[i].candle.Some? <==> ts in per[names[i]])
    ensures forall i :: 0 <= i < |names| && ts in per[names[i]] ==> row[i].candle.value == per[names[i]][ts]
  {
    seq(|names|, i requires 0 <= i < |names| => Slot(names[i], Get(per[names[i]], ts)))
  }

  /** With the configured exchanges, every row has exactly three slots:
      binance, kucoin and okx, in that order. */
  lemma ConfiguredRows<V>(per: map<string, Series<V>>, ts: int)
    requires Configured(ExchangeClasses, per)
    ensures Distinct(ExchangeClasses)
    ensures |RowFor(ExchangeClasses, per, ts)| == 3
    ensures RowFor(ExchangeClasses, per, ts)[0].name == "binance"
    ensures RowFor(ExchangeClasses, per, ts)[1].name == "kucoin"
    ensures RowFor(ExchangeClasses, per, ts)[2].name == "okx"
  {
  }

  /** The minutes of a merged series, in the order it lists them. */
  ghost function Times<V>(merged: seq<Entry<V>>): (ts: seq<int>)
    ensures |ts| == |merged|
    ensures forall i :: 0 <= i < |merged| ==> ts[i] == merged[i].ts
  {
    if merged == [] then [] else [merged[0].ts] + Times(merged[1..])
  }

  ghost predicate Increasing(xs: seq<int>)
  {
    forall i, j :: 0 <= i < j < |xs| ==> xs[i] < xs[j]
  }

  /** The entries of `merged` are in strictly increasing order of minute. */
  ghost predicate Ordered<V>(merged: seq<Entry<V>>)
  {
    forall i, j :: 0 <= i < j < |merged| ==> merged[i].ts < merged[j].ts
  }

  /** `merged` lists each minute of `keys` exactly once and nothing else. */
  ghost predicate ListsExactly<V>(merged: seq<Entry<V>>, keys: set<int>)
  {
    && (forall i :: 0 <= i < |merged| ==> merged[i].ts in keys)
    && (forall t :: t in keys ==> exists i :: 0 <= i < |merged| && merged[i].ts == t)
  }

  /** Every row of `merged` is the row of slots for its minute. */
  ghost predicate RowsMatch<V>(names: seq<string>, per: map<string, Series<V>>, merged: seq<Entry<V>>)
    requires forall i :: 0 <= i < |names| ==> names[i] in per
  {
    forall i :: 0 <= i < |merged| ==> merged[i].row == RowFor(names, per, merged[i].ts)
  }

  /** The state of the merge loop: `merged` holds, in increasing order, the
      minutes of `timestamps` that are no longer in `remaining`, and all of
      them come before every remaining minute. */
  ghost predicate Progress<V>(merged: seq<Entry<V>>, timestamps: set<int>, remaining: set<int>)
  {
    && remaining <= timestamps
    && Ordered(merged)
    && |merged| + |remaining| == |timestamps|
    && ListsExactly(merged, timestamps - remaining)
    && (forall i, t :: 0 <= i < |merged| && t in remaining ==> merged[i].ts < t)
  }

  /** Emitting the least remaining minute keeps the loop's state. */
  lemma ProgressStep<V>(merged: seq<Entry<V>>, timestamps: set<int>, remaining: set<int>, entry: Entry<V>)
    requires Progress(merged, timestamps, remaining)
    requires entry.ts in remaining && forall x :: x in remaining ==> entry.ts <= x
    ensures Progress(merged + [entry], timestamps, remaining - {entry.ts})
  {
    var next, rest := merged + [entry], remaining - {entry.ts};
    forall i, j | 0 <= i < j < |next| ensures next[i].ts < next[j].ts {
      if j == |merged| {
        assert next[i] == merged[i];
      } else {
        assert next[i] == merged[i] && next[j] == merged[j];
      }
    }
    assert |rest| == |remaining| - 1;
    forall i | 0 <= i < |next| ensures next[i].ts in timestamps - rest {
      if i < |merged| {
        assert next[i] == merged[i];
      }
    }
    forall t | t in timestamps - rest ensures exists i :: 0 <= i < |next| && next[i].ts == t {
      if t == entry.ts {
        assert next[|merged|].ts == t;
      } else {
        assert t in timestamps - remaining;
        var i :| 0 <= i < |merged| && merged[i].ts == t;
        assert next[i].ts == t;
      }
    }
    forall i, t | 0 <= i < |next| && t in rest ensures next[i].ts < t {
      if i < |merged| {
        assert next[i] == merged[i];
      }
    }
  }

  lemma {:induction false} HasElement(s: set<int>)
    requires s != {}
    ensures exists x :: x in s
  {
    if forall x :: x !in s {
      assert false;
    }
  }

  lemma {:induction false} MinimumExists(s: set<int>)
    requires s != {}
    ensures exists m :: m in s && forall x :: x in s ==> m <= x
    decreases |s|
  {
    HasElement(s);
    var w :| w in s;
    if s != {w} {
      MinimumExists(s - {w});
      var y :| y in s - {w} && forall z :: z in s - {w} ==> y <= z;
      var m := if w < y then w else y;
      forall z | z in s ensures m <= z {
        if z != w {
          assert z in s - {w};
        }
      }
    } else {
      assert forall z :: z in s ==> w <= z;
    }
  }

  /** The merge loop of `load_info`: for each minute of the sorted key union,
      in increasing order, append that minute's row. The loop over the sorted
      keys is modelled as taking the least of the minutes not yet emitted.

      The result lists every minute seen by any exchange exactly once, in
      strictly increasing order of minute, and each entry's row is the row of
      slots for that minute. */
  method MergeSeries<V>(names: seq<string>, per: map<string, Series<V>>)
    returns (merged: seq<Entry<V>>)
    requires Configured(names, per)
    ensures Ordered(merged)
    ensures ListsExactly(merged, Timestamps(names, per))
    ensures |merged| == |Timestamps(names, per)|
    ensures RowsMatch(names, per, merged)
  {
    assert forall i :: 0 <= i < |names| ==> names[i] in per;
    var timestamps := Timestamps(names, per);
    var remaining := timestamps;
    merged := [];
    while remaining != {}
      invariant Progress(merged, timestamps, remaining)
      invariant RowsMatch(names, per, merged)
      decreases |remaining|
    {
      MinimumExists(remaining);
      var ts :| ts in remaining && forall x :: x in remaining ==> ts <= x;
      var entry := Entry(ts, RowFor(names, per, ts));
      ProgressStep(merged, timestamps, remaining, entry);
      assert RowsMatch(names, per, merged + [entry]) by {
        forall i | 0 <= i < |merged| + 1
          ensures (merged + [entry])[i].row == RowFor(names, per, (merged + [entry])[i].ts)
        {
          if i < |merged| {
            assert (merged + [entry])[i] == merged[i];
          }
        }
      }
      merged := merged + [entry];
      remaining := remaining - {ts};
    }
    assert timestamps - remaining == timestamps;
  }

  /** Two strictly increasing sequences with the same elements are equal: a
      sorted key sequence is determined by its key set. */
  lemma {:induction false} IncreasingDeterminedByKeys(a: seq<int>, b: seq<int>)
    requires Increasing(a) && Increasing(b)
    requires forall t :: t in a <==> t in b
    ensures a == b
    decreases |a|
  {
    if a != [] {
      assert a[0] in a;
    }
    if b != [] {
      assert b[0] in b;
    }
    if a != [] {
      // The first element of each is the least element of the common set.
      assert a[0] in b && b[0] in a;
      assert a[0] == b[0];
      forall t ensures t in a[1..] <==> t in b[1..] {
        if t in a[1..] {
          assert t != a[0] && t in b;
        }
        if t in b[1..] {
          assert t != b[0] && t in a;
        }
      }
      IncreasingDeterminedByKeys(a[1..], b[1..]);
      assert a == [a[0]] + a[1..] && b == [b[0]] + b[1..];
    }
  }

  /** Listing the same exchanges in another order gives the same minutes. */
  lemma TimestampsOrderIndependent<V>(names1: seq<string>, names2: seq<string>, per: map<string, Series<V>>)
    requires forall i :: 0 <= i < |names1| ==> names1[i] in per
    requires forall i :: 0 <= i < |names2| ==> names2[i] in per
    requires multiset(names1) == multiset(names2)
    ensures Timestamps(names1, per) == Timestamps(names2, per)
  {
    forall t | t in Timestamps(names1, per) ensures t in Timestamps(names2, per) {
      TimestampsComplete(names1, per, t);
      var i :| 0 <= i < |names1| && t in per[names1[i]];
      assert names1[i] in multiset(names2);
      var j :| 0 <= j < |names2| && names2[j] == names1[i];
      TimestampsComplete(names2, per, t);
    }
    forall t | t in Timestamps(names2, per) ensures t in Timestamps(names1, per) {
      TimestampsComplete(names2, per, t);
      var j :| 0 <= j < |names2| && t in per[names2[j]];
      assert names2[j] in multiset(names1);
      var i :| 0 <= i < |names1| && names1[i] == names2[j];
      TimestampsComplete(names1, per, t);
    }
  }

  /** An ordered series that lists exactly the minutes of `keys` is unique:
      its sequence of minutes is `keys` in increasing order. */
  lemma OrderedSeriesUnique<V>(m1: seq<Entry<V>>, m2: seq<Entry<V>>, keys: set<int>)
    requires Ordered(m1) && ListsExactly(m1, keys)
    requires Ordered(m2) && ListsExactly(m2, keys)
    ensures |m1| == |m2|
    ensures forall i :: 0 <= i < |m1| ==> m1[i].ts == m2[i].ts
  {
    var t1, t2 := Times(m1), Times(m2);
    forall t ensures t in t1 <==> t in t2 {
      if t in t1 {
        var i :| 0 <= i < |t1| && t1[i] == t;
        assert m1[i].ts in keys;
        var j :| 0 <= j < |m2| && m2[j].ts == t;
        assert t2[j] == t;
      }
      if t in t2 {
        var j :| 0 <= j < |t2| && t2[j] == t;
        assert m2[j].ts in keys;
        var i :| 0 <= i < |m1| && m1[i].ts == t;
        assert t1[i] == t;
      }
    }
    IncreasingDeterminedByKeys(t1, t2);
  }

  /** The merge does not depend on the order in which the exchanges' key sets
      are unioned: two merges whose configurations list the same exchanges
      in different orders produce the same minutes in the same order, and for
      each minute and exchange the same slot contents. */
  lemma MergeOrderIndependent<V>(names1: seq<string>, names2: seq<string>, per: map<string, Series<V>>,
                                 m1: seq<Entry<V>>, m2: seq<Entry<V>>)
    requires Configured(names1, per) && Configured(names2, per)
    requires multiset(names1) == multiset(names2)
    requires Ordered(m1) && ListsExactly(m1, Timestamps(names1, per)) && RowsMatch(names1, per, m1)
    requires Ordered(m2) && ListsExactly(m2, Timestamps(names2, per)) && RowsMatch(names2, per, m2)
    ensures |m1| == |m2|
    ensures forall i :: 0 <= i < |m1| ==> m1[i].ts == m2[i].ts
    ensures forall i, k1, k2 :: 0 <= i < |m1| && 0 <= k1 < |names1| && 0 <= k2 < |names2| && names1[k1] == names2[k2]
              ==> m1[i].row[k1] == m2[i].row[k2]
  {
    TimestampsOrderIndependent(names1, names2, per);
    OrderedSeriesUnique(m1, m2, Timestamps(names1, per));
  }
}
