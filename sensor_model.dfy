/**
 * The sensor side (cloud_ingest/sensor_model.py): summary features of a
 * window of sensor rows, the windowing of a training table, and the scoring of
 * one window against a trained anomaly detector. The detector itself is
 * opaque: its `decision_function` and `predict` are parameters, and so is the
 * square root inside `np.std`.
 */
module SensorModel {
  import opened Wrappers
  import opened Sequences

  /** A cell after coercion to a number: a number, or NaN (None) for a missing or non-numeric entry. */
  type Cell = Option<real>

  /** One sensor record; a column the record does not mention is NaN. */
  type Row = map<string, Cell>

  /** A data frame: its column labels and its rows, in order. */
  datatype Frame = Frame(columns: set<string>, rows: seq<Row>)

  /** The tracked sensor channels, in the order the features are built. */
  const Channels: seq<string> := ["vibration", "flame", "water"]

  function CellAt(row: Row, c: string): Cell {
    if c in row then row[c] else None
  }

  /** The numeric values of column `c`, in row order, with the NaN cells dropped. */
  function NumericValues(rows: seq<Row>, c: string): (vs: seq<real>)
    decreases |rows|
    ensures |vs| <= |rows|
    ensures vs == [] <==> forall i :: 0 <= i < |rows| ==> CellAt(rows[i], c).None?
  {
    if rows == [] then []
    else
      var head := match CellAt(rows[0], c) case Some(v) => [v] case None => [];
      var vs := head + NumericValues(rows[1..], c);
      assert forall i :: 1 <= i < |rows| ==> rows[1..][i - 1] == rows[i];
      vs
  }

  /** Dropping NaN works row by row. */
  lemma {:induction false} NumericValuesAppend(a: seq<Row>, b: seq<Row>, c: string)
    ensures NumericValues(a + b, c) == NumericValues(a, c) + NumericValues(b, c)
  {
    if a == [] {
      assert a + b == b;
    } else {
      assert (a + b)[0] == a[0] && (a + b)[1..] == a[1..] + b;
      NumericValuesAppend(a[1..], b, c);
      var head := match CellAt(a[0], c) case Some(v) => [v] case None => [];
      AppendAssociative(head, NumericValues(a[1..], c), NumericValues(b, c));
    }
  }

  /** One row gives its value in column `c`, or nothing when that cell is NaN. */
  lemma NumericValuesOfRow(row: Row, c: string)
    ensures NumericValues([row], c) == (match CellAt(row, c) case Some(v) => [v] case None => [])
  {
    assert [row][1..] == [];
  }

  /** The rows whose cell in column `c` holds a number. */
  ghost function NumericPositions(rows: seq<Row>, c: string): set<nat> {
    set i: nat | i < |rows| && CellAt(rows[i], c).Some?
  }

  /** There is one value for each row whose cell holds a number. */
  lemma {:induction false} NumericValuesCount(rows: seq<Row>, c: string)
    ensures |NumericValues(rows, c)| == |NumericPositions(rows, c)|
  {
    if rows != [] {
      NumericValuesLast(rows, c);
      NumericPositionsLast(rows, c);
      NumericValuesCount(rows[..|rows| - 1], c);
    }
  }

  lemma NumericValuesLast(rows: seq<Row>, c: string)
    requires rows != []
    ensures |NumericValues(rows, c)|
      == |NumericValues(rows[..|rows| - 1], c)| + (if CellAt(rows[|rows| - 1], c).Some? then 1 else 0)
  {
    var init, last := rows[..|rows| - 1], rows[|rows| - 1];
    assert rows == init + [last];
    NumericValuesAppend(init, [last], c);
    NumericValuesOfRow(last, c);
  }

  lemma NumericPositionsLast(rows: seq<Row>, c: string)
    requires rows != []
    ensures |NumericPositions(rows, c)|
      == |NumericPositions(rows[..|rows| - 1], c)| + (if CellAt(rows[|rows| - 1], c).Some? then 1 else 0)
  {
    var init, last := rows[..|rows| - 1], |rows| - 1;
    var before := NumericPositions(init, c);
    assert last !in before;
    if CellAt(rows[last], c).Some? {
      assert |NumericPositions(rows, c)| == |before| + 1 by {
        assert NumericPositions(rows, c) == before + {last} by {
          assert forall i: nat | i < |init| :: init[i] == rows[i];
        }
        assert |before + {last}| == |before| + 1;
      }
    } else {
      assert NumericPositions(rows, c) == before by {
        assert forall i: nat | i < |init| :: init[i] == rows[i];
      }
    }
  }

  /** A value is kept exactly when some row holds it in column `c`. */
  lemma {:induction false} NumericValuesMembers(rows: seq<Row>, c: string, v: real)
    ensures v in NumericValues(rows, c) <==> exists i :: 0 <= i < |rows| && CellAt(rows[i], c) == Some(v)
  {
    if rows != [] {
      NumericValuesMembers(rows[1..], c, v);
      assert forall i :: 1 <= i < |rows| ==> rows[1..][i - 1] == rows[i];
      if CellAt(rows[0], c) == Some(v) {
        assert v in NumericValues(rows, c);
      }
    }
  }

  // ---------------------------------------------------------------------------
  // Statistics over real numbers

  /** `np.max`: an element of the values that no value exceeds. */
  function Max(vs: seq<real>): (m: real)
    requires vs != []
    ensures m in vs
    ensures forall i :: 0 <= i < |vs| ==> vs[i] <= m
  {
    if |vs| == 1 then vs[0]
    else
      var rest := Max(vs[1..]);
      assert forall i :: 1 <= i < |vs| ==> vs[i] == vs[1..][i - 1];
      if vs[0] >= rest then vs[0] else rest
  }

  /** `np.mean`. */
  function Mean(vs: seq<real>): real
    requires vs != []
  {
    Sum(vs) / |vs| as real
  }

  function SquaredDeviations(vs: seq<real>, mu: real): (r: real)
    ensures r >= 0.0
  {
    if vs == [] then 0.0
    else
      var d := vs[0] - mu;
      assert d * d >= 0.0 by {
        if d < 0.0 {
          assert (-d) * (-d) == d * d;
        }
      }
      d * d + SquaredDeviations(vs[1..], mu)
  }

  /** The population variance (`ddof=0`), whose square root is `np.std`. */
  function Variance(vs: seq<real>): (v: real)
    requires vs != []
    ensures v >= 0.0
  {
    SquaredDeviations(vs, Mean(vs)) / |vs| as real
  }

  /** A bound on every value bounds the sum. */
  lemma {:induction false} SumAtMost(vs: seq<real>, m: real)
    requires forall i :: 0 <= i < |vs| ==> vs[i] <= m
    ensures Sum(vs) <= |vs| as real * m
  {
    if vs != [] {
      SumAtMost(vs[..|vs| - 1], m);
      assert |vs| as real * m == (|vs| - 1) as real * m + m;
    }
  }

  lemma QuotientAtMost(a: real, n: real, m: real)
    requires n > 0.0 && a <= n * m
    ensures a / n <= m
  {
  }

  lemma QuotientTimesDivisor(a: real, n: real)
    requires n > 0.0
    ensures (a / n) * n == a
  {
  }

  /** The mean times the number of values is their sum. */
  lemma MeanTimesCount(vs: seq<real>)
    requires vs != []
    ensures Mean(vs) * |vs| as real == Sum(vs)
  {
    QuotientTimesDivisor(Sum(vs), |vs| as real);
  }

  /** The mean never exceeds the maximum. */
  lemma MeanAtMostMax(vs: seq<real>)
    requires vs != []
    ensures Mean(vs) <= Max(vs)
  {
    SumAtMost(vs, Max(vs));
    QuotientAtMost(Sum(vs), |vs| as real, Max(vs));
  }

  // ---------------------------------------------------------------------------
  // featurize_window

  datatype Stats = Stats(mean: real, std: real, max: real)

  const ZeroStats: Stats := Stats(0.0, 0.0, 0.0)

  /**
   * `st` summarises the values `vs`: its mean is their average (which times
   * their number is their sum, `MeanTimesCount`), its maximum one of them and
   * at least every one, and its std the root of their variance.
   */
  predicate Summarizes(st: Stats, vs: seq<real>, sqrt: real -> real)
    requires vs != []
  {
    && st.mean == Mean(vs)
    && st.max in vs
    && (forall i :: 0 <= i < |vs| ==> vs[i] <= st.max)
    && st.mean <= st.max
    && st.std == sqrt(Variance(vs))
  }

  /** The statistics `np.mean`, `np.std` and `np.max` of the values. */
  function StatsOf(vs: seq<real>, sqrt: real -> real): (st: Stats)
    requires vs != []
    ensures Summarizes(st, vs, sqrt)
  {
    MeanAtMostMax(vs);
    Stats(Mean(vs), sqrt(Variance(vs)), Max(vs))
  }

  /** The three statistics one channel contributes, zero-filled when it has no numeric value. */
  function ChannelStats(f: Frame, c: string, sqrt: real -> real): (st: Stats)
    ensures c !in f.columns ==> st == ZeroStats
    ensures (forall i :: 0 <= i < |f.rows| ==> CellAt(f.rows[i], c).None?) ==> st == ZeroStats
    ensures c in f.columns && NumericValues(f.rows, c) != [] ==>
      Summarizes(st, NumericValues(f.rows, c), sqrt)
  {
    if c !in f.columns then ZeroStats
    else
      var vs := NumericValues(f.rows, c);
      if vs == [] then ZeroStats else StatsOf(vs, sqrt)
  }

  /** The suffixes of the three statistics, in the order they are added. */
  const Suffixes: seq<string> := ["_mean", "_std", "_max"]

  /** The name `c + suffix` under which statistic `t` of channel `j` is stored. */
  function FeatureName(j: nat, t: nat): string
    requires j < |Channels| && t < |Suffixes|
  {
    Channels[j] + Suffixes[t]
  }

  /** The statistic that suffix `t` names. */
  function Component(st: Stats, t: nat): real
    requires t < |Suffixes|
  {
    if t == 0 then st.mean else if t == 1 then st.std else st.max
  }

  /** Different channels or statistics never share a name. */
  lemma FeatureNameInjective(j: nat, t: nat, j': nat, t': nat)
    requires j < |Channels| && t < |Suffixes| && j' < |Channels| && t' < |Suffixes|
    requires FeatureName(j, t) == FeatureName(j', t')
    ensures j == j' && t == t'
  {
    var n := FeatureName(j, t);
    assert n[0] == Channels[j][0] && n[0] == Channels[j'][0];
    var c := Channels[j];
    assert n[|c|..] == Suffixes[t] && n[|c|..] == Suffixes[t'];
    assert Suffixes[t][1] == Suffixes[t'][1];
  }

  /** The names of the statistics of the first `k` channels. */
  function NamesUpTo(k: nat): (names: set<string>)
    requires k <= |Channels|
    ensures forall j, t :: 0 <= j < k && 0 <= t < |Suffixes| ==> FeatureName(j, t) in names
  {
    if k == 0 then {} else NamesUpTo(k - 1) + {FeatureName(k - 1, 0), FeatureName(k - 1, 1), FeatureName(k - 1, 2)}
  }

  /** A later channel's names are not among the names of the first `k` channels. */
  lemma {:induction false} LaterNameIsNew(k: nat, j: nat, t: nat)
    requires k <= j < |Channels| && t < |Suffixes|
    ensures FeatureName(j, t) !in NamesUpTo(k)
  {
    if k > 0 {
      var last := k - 1;
      LaterNameIsNew(last, j, t);
      forall t' | 0 <= t' < |Suffixes| ensures FeatureName(j, t) != FeatureName(last, t') {
        if FeatureName(j, t) == FeatureName(last, t') {
          FeatureNameInjective(j, t, last, t');
        }
      }
    }
  }

  /** The first `k` channels have `3 * k` distinct names. */
  lemma {:induction false} NamesUpToSize(k: nat)
    requires k <= |Channels|
    ensures |NamesUpTo(k)| == 3 * k
  {
    if k > 0 {
      var last := k - 1;
      NamesUpToSize(last);
      var a, b, c := FeatureName(last, 0), FeatureName(last, 1), FeatureName(last, 2);
      LaterNameIsNew(last, last, 0);
      LaterNameIsNew(last, last, 1);
      LaterNameIsNew(last, last, 2);
      if a == b { FeatureNameInjective(last, 0, last, 1); }
      if a == c { FeatureNameInjective(last, 0, last, 2); }
      if b == c { FeatureNameInjective(last, 1, last, 2); }
      assert |{a, b, c}| == 3;
      assert NamesUpTo(last) !! {a, b, c};
    }
  }

  /** The feature map after the first `k` channels of the loop in `featurize_window`. */
  function FeaturesUpTo(f: Frame, k: nat, sqrt: real -> real): map<string, real>
    requires k <= |Channels|
  {
    if k == 0 then map[]
    else
      var last := k - 1;
      var st := ChannelStats(f, Channels[last], sqrt);
      FeaturesUpTo(f, last, sqrt)[FeatureName(last, 0) := st.mean][FeatureName(last, 1) := st.std][FeatureName(last, 2) := st.max]
  }

  /** After `k` channels the map holds exactly their names, each bound to its statistic. */
  lemma {:induction false} FeaturesUpToContents(f: Frame, k: nat, sqrt: real -> real)
    requires k <= |Channels|
    ensures FeaturesUpTo(f, k, sqrt).Keys == NamesUpTo(k)
    ensures forall j, t :: 0 <= j < k && 0 <= t < |Suffixes| ==>
      FeaturesUpTo(f, k, sqrt)[FeatureName(j, t)] == Component(ChannelStats(f, Channels[j], sqrt), t)
  {
    if k > 0 {
      var last := k - 1;
      FeaturesUpToContents(f, last, sqrt);
      var m := FeaturesUpTo(f, k, sqrt);
      forall j, t | 0 <= j < k && 0 <= t < |Suffixes|
        ensures m[FeatureName(j, t)] == Component(ChannelStats(f, Channels[j], sqrt), t)
      {
        forall t' | 0 <= t' < |Suffixes| && FeatureName(j, t) == FeatureName(last, t')
          ensures j == last && t == t'
        {
          FeatureNameInjective(j, t, last, t');
        }
      }
    }
  }

  /** The nine feature names, in the order `featurize_window` inserts them. */
  const FeatureColumns: seq<string> := [
    "vibration_mean", "vibration_std", "vibration_max",
    "flame_mean", "flame_std", "flame_max",
    "water_mean", "water_std", "water_max"]

  /** Entry `3 * j + t` of the column list is the name of statistic `t` of channel `j`. */
  lemma FeatureColumnsAreNames()
    ensures |FeatureColumns| == 9
    ensures forall j, t :: 0 <= j < |Channels| && 0 <= t < |Suffixes| ==> FeatureColumns[3 * j + t] == FeatureName(j, t)
  {
  }

  /** The names of all three channels are exactly the nine feature columns. */
  lemma NamesAreFeatureColumns()
    ensures NamesUpTo(|Channels|) == set n | n in FeatureColumns
  {
    FeatureColumnsAreNames();
    assert NamesUpTo(|Channels|) == {
      FeatureName(0, 0), FeatureName(0, 1), FeatureName(0, 2),
      FeatureName(1, 0), FeatureName(1, 1), FeatureName(1, 2),
      FeatureName(2, 0), FeatureName(2, 1), FeatureName(2, 2)};
  }

  /** What `featurize_window` returns. */
  function Features(f: Frame, sqrt: real -> real): map<string, real> {
    FeaturesUpTo(f, |Channels|, sqrt)
  }

  /** The feature map has nine entries: the three statistics of each channel. */
  lemma FeaturesContents(f: Frame, sqrt: real -> real)
    ensures var m := Features(f, sqrt);
      && m.Keys == NamesUpTo(|Channels|) && |m| == 9
      && (forall n :: n in m <==> n in FeatureColumns)
      && forall j, t :: 0 <= j < |Channels| && 0 <= t < |Suffixes| ==>
        m[FeatureName(j, t)] == Component(ChannelStats(f, Channels[j], sqrt), t)
  {
    FeaturesUpToContents(f, |Channels|, sqrt);
    NamesUpToSize(|Channels|);
    NamesAreFeatureColumns();
  }

  /**
   * `featurize_window`: one pass over the channels, adding three entries per
   * channel; a channel that is absent, or whose values are all non-numeric,
   * gets zeros.
   */
  method FeaturizeWindow(f: Frame, sqrt: real -> real) returns (feats: map<string, real>)
    ensures feats == Features(f, sqrt)
  {
    feats := map[];
    for k := 0 to |Channels|
      invariant feats == FeaturesUpTo(f, k, sqrt)
    {
      var c := Channels[k];
      if c in f.columns {
        var vals := NumericValues(f.rows, c);
        if |vals| > 0 {
          feats := feats[c + "_mean" := Mean(vals)];
          feats := feats[c + "_std" := sqrt(Variance(vals))];
          feats := feats[c + "_max" := Max(vals)];
        } else {
          feats := feats[c + "_mean" := 0.0];
          feats := feats[c + "_std" := 0.0];
          feats := feats[c + "_max" := 0.0];
        }
      } else {
        feats := feats[c + "_mean" := 0.0];
        feats := feats[c + "_std" := 0.0];
        feats := feats[c + "_max" := 0.0];
      }
    }
  }

  // ---------------------------------------------------------------------------
  // The windowing loop of train_iforest

  function Min(a: int, b: int): int {
    if a <= b then a else b
  }

  /** The consecutive slices of `xs` of `size` elements each, the last one possibly shorter. */
  function Chunks<T>(xs: seq<T>, size: nat): seq<seq<T>>
    requires size > 0
    decreases |xs|
  {
    if xs == [] then []
    else
      var end := Min(size, |xs|);
      [xs[..end]] + Chunks(xs[end..], size)
  }

  function Flatten<T>(cs: seq<seq<T>>): seq<T> {
    if cs == [] then [] else cs[0] + Flatten(cs[1..])
  }

  /** The windows cover every row exactly once, in order. */
  lemma {:induction false} ChunksCoverInOrder<T>(xs: seq<T>, size: nat)
    requires size > 0
    ensures Flatten(Chunks(xs, size)) == xs
  {
    if xs != [] {
      var end := Min(size, |xs|);
      ChunksCoverInOrder(xs[end..], size);
      assert xs[..end] + xs[end..] == xs;
    }
  }

  /** There are `ceil(|xs| / size)` windows: the fewest whose full capacity holds every row. */
  lemma {:induction false} ChunksCount<T>(xs: seq<T>, size: nat)
    requires size > 0
    ensures var c := |Chunks(xs, size)|;
      && (c == 0 <==> xs == [])
      && |xs| <= c * size
      && (c > 0 ==> (c - 1) * size < |xs|)
  {
    if xs != [] && |xs| > size {
      var rest := xs[size..];
      ChunksCount(rest, size);
      var c' := |Chunks(rest, size)|;
      assert (c' + 1) * size == c' * size + size;
    }
  }

  /** Every window holds `size` rows except possibly the last, which is not empty. */
  lemma {:induction false} ChunksSizes<T>(xs: seq<T>, size: nat)
    requires size > 0
    ensures var cs := Chunks(xs, size);
      forall k :: 0 <= k < |cs| ==> 0 < |cs[k]| <= size && (k < |cs| - 1 ==> |cs[k]| == size)
  {
    if xs != [] {
      var end := Min(size, |xs|);
      var cs := Chunks(xs, size);
      ChunksSizes(xs[end..], size);
      assert cs[1..] == Chunks(xs[end..], size);
      forall k | 0 <= k < |cs|
        ensures 0 < |cs[k]| <= size && (k < |cs| - 1 ==> |cs[k]| == size)
      {
        if k > 0 {
          assert cs[k] == cs[1..][k - 1];
        }
      }
    }
  }

  /** Peeling the window that starts at row `i` off the windows of the remaining rows. */
  lemma ChunksStep<T>(done: seq<seq<T>>, xs: seq<T>, size: nat, i: nat)
    requires size > 0 && i < |xs|
    requires done + Chunks(xs[i..], size) == Chunks(xs, size)
    ensures (done + [xs[i..Min(i + size, |xs|)]]) + Chunks(xs[Min(i + size, |xs|)..], size) == Chunks(xs, size)
  {
    var rest := xs[i..];
    assert rest[..Min(size, |rest|)] == xs[i..Min(i + size, |xs|)];
    assert rest[Min(size, |rest|)..] == xs[Min(i + size, |xs|)..];
    assert Chunks(rest, size) == [xs[i..Min(i + size, |xs|)]] + Chunks(xs[Min(i + size, |xs|)..], size);
  }

  /** Window `k` is the slice `[k * size, k * size + size)` of the rows, cut off at the end. */
  lemma ChunkIsSlice<T>(xs: seq<T>, size: nat, k: nat)
    requires size > 0 && k < |Chunks(xs, size)|
    ensures k * size < |xs|
    ensures Chunks(xs, size)[k] == xs[k * size..Min(k * size + size, |xs|)]
  {
    ChunkAt(xs, size, k);
    StartIsProduct(k, size);
  }

  /** The first row of window `k`: `size` added `k` times, which keeps the induction linear. */
  function Start(k: nat, size: nat): nat {
    if k == 0 then 0 else Start(k - 1, size) + size
  }

  lemma {:induction false} StartIsProduct(k: nat, size: nat)
    ensures Start(k, size) == k * size
  {
    if k > 0 {
      StartIsProduct(k - 1, size);
      assert (k - 1) * size + size == k * size;
    }
  }

  lemma {:induction false} ChunkAt<T>(xs: seq<T>, size: nat, k: nat)
    requires size > 0 && k < |Chunks(xs, size)|
    ensures Start(k, size) < |xs|
    ensures Chunks(xs, size)[k] == xs[Start(k, size)..Min(Start(k, size) + size, |xs|)]
  {
    if k > 0 {
      var end := Min(size, |xs|);
      var rest := xs[end..];
      assert Chunks(xs, size)[k] == Chunks(rest, size)[k - 1] by {
        ChunksCons(xs, size);
      }
      ChunkAt(rest, size, k - 1);
      var lo' := Start(k - 1, size);
      var hi' := Min(lo' + size, |rest|);
      assert end == size && hi' + size == Min(Start(k, size) + size, |xs|);
      SliceOfSuffix(xs, size, lo', hi');
    }
  }

  lemma SliceOfSuffix<T>(xs: seq<T>, d: nat, lo: nat, hi: nat)
    requires d <= |xs| && lo <= hi <= |xs| - d
    ensures xs[d..][lo..hi] == xs[lo + d..hi + d]
  {
  }

  lemma ChunksCons<T>(xs: seq<T>, size: nat)
    requires size > 0 && xs != []
    ensures Chunks(xs, size) == [xs[..Min(size, |xs|)]] + Chunks(xs[Min(size, |xs|)..], size)
  {
  }

  /** The result of the windowing part of `train_iforest`, before the detector is fitted. */
  datatype TrainOutcome =
    | RangeStepZero                              // `range` raises ValueError for a step of 0
    | NoWindows                                  // the feature table is empty: training aborts
    | Windows(features: seq<map<string, real>>)  // one feature map per window, in row order

  /** Window `k` of `windows` is the feature map of row chunk `k`. */
  ghost predicate FeaturizesChunks(windows: seq<map<string, real>>, columns: set<string>, cs: seq<seq<Row>>,
                                   sqrt: real -> real)
  {
    |windows| == |cs| && forall k :: 0 <= k < |cs| ==> windows[k] == Features(Frame(columns, cs[k]), sqrt)
  }

  lemma FeaturizesChunksAppend(windows: seq<map<string, real>>, columns: set<string>, cs: seq<seq<Row>>,
                               w: seq<Row>, sqrt: real -> real)
    requires FeaturizesChunks(windows, columns, cs, sqrt)
    ensures FeaturizesChunks(windows + [Features(Frame(columns, w), sqrt)], columns, cs + [w], sqrt)
  {
    var ws := windows + [Features(Frame(columns, w), sqrt)];
    forall k | 0 <= k < |cs + [w]|
      ensures ws[k] == Features(Frame(columns, (cs + [w])[k]), sqrt)
    {
      if k < |cs| {
        assert ws[k] == windows[k];
        assert (cs + [w])[k] == cs[k];
      }
    }
  }

  /** The loop over the window starts 0, size, 2*size, ... below the number of rows, for a positive step. */
  method FeaturizeChunks(f: Frame, windowSize: nat, sqrt: real -> real) returns (windows: seq<map<string, real>>)
    requires windowSize > 0
    ensures FeaturizesChunks(windows, f.columns, Chunks(f.rows, windowSize), sqrt)
  {
    windows := [];
    var n := |f.rows|;
    var i := 0;
    ghost var done: seq<seq<Row>> := [];
    while i < n
      invariant 0 <= i
      invariant done + Chunks(f.rows[Min(i, n)..], windowSize) == Chunks(f.rows, windowSize)
      invariant FeaturizesChunks(windows, f.columns, done, sqrt)
      decreases n - i
    {
      var w := f.rows[i..Min(i + windowSize, n)];
      assert Min(i, n) == i;
      ChunksStep(done, f.rows, windowSize, i);
      var feats := FeaturizeWindow(Frame(f.columns, w), sqrt);
      FeaturizesChunksAppend(windows, f.columns, done, w, sqrt);
      windows := windows + [feats];
      done := done + [w];
      assert done + Chunks(f.rows[Min(i + windowSize, n)..], windowSize) == Chunks(f.rows, windowSize);
      i := i + windowSize;
    }
    assert f.rows[Min(i, n)..] == [];
  }

  /**
   * The windowing part of `train_iforest`: cuts the rows into consecutive
   * windows of `windowSize` rows, featurizes each, and aborts when no window
   * came out.
   */
  method TrainingWindows(f: Frame, windowSize: int, sqrt: real -> real) returns (r: TrainOutcome)
    ensures r.RangeStepZero? <==> windowSize == 0
    ensures windowSize < 0 ==> r.NoWindows?
    ensures windowSize > 0 ==> (r.NoWindows? <==> f.rows == [])
    ensures windowSize > 0 && r.Windows? ==>
      FeaturizesChunks(r.features, f.columns, Chunks(f.rows, windowSize), sqrt)
  {
    if windowSize == 0 {
      return RangeStepZero;
    }
    var windows: seq<map<string, real>> := [];
    if windowSize > 0 {
      windows := FeaturizeChunks(f, windowSize, sqrt);
      ChunksCount(f.rows, windowSize);
    }
    if |windows| == 0 {
      r := NoWindows;
    } else {
      r := Windows(windows);
    }
  }

  // ---------------------------------------------------------------------------
  // predict_window

  /** The fitted detector: `decision_function` (higher is more normal) and `predict` (-1 for an outlier). */
  datatype Estimator = Estimator(decisionFunction: seq<real> -> real, predict: seq<real> -> int)

  /** What `joblib` stores: the detector and the column list it was fitted on. */
  datatype ModelTuple = ModelTuple(model: Estimator, cols: seq<string>)

  datatype PredictError = ModelFileNotFound

  /** The result pair: whether the window is an anomaly, and its anomaly score. */
  datatype Verdict = Verdict(isAnomaly: bool, anomalyScore: real)

  /** The one-row feature table laid out on the model's columns: each column takes its feature, or 0.0 when the feature is absent. */
  function Reindex(feats: map<string, real>, cols: seq<string>): (row: seq<real>)
    ensures |row| == |cols|
    ensures forall j :: 0 <= j < |cols| ==> row[j] == (if cols[j] in feats then feats[cols[j]] else 0.0)
  {
    if cols == [] then []
    else
      var c := cols[|cols| - 1];
      Reindex(feats, cols[..|cols| - 1]) + [if c in feats then feats[c] else 0.0]
  }

  /** Features outside the column list are dropped: only the listed ones matter. */
  lemma ReindexIgnoresExtras(feats: map<string, real>, other: map<string, real>, cols: seq<string>)
    requires forall j :: 0 <= j < |cols| ==>
      (cols[j] in feats <==> cols[j] in other) && (cols[j] in feats ==> feats[cols[j]] == other[cols[j]])
    ensures Reindex(feats, cols) == Reindex(other, cols)
  {
  }

  /** On the columns training stores, every feature is copied and none is zero-filled. */
  lemma TrainedColumnsNeedNoFill(f: Frame, sqrt: real -> real)
    ensures var row := Reindex(Features(f, sqrt), FeatureColumns);
      && |row| == 9
      && forall j, t :: 0 <= j < |Channels| && 0 <= t < |Suffixes| ==>
        row[3 * j + t] == Component(ChannelStats(f, Channels[j], sqrt), t)
  {
    var m := Features(f, sqrt);
    var row := Reindex(m, FeatureColumns);
    FeatureColumnsAreNames();
    FeaturesContents(f, sqrt);
    forall j, t | 0 <= j < |Channels| && 0 <= t < |Suffixes|
      ensures row[3 * j + t] == Component(ChannelStats(f, Channels[j], sqrt), t)
    {
      var n := FeatureName(j, t);
      assert FeatureColumns[3 * j + t] == n && n in m;
    }
  }

  /**
   * `predict_window`: an explicit model tuple wins, else the stored artifact
   * (`stored` is the file at the model path, None when it does not exist).
   * The score is the negated `decision_function`, so higher is more anomalous.
   */
  function PredictWindow(window: Frame, modelTuple: Option<ModelTuple>, stored: Option<ModelTuple>,
                         sqrt: real -> real): (r: Result<Verdict, PredictError>)
    ensures r.Failure? <==> modelTuple.None? && stored.None?
    ensures r.Failure? ==> r.error == ModelFileNotFound
    ensures r.Success? ==>
      var mt := if modelTuple.Some? then modelTuple.value else stored.value;
      var x := Reindex(Features(window, sqrt), mt.cols);
      && r.value.anomalyScore == -mt.model.decisionFunction(x)
      && (r.value.isAnomaly <==> mt.model.predict(x) == -1)
  {
    var loaded := if modelTuple.Some? then modelTuple else stored;
    match loaded
    case None => Failure(ModelFileNotFound)
    case Some(mt) =>
      var x := Reindex(Features(window, sqrt), mt.cols);
      var rawScore := mt.model.decisionFunction(x);
      var isAnom := mt.model.predict(x) == -1;
      Success(Verdict(isAnom, -rawScore))
  }

  /** With a model tuple given, whatever is stored on disk plays no part. */
  lemma GivenModelIgnoresStored(window: Frame, mt: ModelTuple, s1: Option<ModelTuple>, s2: Option<ModelTuple>,
                                sqrt: real -> real)
    ensures PredictWindow(window, Some(mt), s1, sqrt) == PredictWindow(window, Some(mt), s2, sqrt)
  {
  }

  /**
   * For a detector that flags exactly the rows it scores below zero (as an
   * isolation forest does), a window is an anomaly exactly when its score is
   * positive.
   */
  lemma AnomalyExactlyWhenScorePositive(window: Frame, mt: ModelTuple, sqrt: real -> real)
    requires forall x :: mt.model.predict(x) == -1 <==> mt.model.decisionFunction(x) < 0.0
    ensures var r := PredictWindow(window, Some(mt), None, sqrt);
      r.Success? && (r.value.isAnomaly <==> r.value.anomalyScore > 0.0)
  {
  }
}
