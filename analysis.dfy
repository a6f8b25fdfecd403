/** The per-cluster bookkeeping done after clustering: how large each
    cluster is, the mean and median of every marker within each cluster, and
    the events whose z-score is extreme in some marker. Cluster labels are a
    sequence aligned with the table's rows, label `i` belonging to row `i`. */
module Analysis {
  import opened Masks
  import opened Stats
  import opened Tables
  import opened Preprocessing

  // ---------------------------------------------------------------- labels

  /** The distinct labels of `s`, each once: the ids `Series.unique()` lists. */
  function Distinct(s: seq<int>): (d: seq<int>)
    ensures forall x :: x in d <==> x in s
    ensures forall i, j | 0 <= i < j < |d| :: d[i] != d[j]
  {
    if s == [] then []
    else
      var d := Distinct(s[..|s| - 1]);
      if s[|s| - 1] in d then d else d + [s[|s| - 1]]
  }

  /** How many times `x` occurs in `s`. */
  function Count(s: seq<int>, x: int): (n: nat)
    ensures n <= |s|
    ensures n > 0 <==> x in s
  {
    if s == [] then 0
    else
      assert s == s[..|s| - 1] + [s[|s| - 1]];
      Count(s[..|s| - 1], x) + (if s[|s| - 1] == x then 1 else 0)
  }

  // ---------------------------------------------------------------- calculate_cluster_proportions

  /** `value_counts(normalize=True)`: each distinct label's share of the
      events. */
  function ClusterProportions(labels: seq<int>): (p: map<int, real>)
    ensures p.Keys == set x | x in labels
    ensures forall x | x in p :: p[x] == Count(labels, x) as real / |labels| as real
    ensures forall x | x in p :: 0.0 < p[x] <= 1.0
  {
    map x | x in labels :: Share(Count(labels, x), |labels|)
  }

  /** `k` events out of `n` as a fraction of one. */
  function Share(k: nat, n: nat): (r: real)
    ensures 0 < k <= n ==> r == k as real / n as real && 0.0 < r <= 1.0
  {
    if n == 0 then 0.0
    else if k <= n then
      DivBounds(k as real, n as real, 0.0, 1.0);
      k as real / n as real
    else k as real / n as real
  }

  /** Sum of `p` over `keys`, each key once per occurrence. */
  function SumOver(keys: seq<int>, p: map<int, real>): real
    requires forall i | 0 <= i < |keys| :: keys[i] in p
  {
    if keys == [] then 0.0
    else
      p[keys[0]] + SumOver(keys[1..], p)
  }

  /** The number of events carrying one of `keys`, each key counted once per
      occurrence. */
  function CountOver(keys: seq<int>, s: seq<int>): nat
  {
    if keys == [] then 0 else Count(s, keys[0]) + CountOver(keys[1..], s)
  }

  /** Appending one event adds one to the total count over distinct keys
      exactly when its label is among them. */
  lemma {:induction false} CountOverSnoc(keys: seq<int>, s: seq<int>, x: int)
    requires forall i, j | 0 <= i < j < |keys| :: keys[i] != keys[j]
    ensures CountOver(keys, s + [x]) == CountOver(keys, s) + (if x in keys then 1 else 0)
  {
    if keys != [] {
      assert (s + [x])[..|s + [x]| - 1] == s;
      CountOverSnoc(keys[1..], s, x);
      assert x in keys <==> x == keys[0] || x in keys[1..];
      assert x == keys[0] ==> x !in keys[1..];
    }
  }

  /** Counting over `keys + [x]` adds the occurrences of `x`. */
  lemma {:induction false} CountOverAppend(keys: seq<int>, x: int, s: seq<int>)
    ensures CountOver(keys + [x], s) == CountOver(keys, s) + Count(s, x)
  {
    if keys != [] {
      assert (keys + [x])[1..] == keys[1..] + [x];
      CountOverAppend(keys[1..], x, s);
    }
  }

  /** Every event carries exactly one of the distinct labels. */
  lemma {:induction false} DistinctCountsEverything(s: seq<int>)
    ensures CountOver(Distinct(s), s) == |s|
  {
    if s != [] {
      var p, x := s[..|s| - 1], s[|s| - 1];
      assert s == p + [x];
      DistinctCountsEverything(p);
      CountOverSnoc(Distinct(p), p, x);
      if x !in Distinct(p) {
        CountOverAppend(Distinct(p), x, s);
        assert Count(s, x) == Count(p, x) + 1;
      }
    }
  }

  /** Summing proportions over some keys is their total count over the number
      of events. */
  lemma {:induction false} SumOverProportions(keys: seq<int>, labels: seq<int>)
    requires labels != []
    requires forall i | 0 <= i < |keys| :: keys[i] in labels
    ensures SumOver(keys, ClusterProportions(labels)) == CountOver(keys, labels) as real / |labels| as real
  {
    if keys != [] {
      var p, n := ClusterProportions(labels), |labels| as real;
      SumOverProportions(keys[1..], labels);
      AddFractions(Count(labels, keys[0]) as real, CountOver(keys[1..], labels) as real, n);
    }
  }

  /** The proportions of the distinct labels sum to one. */
  lemma ProportionsSumToOne(labels: seq<int>)
    requires labels != []
    ensures SumOver(Distinct(labels), ClusterProportions(labels)) == 1.0
  {
    var n := |labels| as real;
    SumOverProportions(Distinct(labels), labels);
    DistinctCountsEverything(labels);
    Whole(n);
  }

  lemma AddFractions(a: real, b: real, n: real)
    requires n > 0.0
    ensures a / n + b / n == (a + b) / n
  {
  }

  // ---------------------------------------------------------------- calculate_population_statistics

  /** `clusters['Cluster'] == id`, as a row mask. */
  function LabelMask(labels: seq<int>, id: int): (mask: seq<bool>)
    ensures |mask| == |labels|
    ensures forall i | 0 <= i < |labels| :: mask[i] <==> labels[i] == id
  {
    seq(|labels|, i requires 0 <= i < |labels| => labels[i] == id)
  }

  /** `data[clusters['Cluster'] == id]`: the rows labelled `id`, in order. */
  function Group(data: Table, labels: seq<int>, id: int): (g: Table)
    requires data.Valid() && |labels| == |data.rows|
    ensures g.Valid() && g.columns == data.columns
    ensures Selects(g.rows, data.rows, LabelMask(labels, id))
  {
    FilterValid(data, LabelMask(labels, id));
    data.Filter(LabelMask(labels, id))
  }

  /** The mask marks as many positions as the label occurs. */
  lemma {:induction false} KeptLabelCount(labels: seq<int>, id: int)
    ensures |Kept(LabelMask(labels, id))| == Count(labels, id)
  {
    if labels != [] {
      var n := |labels| - 1;
      KeptLabelCount(labels[..n], id);
      assert LabelMask(labels, id)[..n] == LabelMask(labels[..n], id);
    }
  }

  /** A group holds one row per event carrying its label: every row labelled
      `id`, and only such rows. */
  lemma GroupRows(data: Table, labels: seq<int>, id: int)
    requires data.Valid() && |labels| == |data.rows|
    ensures |Group(data, labels, id).rows| == Count(labels, id)
    ensures forall r | r in Group(data, labels, id).rows ::
      exists i | 0 <= i < |data.rows| :: labels[i] == id && data.rows[i] == r
    ensures forall i | 0 <= i < |data.rows| && labels[i] == id :: data.rows[i] in Group(data, labels, id).rows
  {
    var g, mask := Group(data, labels, id), LabelMask(labels, id);
    KeptLabelCount(labels, id);
    SelectsMembers(g.rows, data.rows, mask);
  }

  /** The statistics kept for one cluster: per-column mean and median. */
  datatype Summary = Summary(mean: map<string, real>, median: map<string, real>)

  /** `cluster_data.mean()` and `cluster_data.median()` as dictionaries. */
  function Summarize(g: Table): (s: Summary)
    requires g.Valid() && |g.rows| > 0
    ensures s.mean.Keys == g.ColumnSet() && s.median.Keys == g.ColumnSet()
  {
    Summary(
      map c | c in g.columns :: Mean(g.Column(c)),
      map c | c in g.columns :: Median(g.Column(c)))
  }

  /** Within a cluster, every column's mean and median lie between that
      column's smallest and largest value in the cluster; with an even number
      of events the median is the average of the two middle values. */
  lemma SummaryWithinRange(data: Table, labels: seq<int>, id: int, c: string)
    requires data.Valid() && |labels| == |data.rows| && id in labels && c in data.columns
    ensures var g := Group(data, labels, id);
      && |g.rows| > 0
      && var col, s := g.Column(c), Summarize(g);
      && Min(col) <= s.mean[c] <= Max(col)
      && Min(col) <= s.median[c] <= Max(col)
      && (|col| % 2 == 0 ==> s.median[c] == (Sort(col)[|col| / 2 - 1] + Sort(col)[|col| / 2]) / 2.0)
  {
    var g := Group(data, labels, id);
    GroupRows(data, labels, id);
    var col := g.Column(c);
    MeanWithinRange(col);
    MedianWithinRange(col);
    MedianMiddle(col);
  }

  /** The statistics of the cluster labelled `id`, computed from its rows
      alone; an id that labels no event has none. */
  function ClusterSummary(data: Table, labels: seq<int>, id: int): Summary
    requires data.Valid() && |labels| == |data.rows|
  {
    var g := Group(data, labels, id);
    if g.rows == [] then Summary(map[], map[]) else Summarize(g)
  }

  /** `ClusterSummary` as a value, one cluster id at a time. */
  function Summarizer(data: Table, labels: seq<int>): int -> Summary
    requires data.Valid() && |labels| == |data.rows|
  {
    id => ClusterSummary(data, labels, id)
  }

  /** The dictionary after entering the first `k` keys of `ids` in turn, each
      with its value under `f`. */
  function Fill<V>(ids: seq<int>, k: int, f: int -> V): map<int, V>
    requires 0 <= k <= |ids|
    decreases k
  {
    if k == 0 then map[] else Fill(ids, k - 1, f)[ids[k - 1] := f(ids[k - 1])]
  }

  /** Filling gives one entry per key entered, each with its value under `f`. */
  lemma {:induction false} FillEntries<V>(ids: seq<int>, k: int, f: int -> V)
    requires 0 <= k <= |ids|
    ensures forall x :: x in Fill(ids, k, f) <==> x in ids[..k]
    ensures forall x | x in Fill(ids, k, f) :: Fill(ids, k, f)[x] == f(x)
    decreases k
  {
    if k > 0 {
      FillEntries(ids, k - 1, f);
      assert ids[..k] == ids[..k - 1] + [ids[k - 1]];
    }
  }

  /** The dictionary `calculate_population_statistics` returns: every distinct
      cluster id entered one at a time, in `Distinct`'s order. */
  function ClusterStats(data: Table, labels: seq<int>): map<int, Summary>
    requires data.Valid() && |labels| == |data.rows|
  {
    Fill(Distinct(labels), |Distinct(labels)|, Summarizer(data, labels))
  }

  /** The statistics have one entry per cluster id that occurs and no other,
      each the summary of that cluster's own, non-empty, set of rows. */
  lemma ClusterStatsEntries(data: Table, labels: seq<int>)
    requires data.Valid() && |labels| == |data.rows|
    ensures forall x :: x in ClusterStats(data, labels) <==> x in labels
    ensures forall id | id in ClusterStats(data, labels) ::
      && |Group(data, labels, id).rows| > 0
      && ClusterStats(data, labels)[id] == Summarize(Group(data, labels, id))
  {
    var ids, stats := Distinct(labels), ClusterStats(data, labels);
    FillEntries(ids, |ids|, Summarizer(data, labels));
    assert ids[..|ids|] == ids;
    forall id | id in stats
      ensures |Group(data, labels, id).rows| > 0 && stats[id] == Summarize(Group(data, labels, id))
    {
      GroupRows(data, labels, id);
    }
  }

  /** The loop of `calculate_population_statistics`: enters the keys `ids`
      into a fresh dictionary one at a time, each with its value under `f`. */
  method FillByKey<V>(ids: seq<int>, f: int -> V) returns (m: map<int, V>)
    ensures m == Fill(ids, |ids|, f)
  {
    m := map[];
    for k := 0 to |ids|
      invariant m == Fill(ids, k, f)
    {
      m := m[ids[k] := f(ids[k])];
    }
  }

  /** `calculate_population_statistics`: one dictionary entry per distinct
      cluster id, entered one at a time in `Distinct`'s order. */
  method PopulationStatistics(data: Table, labels: seq<int>) returns (stats: map<int, Summary>)
    requires data.Valid() && |labels| == |data.rows|
    ensures stats == ClusterStats(data, labels)
  {
    stats := FillByKey(Distinct(labels), Summarizer(data, labels));
  }

  // ---------------------------------------------------------------- identify_outliers

  /** `(z_scores.abs() > threshold).any(axis=1)`. */
  function OutlierMask(t: Table, threshold: real): seq<bool>
    requires t.Valid()
  {
    seq(|t.rows|, i requires 0 <= i < |t.rows| =>
      exists c | c in t.columns :: AbsZAbove(t.rows[i][c], t.Column(c), threshold))
  }

  /** `identify_outliers`: the rows with some column's |z| above the
      threshold, in order. */
  function IdentifyOutliers(t: Table, threshold: real): (r: Table)
    requires t.Valid()
    ensures r.Valid() && r.columns == t.columns
    ensures Selects(r.rows, t.rows, OutlierMask(t, threshold))
  {
    FilterValid(t, OutlierMask(t, threshold));
    t.Filter(OutlierMask(t, threshold))
  }

  /** Every returned row has a column whose |z| exceeds the threshold, and
      every such row is returned. */
  lemma IdentifyOutliersRows(t: Table, threshold: real)
    requires t.Valid()
    ensures forall r | r in IdentifyOutliers(t, threshold).rows ::
      exists i | 0 <= i < |t.rows| :: t.rows[i] == r
        && exists c | c in t.columns :: AbsZAbove(t.rows[i][c], t.Column(c), threshold)
    ensures forall i | 0 <= i < |t.rows| ::
      (exists c | c in t.columns :: AbsZAbove(t.rows[i][c], t.Column(c), threshold))
        ==> t.rows[i] in IdentifyOutliers(t, threshold).rows
  {
    SelectsMembers(IdentifyOutliers(t, threshold).rows, t.rows, OutlierMask(t, threshold));
  }

  /** Read with an actual standard deviation per column, a row is an outlier
      exactly when some |x - mean| / sd exceeds the threshold. */
  lemma OutlierRowMeaning(t: Table, threshold: real, i: int, sd: map<string, real>)
    requires t.Valid() && 0 <= i < |t.rows| && |t.rows| >= 2
    requires forall c | c in t.columns :: c in sd && sd[c] > 0.0 && Sq(sd[c]) == SampleVariance(t.Column(c))
    ensures OutlierMask(t, threshold)[i] <==>
      exists c | c in t.columns :: Abs(t.rows[i][c] - Mean(t.Column(c))) / sd[c] > threshold
  {
    forall c | c in t.columns
      ensures AbsZAbove(t.rows[i][c], t.Column(c), threshold)
          <==> Abs(t.rows[i][c] - Mean(t.Column(c))) / sd[c] > threshold
    {
      ZScoreSquaredForm(t.rows[i][c], t.Column(c), threshold, sd[c]);
    }
  }

  /** No event is both kept by `remove_outliers(method='zscore')` and reported
      by `identify_outliers` with the same threshold; an event whose largest
      |z| equals the threshold is in neither. */
  lemma OutliersDisjoint(t: Table, threshold: real, i: int)
    requires t.Valid() && 0 <= i < |t.rows|
    ensures !(ZScoreMask(t, threshold)[i] && OutlierMask(t, threshold)[i])
    ensures (exists c | c in t.columns :: AbsZEquals(t.rows[i][c], t.Column(c), threshold))
         && !OutlierMask(t, threshold)[i]
         ==> !ZScoreMask(t, threshold)[i]
  {
    forall c | c in t.columns
      ensures !(AbsZBelow(t.rows[i][c], t.Column(c), threshold) && AbsZAbove(t.rows[i][c], t.Column(c), threshold))
      ensures AbsZEquals(t.rows[i][c], t.Column(c), threshold) ==> !AbsZBelow(t.rows[i][c], t.Column(c), threshold)
    {
      ZExclusive(t.rows[i][c], t.Column(c), threshold);
    }
  }

  /** The same disjointness on the returned tables: no row of
      `identify_outliers` is among the rows `remove_outliers(method='zscore')`
      keeps. */
  lemma OutlierTablesDisjoint(t: Table, threshold: real)
    requires t.Valid()
    ensures RemoveOutliers(t, "zscore", threshold).Ok?
    ensures forall r | r in IdentifyOutliers(t, threshold).rows ::
      r !in RemoveOutliers(t, "zscore", threshold).value.rows
  {
    var kept := RemoveOutliers(t, "zscore", threshold).value.rows;
    var out := IdentifyOutliers(t, threshold).rows;
    SelectsMembers(kept, t.rows, ZScoreMask(t, threshold));
    SelectsMembers(out, t.rows, OutlierMask(t, threshold));
    forall r | r in out
      ensures r !in kept
    {
      var i :| 0 <= i < |t.rows| && OutlierMask(t, threshold)[i] && t.rows[i] == r;
      OutliersDisjoint(t, threshold, i);
      forall j | 0 <= j < |t.rows| && t.rows[j] == r
        ensures !ZScoreMask(t, threshold)[j]
      {
        assert ZScoreMask(t, threshold)[j] == ZScoreMask(t, threshold)[i];
      }
    }
  }
}
