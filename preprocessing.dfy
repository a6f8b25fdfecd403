/** The event-table filtering pipeline of the analyzer: debris, dead-cell,
    outlier and doublet removal, normalisation, and the pipeline that chains
    them. Every filter keeps an order-preserving selection of the rows; the
    errors the code raises are `Err` results. */
module Preprocessing {
  import opened Masks
  import opened Stats
  import opened Tables
  import opened Chains

  const FscArea: string := "FSC-A"
  const SscArea: string := "SSC-A"
  const FscHeight: string := "FSC-H"
  const SscHeight: string := "SSC-H"
  const Viability: string := "Viability"
  const FscRatio: string := "FSC_Ratio"
  const SscRatio: string := "SSC_Ratio"

  const DefaultScatterThreshold: real := 500.0
  const DefaultViabilityThreshold: real := 1500.0
  const DefaultZThreshold: real := 3.0
  const RatioLower: real := 0.8
  const RatioUpper: real := 1.2
  /** The IQR multiple that places the outlier fences beyond the quartiles. */
  const Whisker: real := 1.5

  /** What filtering by `mask` guarantees about the rows that remain. */
  lemma FilterRows(t: Table, mask: seq<bool>)
    requires t.Valid() && |mask| == |t.rows|
    ensures var f := t.Filter(mask);
      && f.Valid()
      && |f.rows| <= |t.rows|
      && (forall x | x in f.rows :: exists i | 0 <= i < |t.rows| :: mask[i] && t.rows[i] == x)
      && (forall i | 0 <= i < |t.rows| && mask[i] :: t.rows[i] in f.rows)
  {
    FilterValid(t, mask);
    SelectsMembers(t.Filter(mask).rows, t.rows, mask);
  }

  // ---------------------------------------------------------------- debris_removal

  function DebrisMask(t: Table, fsc: real, ssc: real): seq<bool>
    requires t.Valid() && FscArea in t.columns && SscArea in t.columns
  {
    seq(|t.rows|, i requires 0 <= i < |t.rows| => t.rows[i][FscArea] > fsc && t.rows[i][SscArea] > ssc)
  }

  /** `debris_removal`: keeps the events whose forward- and side-scatter areas
      both exceed their thresholds. Looking up a missing column raises. */
  function DebrisRemoval(t: Table, fsc: real, ssc: real): (r: Result<Table>)
    requires t.Valid()
    ensures r.Err? <==> FscArea !in t.columns || SscArea !in t.columns
    ensures r.Err? ==> r.error == MissingColumn(if FscArea !in t.columns then FscArea else SscArea)
    ensures r.Ok? ==> r.value.columns == t.columns && Selects(r.value.rows, t.rows, DebrisMask(t, fsc, ssc))
  {
    if FscArea !in t.columns then Err(MissingColumn(FscArea))
    else if SscArea !in t.columns then Err(MissingColumn(SscArea))
    else Ok(t.Filter(DebrisMask(t, fsc, ssc)))
  }

  /** Every event kept exceeds both thresholds strictly, every event that does
      is kept, and the table never grows. */
  lemma DebrisRemovalRows(t: Table, fsc: real, ssc: real)
    requires t.Valid() && FscArea in t.columns && SscArea in t.columns
    ensures DebrisRemoval(t, fsc, ssc).Ok?
    ensures var out := DebrisRemoval(t, fsc, ssc).value;
      && out.Valid() && out.columns == t.columns && |out.rows| <= |t.rows|
      && (forall k | 0 <= k < |out.rows| :: out.rows[k][FscArea] > fsc && out.rows[k][SscArea] > ssc)
      && (forall i | 0 <= i < |t.rows| && t.rows[i][FscArea] > fsc && t.rows[i][SscArea] > ssc ::
            t.rows[i] in out.rows)
  {
    var mask := DebrisMask(t, fsc, ssc);
    FilterRows(t, mask);
  }

  // ---------------------------------------------------------------- remove_dead

  function DeadMask(t: Table, threshold: real): seq<bool>
    requires t.Valid() && Viability in t.columns
  {
    seq(|t.rows|, i requires 0 <= i < |t.rows| => t.rows[i][Viability] > threshold)
  }

  /** `remove_dead`: keeps the events whose viability exceeds the threshold;
      a table without a viability column is rejected. */
  function RemoveDead(t: Table, threshold: real): (r: Result<Table>)
    requires t.Valid()
    ensures r.Err? <==> Viability !in t.columns
    ensures r.Err? ==> r.error == MissingColumn(Viability)
    ensures r.Ok? ==> r.value.columns == t.columns && Selects(r.value.rows, t.rows, DeadMask(t, threshold))
  {
    if Viability !in t.columns then Err(MissingColumn(Viability))
    else Ok(t.Filter(DeadMask(t, threshold)))
  }

  /** Every event kept is viable above the threshold, every such event is kept,
      and the columns are those of the input. */
  lemma RemoveDeadRows(t: Table, threshold: real)
    requires t.Valid() && Viability in t.columns
    ensures RemoveDead(t, threshold).Ok?
    ensures var out := RemoveDead(t, threshold).value;
      && out.Valid() && out.ColumnSet() == t.ColumnSet() && |out.rows| <= |t.rows|
      && (forall k | 0 <= k < |out.rows| :: out.rows[k][Viability] > threshold)
      && (forall i | 0 <= i < |t.rows| && t.rows[i][Viability] > threshold :: t.rows[i] in out.rows)
  {
    FilterRows(t, DeadMask(t, threshold));
  }

  // ---------------------------------------------------------------- normalize

  /** One min-max scaled value. A zero range (where pandas yields NaN) never
      reaches this: `NormalizeMinMax` reports the column instead. */
  function UnitRescale(x: real, lo: real, hi: real): real
  {
    if hi == lo then 0.0 else (x - lo) / (hi - lo)
  }

  /** The inverse of `UnitRescale`: a value in [0, 1] mapped back onto the
      column's range. */
  function Unscale(y: real, lo: real, hi: real): real
  {
    y * (hi - lo) + lo
  }

  /** One z-score. A zero deviation never reaches this: `NormalizeZScore`
      reports the column instead. */
  function ZValue(x: real, mean: real, sd: real): real
  {
    if sd == 0.0 then 0.0 else (x - mean) / sd
  }

  /** `(data - data.min()) / (data.max() - data.min())`, column by column. */
  function MinMaxScaled(t: Table): (out: Table)
    requires t.Valid() && |t.rows| > 0
    ensures out.columns == t.columns && |out.rows| == |t.rows|
    ensures forall i | 0 <= i < |out.rows| :: out.rows[i].Keys == t.ColumnSet()
  {
    Table(t.columns, seq(|t.rows|, i requires 0 <= i < |t.rows| =>
      map c | c in t.ColumnSet() :: UnitRescale(t.rows[i][c], Min(t.Column(c)), Max(t.Column(c)))))
  }

  /** `(data - data.mean()) / data.std()`, column by column, the standard
      deviation being the square root, taken by `sqrt`, of the sample variance. */
  function ZScoreScaled(t: Table, sqrt: real -> real): (out: Table)
    requires t.Valid() && |t.rows| >= 2
    ensures out.columns == t.columns && |out.rows| == |t.rows|
    ensures forall i | 0 <= i < |out.rows| :: out.rows[i].Keys == t.ColumnSet()
  {
    Table(t.columns, seq(|t.rows|, i requires 0 <= i < |t.rows| =>
      map c | c in t.ColumnSet() :: ZValue(t.rows[i][c], Mean(t.Column(c)), sqrt(SampleVariance(t.Column(c))))))
  }

  predicate IsConstant(t: Table, c: string)
    requires t.Valid() && c in t.columns && |t.rows| > 0
  {
    Max(t.Column(c)) == Min(t.Column(c))
  }

  /** The first of the columns `cs` whose values are all equal, if any. */
  function FirstConstant(t: Table, cs: seq<string>): (r: Option<string>)
    requires t.Valid() && |t.rows| > 0 && forall c | c in cs :: c in t.columns
    ensures r.Some? ==> r.value in cs && IsConstant(t, r.value)
    ensures r.None? ==> forall c | c in cs :: !IsConstant(t, c)
  {
    if cs == [] then None
    else if IsConstant(t, cs[0]) then Some(cs[0])
    else FirstConstant(t, cs[1..])
  }

  /** `normalize(method='minmax')`: every column rescaled by its minimum and
      range. A constant column would divide by zero. */
  function NormalizeMinMax(t: Table): (r: Result<Table>)
    requires t.Valid()
    ensures r.Err? ==> t.rows != [] && r.error.DegenerateColumn? && r.error.column in t.columns && IsConstant(t, r.error.column)
    ensures r.Ok? ==> r.value.Valid() && r.value.columns == t.columns && |r.value.rows| == |t.rows|
    ensures r.Ok? && t.rows != [] ==>
      r.value == MinMaxScaled(t) && forall c | c in t.columns :: !IsConstant(t, c)
  {
    if t.rows == [] then Ok(t)
    else match FirstConstant(t, t.columns)
      case Some(c) => Err(DegenerateColumn(c))
      case None => Ok(MinMaxScaled(t))
  }

  /** A column has no usable standard deviation: fewer than two values, all
      values equal, or a zero square root. */
  predicate NoSpread(t: Table, c: string, sqrt: real -> real)
    requires t.Valid() && c in t.columns
  {
    !HasSpread(t.Column(c)) || sqrt(SampleVariance(t.Column(c))) == 0.0
  }

  function FirstNoSpread(t: Table, cs: seq<string>, sqrt: real -> real): (r: Option<string>)
    requires t.Valid() && forall c | c in cs :: c in t.columns
    ensures r.Some? ==> r.value in cs && NoSpread(t, r.value, sqrt)
    ensures r.None? ==> forall c | c in cs :: !NoSpread(t, c, sqrt)
  {
    if cs == [] then None
    else if NoSpread(t, cs[0], sqrt) then Some(cs[0])
    else FirstNoSpread(t, cs[1..], sqrt)
  }

  /** `normalize(method='zscore')`: every column shifted by its mean and divided
      by its sample standard deviation. A column with too few values or no
      spread would give NaN. */
  function NormalizeZScore(t: Table, sqrt: real -> real): (r: Result<Table>)
    requires t.Valid()
    ensures r.Err? ==> r.error.DegenerateColumn? && r.error.column in t.columns && NoSpread(t, r.error.column, sqrt)
    ensures r.Ok? ==> r.value.Valid() && r.value.columns == t.columns && |r.value.rows| == |t.rows|
  {
    if t.rows == [] || t.columns == [] then Ok(t)
    else match FirstNoSpread(t, t.columns, sqrt)
      case Some(c) => Err(DegenerateColumn(c))
      case None =>
        assert t.columns[0] in t.columns;
        Ok(ZScoreScaled(t, sqrt))
  }

  /** `normalize`: dispatch on the method name. */
  function Normalize(t: Table, kind: string, sqrt: real -> real): (r: Result<Table>)
    requires t.Valid()
    ensures r == Err(UnsupportedMethod(kind)) <==> kind != "zscore" && kind != "minmax"
    ensures r.Ok? ==> r.value.Valid() && r.value.columns == t.columns && |r.value.rows| == |t.rows|
  {
    if kind == "zscore" then NormalizeZScore(t, sqrt)
    else if kind == "minmax" then NormalizeMinMax(t)
    else Err(UnsupportedMethod(kind))
  }

  /** The value min-max scaling gives one cell. */
  lemma MinMaxValue(t: Table, c: string, i: int)
    requires t.Valid() && c in t.columns && 0 <= i < |t.rows|
    ensures MinMaxScaled(t).rows[i][c] == UnitRescale(t.rows[i][c], Min(t.Column(c)), Max(t.Column(c)))
  {
  }

  /** Min-max scaling of a column that is not constant puts every value in
      [0, 1], sends the column's minimum to 0 and its maximum to 1, and can be
      undone by scaling back. */
  lemma MinMaxCell(t: Table, c: string, i: int)
    requires t.Valid() && c in t.columns && 0 <= i < |t.rows|
    requires !IsConstant(t, c)
    ensures var x, y, lo, hi := t.rows[i][c], MinMaxScaled(t).rows[i][c], Min(t.Column(c)), Max(t.Column(c));
      && lo < hi
      && 0.0 <= y <= 1.0
      && (x == lo ==> y == 0.0)
      && (x == hi ==> y == 1.0)
      && x == Unscale(y, lo, hi)
  {
    var col := t.Column(c);
    assert col[i] == t.rows[i][c];
    MinMaxValue(t, c, i);
    UnitScale(col[i], Min(col), Max(col));
  }

  /** Min-max scaling preserves the order of the values within a column, in
      both directions. */
  lemma MinMaxOrder(t: Table, c: string, i: int, j: int)
    requires t.Valid() && c in t.columns && 0 <= i < |t.rows| && 0 <= j < |t.rows|
    requires !IsConstant(t, c)
    ensures var out := MinMaxScaled(t);
      t.rows[i][c] <= t.rows[j][c] <==> out.rows[i][c] <= out.rows[j][c]
  {
    var col := t.Column(c);
    assert col[i] == t.rows[i][c];
    MinMaxValue(t, c, i);
    MinMaxValue(t, c, j);
    ScaleOrder(t.rows[i][c], t.rows[j][c], Min(col), Max(col));
  }

  /** After min-max scaling a column that is not constant, its smallest value
      is 0 and its largest is 1. */
  lemma MinMaxEndpoints(t: Table, c: string)
    requires t.Valid() && c in t.columns && |t.rows| > 0 && !IsConstant(t, c)
    ensures Min(MinMaxScaled(t).Column(c)) == 0.0
    ensures Max(MinMaxScaled(t).Column(c)) == 1.0
  {
    var out := MinMaxScaled(t);
    var col, ocol := t.Column(c), out.Column(c);
    MinMaxAttained(col);
    MinMaxAttained(ocol);
    var lo :| 0 <= lo < |col| && col[lo] == Min(col);
    var hi :| 0 <= hi < |col| && col[hi] == Max(col);
    MinMaxCell(t, c, lo);
    MinMaxCell(t, c, hi);
    var m :| 0 <= m < |ocol| && ocol[m] == Min(ocol);
    var n :| 0 <= n < |ocol| && ocol[n] == Max(ocol);
    MinMaxCell(t, c, m);
    MinMaxCell(t, c, n);
  }

  // ---------------------------------------------------------------- remove_outliers

  function ZScoreMask(t: Table, threshold: real): seq<bool>
    requires t.Valid()
  {
    seq(|t.rows|, i requires 0 <= i < |t.rows| =>
      forall c | c in t.columns :: AbsZBelow(t.rows[i][c], t.Column(c), threshold))
  }

  /** The two fences of the interquartile rule for a column. */
  function LowerFence(col: seq<real>): real
    requires |col| > 0
  {
    var q1, q3 := Quantile(col, 1, 4), Quantile(col, 3, 4);
    q1 - Whisker * (q3 - q1)
  }

  function UpperFence(col: seq<real>): real
    requires |col| > 0
  {
    var q1, q3 := Quantile(col, 1, 4), Quantile(col, 3, 4);
    q3 + Whisker * (q3 - q1)
  }

  function IqrMask(t: Table): seq<bool>
    requires t.Valid()
  {
    seq(|t.rows|, i requires 0 <= i < |t.rows| =>
      forall c | c in t.columns :: LowerFence(t.Column(c)) <= t.rows[i][c] <= UpperFence(t.Column(c)))
  }

  /** `remove_outliers`: the z-score rule keeps the events whose every |z| is
      below the threshold, the interquartile rule those whose every value lies
      within the fences; any other method name is rejected. */
  function RemoveOutliers(t: Table, kind: string, threshold: real): (r: Result<Table>)
    requires t.Valid()
    ensures r.Err? <==> kind != "zscore" && kind != "iqr"
    ensures r.Err? ==> r.error == UnsupportedMethod(kind)
    ensures kind == "zscore" ==> r.Ok? && r.value.columns == t.columns && Selects(r.value.rows, t.rows, ZScoreMask(t, threshold))
    ensures kind == "iqr" ==> r.Ok? && r.value.columns == t.columns && Selects(r.value.rows, t.rows, IqrMask(t))
  {
    if kind == "zscore" then Ok(t.Filter(ZScoreMask(t, threshold)))
    else if kind == "iqr" then Ok(t.Filter(IqrMask(t)))
    else Err(UnsupportedMethod(kind))
  }

  /** Outlier removal keeps a well-formed selection of the rows and the same columns. */
  lemma RemoveOutliersRows(t: Table, kind: string, threshold: real)
    requires t.Valid() && (kind == "zscore" || kind == "iqr")
    ensures var out := RemoveOutliers(t, kind, threshold).value;
      out.Valid() && out.columns == t.columns && |out.rows| <= |t.rows|
      && forall k | 0 <= k < |out.rows| :: out.rows[k] in t.rows
  {
    var mask := if kind == "zscore" then ZScoreMask(t, threshold) else IqrMask(t);
    FilterRows(t, mask);
  }

  /** Read with an actual standard deviation per column, the z-score rule
      keeps a row exactly when every |x - mean| / sd is below the threshold. */
  lemma ZScoreRowKept(t: Table, threshold: real, i: int, sd: map<string, real>)
    requires t.Valid() && 0 <= i < |t.rows| && |t.rows| >= 2
    requires forall c | c in t.columns :: c in sd && sd[c] > 0.0 && Sq(sd[c]) == SampleVariance(t.Column(c))
    ensures ZScoreMask(t, threshold)[i] <==>
      forall c | c in t.columns :: Abs(t.rows[i][c] - Mean(t.Column(c))) / sd[c] < threshold
  {
    forall c | c in t.columns
      ensures AbsZBelow(t.rows[i][c], t.Column(c), threshold)
          <==> Abs(t.rows[i][c] - Mean(t.Column(c))) / sd[c] < threshold
    {
      ZScoreSquaredForm(t.rows[i][c], t.Column(c), threshold, sd[c]);
    }
  }

  /** A row whose every value lies between its column's first and third
      quartiles is never an interquartile outlier. */
  lemma IqrKeepsCentralRows(t: Table, i: int)
    requires t.Valid() && 0 <= i < |t.rows|
    requires forall c | c in t.columns ::
      Quantile(t.Column(c), 1, 4) <= t.rows[i][c] <= Quantile(t.Column(c), 3, 4)
    ensures IqrMask(t)[i]
  {
    forall c | c in t.columns
      ensures LowerFence(t.Column(c)) <= t.rows[i][c] <= UpperFence(t.Column(c))
    {
      QuantileMonotone(t.Column(c), 1, 3, 4);
    }
  }

  /** With a threshold that is not positive no |z| is below it, so the
      z-score rule drops every row of a table that has a column. */
  lemma ZScoreNonPositiveThreshold(t: Table, threshold: real)
    requires t.Valid() && |t.columns| > 0 && threshold <= 0.0
    ensures RemoveOutliers(t, "zscore", threshold).value.rows == []
  {
    var mask := ZScoreMask(t, threshold);
    forall i | 0 <= i < |mask|
      ensures !mask[i]
    {
      assert t.columns[0] in t.columns;
    }
    KeptNone(mask);
  }

  // ---------------------------------------------------------------- remove_doublets

  /** Height over area. Where the area is zero pandas produces ±inf or NaN.
      None of them is kept: +inf fails the upper bound, and −inf and NaN fail
      the lower one. The model stores 0.0, which fails the lower bound too. */
  function Ratio(height: real, area: real): real
  {
    if area == 0.0 then 0.0 else height / area
  }

  predicate InBand(x: real)
  {
    RatioLower <= x <= RatioUpper
  }

  /** `data[height] / data[area]`, row by row. */
  function Ratios(t: Table, height: string, area: string): (r: seq<real>)
    requires t.Valid() && height in t.columns && area in t.columns
    ensures |r| == |t.rows|
  {
    seq(|t.rows|, i requires 0 <= i < |t.rows| => Ratio(t.rows[i][height], t.rows[i][area]))
  }

  /** The table after `data['FSC_Ratio'] = data['FSC-H'] / data['FSC-A']`. */
  function WithFscRatio(t: Table): (w: Table)
    requires t.Valid() && FscHeight in t.columns && FscArea in t.columns
    ensures w.Valid() && w.ColumnSet() == t.ColumnSet() + {FscRatio} && |w.rows| == |t.rows|
  {
    WithColumnValid(t, FscRatio, Ratios(t, FscHeight, FscArea));
    t.WithColumn(FscRatio, Ratios(t, FscHeight, FscArea))
  }

  /** The table after both ratio columns have been written. */
  function WithRatios(t: Table): (w: Table)
    requires t.Valid() && FscHeight in t.columns && FscArea in t.columns
    requires SscHeight in t.columns && SscArea in t.columns
    ensures w.Valid() && w.ColumnSet() == t.ColumnSet() + {FscRatio, SscRatio} && |w.rows| == |t.rows|
  {
    var w1 := WithFscRatio(t);
    WithColumnValid(w1, SscRatio, Ratios(w1, SscHeight, SscArea));
    w1.WithColumn(SscRatio, Ratios(w1, SscHeight, SscArea))
  }

  /** Which column `remove_doublets` fails on, if any, in the order the code
      looks them up: the height check first, then the two area lookups. The
      height check raises one `KeyError` naming no column; the model names the
      first missing height column there. */
  function DoubletsMissing(t: Table): Option<string>
  {
    if FscHeight !in t.columns then Some(FscHeight)
    else if SscHeight !in t.columns then Some(SscHeight)
    else if FscArea !in t.columns then Some(FscArea)
    else if SscArea !in t.columns then Some(SscArea)
    else None
  }

  /** Each row of the widened table is the input row with the two ratios
      written into it. */
  lemma WithRatiosRow(t: Table, i: int)
    requires t.Valid() && DoubletsMissing(t).None? && 0 <= i < |t.rows|
    ensures WithRatios(t).rows[i] == t.rows[i]
      [FscRatio := Ratio(t.rows[i][FscHeight], t.rows[i][FscArea])]
      [SscRatio := Ratio(t.rows[i][SscHeight], t.rows[i][SscArea])]
  {
    var w1 := WithFscRatio(t);
    assert w1.rows[i] == t.rows[i][FscRatio := Ratios(t, FscHeight, FscArea)[i]];
    assert w1.rows[i][SscHeight] == t.rows[i][SscHeight];
    assert w1.rows[i][SscArea] == t.rows[i][SscArea];
  }

  function DoubletMask(w: Table): seq<bool>
    requires w.Valid() && FscRatio in w.columns && SscRatio in w.columns
  {
    seq(|w.rows|, i requires 0 <= i < |w.rows| => InBand(w.rows[i][FscRatio]) && InBand(w.rows[i][SscRatio]))
  }

  /** The value `remove_doublets` returns: the in-band events, without the
      ratio columns. */
  function Doublets(t: Table): (r: Result<Table>)
    requires t.Valid()
    ensures r.Err? <==> DoubletsMissing(t).Some?
    ensures r.Err? ==> r.error == MissingColumn(DoubletsMissing(t).value)
    ensures r.Ok? ==> r.value.Valid() && r.value.ColumnSet() == t.ColumnSet() - {FscRatio, SscRatio}
  {
    match DoubletsMissing(t)
      case Some(c) => Err(MissingColumn(c))
      case None =>
        var w := WithRatios(t);
        FilterValid(w, DoubletMask(w));
        DropColumnsValid(w.Filter(DoubletMask(w)), {FscRatio, SscRatio});
        Ok(w.Filter(DoubletMask(w)).DropColumns({FscRatio, SscRatio}))
  }

  /** The caller's table after `remove_doublets` returns or raises: the ratio
      columns written before the point of failure stay behind. */
  function DoubletsSideEffect(t: Table): (after: Table)
    requires t.Valid()
    ensures after.Valid()
  {
    if FscHeight !in t.columns || SscHeight !in t.columns || FscArea !in t.columns then t
    else if SscArea !in t.columns then WithFscRatio(t)
    else WithRatios(t)
  }

  /** `remove_doublets`, on the caller's frame: writes the two ratio columns
      into it, then returns the in-band events without the ratio columns. */
  method RemoveDoublets(data: Frame) returns (r: Result<Table>)
    requires data.Value().Valid()
    modifies data
    ensures r == Doublets(old(data.Value()))
    ensures data.Value() == DoubletsSideEffect(old(data.Value()))
  {
    if FscHeight !in data.columns || SscHeight !in data.columns {
      return Err(MissingColumn(if FscHeight !in data.columns then FscHeight else SscHeight));
    }
    if FscArea !in data.columns {
      return Err(MissingColumn(FscArea));
    }
    ghost var t := data.Value();
    data.SetColumn(FscRatio, Ratios(data.Value(), FscHeight, FscArea));
    assert data.Value() == WithFscRatio(t);
    if SscArea !in data.columns {
      return Err(MissingColumn(SscArea));
    }
    data.SetColumn(SscRatio, Ratios(data.Value(), SscHeight, SscArea));
    assert data.Value() == WithRatios(t);
    var w := data.Value();
    r := Ok(w.Filter(DoubletMask(w)).DropColumns({FscRatio, SscRatio}));
  }

  /** Whether `remove_doublets` keeps an event, judged on the input columns:
      both height-to-area ratios within [0.8, 1.2], bounds included. An event
      with a zero area is never kept. */
  predicate KeepsEvent(row: Row)
    requires FscHeight in row && FscArea in row && SscHeight in row && SscArea in row
    ensures KeepsEvent(row) ==> row[FscArea] != 0.0 && row[SscArea] != 0.0
  {
    InBand(Ratio(row[FscHeight], row[FscArea])) && InBand(Ratio(row[SscHeight], row[SscArea]))
  }

  function DoubletKeep(t: Table): seq<bool>
    requires t.Valid() && DoubletsMissing(t).None?
  {
    seq(|t.rows|, i requires 0 <= i < |t.rows| => KeepsEvent(t.rows[i]))
  }

  /** The mask over the widened table is the per-event judgement on the input. */
  lemma DoubletMaskIsKeep(t: Table)
    requires t.Valid() && DoubletsMissing(t).None?
    ensures DoubletMask(WithRatios(t)) == DoubletKeep(t)
  {
    var w := WithRatios(t);
    forall i | 0 <= i < |t.rows|
      ensures DoubletMask(w)[i] == DoubletKeep(t)[i]
    {
      WithRatiosRow(t, i);
    }
  }

  /** Removing the two ratio keys undoes writing them. */
  lemma DropWritten(m: Row, x: real, y: real)
    ensures m[FscRatio := x][SscRatio := y] - {FscRatio, SscRatio} == m - {FscRatio, SscRatio}
  {
  }

  /** `remove_doublets` returns exactly the events it keeps, in order, each
      without the ratio columns. */
  lemma DoubletsRows(t: Table)
    requires t.Valid() && DoubletsMissing(t).None?
    ensures Doublets(t).Ok?
    ensures |Doublets(t).value.rows| == |Kept(DoubletKeep(t))| <= |t.rows|
    ensures forall k | 0 <= k < |Doublets(t).value.rows| ::
      Doublets(t).value.rows[k] == t.rows[Kept(DoubletKeep(t))[k]] - {FscRatio, SscRatio}
  {
    var w := WithRatios(t);
    var mask := DoubletMask(w);
    DoubletMaskIsKeep(t);
    KeptLength(mask);
    var kept := w.Filter(mask);
    var out := Doublets(t).value;
    assert out == kept.DropColumns({FscRatio, SscRatio});
    forall k | 0 <= k < |out.rows|
      ensures out.rows[k] == t.rows[Kept(mask)[k]] - {FscRatio, SscRatio}
    {
      var i := Kept(mask)[k];
      assert kept.rows[k] == w.rows[i];
      WithRatiosRow(t, i);
      DropWritten(t.rows[i], Ratio(t.rows[i][FscHeight], t.rows[i][FscArea]), Ratio(t.rows[i][SscHeight], t.rows[i][SscArea]));
    }
  }

  /** When every column is present, the caller's table gains the two ratio
      columns, with the ratios as values, and keeps everything else. */
  lemma DoubletsSideEffectRows(t: Table)
    requires t.Valid() && DoubletsMissing(t).None?
    ensures DoubletsSideEffect(t).ColumnSet() == t.ColumnSet() + {FscRatio, SscRatio}
    ensures |DoubletsSideEffect(t).rows| == |t.rows|
    ensures forall i | 0 <= i < |t.rows| :: DoubletsSideEffect(t).rows[i] == t.rows[i]
      [FscRatio := Ratio(t.rows[i][FscHeight], t.rows[i][FscArea])]
      [SscRatio := Ratio(t.rows[i][SscHeight], t.rows[i][SscArea])]
  {
    forall i | 0 <= i < |t.rows|
      ensures DoubletsSideEffect(t).rows[i] == t.rows[i]
        [FscRatio := Ratio(t.rows[i][FscHeight], t.rows[i][FscArea])]
        [SscRatio := Ratio(t.rows[i][SscHeight], t.rows[i][SscArea])]
    {
      WithRatiosRow(t, i);
    }
  }

  // ---------------------------------------------------------------- preprocess_pipeline

  /** One entry of the step list: the function to call and its keyword
      arguments, `None` standing for an argument the step leaves out. */
  datatype Step =
    | DebrisRemovalStep(fscThreshold: Option<real>, sscThreshold: Option<real>)
    | RemoveDeadStep(threshold: Option<real>)
    | NormalizeStep(kind: Option<string>)
    | RemoveOutliersStep(kind: Option<string>, threshold: Option<real>)
    | RemoveDoubletsStep

  /** `func(data, **kwargs)` for one step, the defaults filled in where the
      step leaves an argument out. */
  function RunStep(t: ValidTable, step: Step, sqrt: real -> real): (r: Result<ValidTable>)
    ensures r.Ok? ==> r.value.ColumnSet() <= t.ColumnSet() && |r.value.rows| <= |t.rows|
  {
    match step
      case DebrisRemovalStep(fsc, ssc) =>
        var r := DebrisRemoval(t, fsc.GetOr(DefaultScatterThreshold), ssc.GetOr(DefaultScatterThreshold));
        if r.Ok? then FilterRows(t, DebrisMask(t, fsc.GetOr(DefaultScatterThreshold), ssc.GetOr(DefaultScatterThreshold))); r else r
      case RemoveDeadStep(threshold) =>
        var r := RemoveDead(t, threshold.GetOr(DefaultViabilityThreshold));
        if r.Ok? then FilterRows(t, DeadMask(t, threshold.GetOr(DefaultViabilityThreshold))); r else r
      case NormalizeStep(kind) => Normalize(t, kind.GetOr("zscore"), sqrt)
      case RemoveOutliersStep(kind, threshold) =>
        var m, thr := kind.GetOr("zscore"), threshold.GetOr(DefaultZThreshold);
        if m == "zscore" || m == "iqr" then RemoveOutliersRows(t, m, thr); RemoveOutliers(t, m, thr)
        else RemoveOutliers(t, m, thr)
      case RemoveDoubletsStep =>
        var r := Doublets(t);
        if r.Ok? then DoubletsRows(t); r else r
  }

  /** `RunStep` as a value, for `Chain`. */
  function Runner(sqrt: real -> real): (ValidTable, Step) -> Result<ValidTable>
  {
    (t: ValidTable, step: Step) => RunStep(t, step, sqrt)
  }

  /** The result of `preprocess_pipeline`: the steps run in order, each on the
      previous step's output, the first error ending the run. */
  function RunSteps(t: ValidTable, steps: seq<Step>, sqrt: real -> real): Result<ValidTable>
  {
    Chain(t, steps, Runner(sqrt))
  }

  /** No step adds rows or columns, so neither does the pipeline. */
  lemma RunStepsShrink(t: ValidTable, steps: seq<Step>, sqrt: real -> real)
    ensures RunSteps(t, steps, sqrt).Ok? ==>
      RunSteps(t, steps, sqrt).value.ColumnSet() <= t.ColumnSet()
      && |RunSteps(t, steps, sqrt).value.rows| <= |t.rows|
  {
    var inv := (u: ValidTable) => u.ColumnSet() <= t.ColumnSet() && |u.rows| <= |t.rows|;
    forall u, s | inv(u) && Runner(sqrt)(u, s).Ok?
      ensures inv(Runner(sqrt)(u, s).value)
    {
      assert Runner(sqrt)(u, s) == RunStep(u, s, sqrt);
    }
    ChainPreserves(t, steps, Runner(sqrt), inv);
  }

  /** A debris-removal step without keyword arguments uses 500 for both
      scatter thresholds. */
  lemma DebrisStepDefaults(t: ValidTable, sqrt: real -> real)
    ensures RunStep(t, DebrisRemovalStep(None, None), sqrt)
         == RunStep(t, DebrisRemovalStep(Some(500.0), Some(500.0)), sqrt)
  {
  }

  /** A dead-cell step without keyword arguments uses 1500 as threshold. */
  lemma DeadStepDefaults(t: ValidTable, sqrt: real -> real)
    ensures RunStep(t, RemoveDeadStep(None), sqrt) == RunStep(t, RemoveDeadStep(Some(1500.0)), sqrt)
  {
  }

  /** A normalisation step without keyword arguments uses `zscore`. */
  lemma NormalizeStepDefaults(t: ValidTable, sqrt: real -> real)
    ensures RunStep(t, NormalizeStep(None), sqrt) == RunStep(t, NormalizeStep(Some("zscore")), sqrt)
  {
  }

  /** An outlier step without keyword arguments uses `zscore` with
      threshold 3. */
  lemma OutliersStepDefaults(t: ValidTable, sqrt: real -> real)
    ensures RunStep(t, RemoveOutliersStep(None, None), sqrt)
         == RunStep(t, RemoveOutliersStep(Some("zscore"), Some(3.0)), sqrt)
  {
  }

  /** What the caller's table looks like after the pipeline: only a first
      step can reach it, and only `remove_doublets` writes into it. */
  function CallerAfter(t: Table, steps: seq<Step>): Table
    requires t.Valid()
  {
    if steps != [] && steps[0].RemoveDoubletsStep? then DoubletsSideEffect(t) else t
  }

  /** One step on a frame; only `remove_doublets` changes the frame it is given. */
  method ApplyStep(frame: Frame, step: Step, sqrt: real -> real) returns (r: Result<ValidTable>)
    requires frame.Value().Valid()
    modifies frame
    ensures r == RunStep(old(frame.Value()), step, sqrt)
    ensures frame.Value() == if step.RemoveDoubletsStep? then DoubletsSideEffect(old(frame.Value())) else old(frame.Value())
  {
    if step.RemoveDoubletsStep? {
      var d := RemoveDoublets(frame);
      if d.Ok? {
        DoubletsRows(old(frame.Value()));
      }
      r := d;
    } else {
      r := RunStep(frame.Value(), step, sqrt);
    }
  }

  /** `preprocess_pipeline`: rebinds `data` to each step's result in turn. With
      no steps it returns the caller's own frame. Only the first step sees the
      caller's frame; every later step gets the fresh result of the one before,
      which nothing else holds, so those steps run on table values. */
  method PreprocessPipeline(data: Frame, steps: seq<Step>, sqrt: real -> real) returns (r: Result<Frame>)
    requires data.Value().Valid()
    modifies data
    ensures r.Ok? <==> RunSteps(old(data.Value()), steps, sqrt).Ok?
    ensures r.Ok? ==> r.value.Value() == RunSteps(old(data.Value()), steps, sqrt).value
    ensures r.Err? ==> r.error == RunSteps(old(data.Value()), steps, sqrt).error
    ensures steps == [] ==> r == Ok(data)
    ensures steps != [] && r.Ok? ==> fresh(r.value)
    ensures data.Value() == CallerAfter(old(data.Value()), steps)
  {
    if steps == [] {
      return Ok(data);
    }
    var first := ApplyStep(data, steps[0], sqrt);
    assert Runner(sqrt)(old(data.Value()), steps[0]) == first;
    if first.Err? {
      return Err(first.error);
    }
    var rest := RunChain(first.value, steps[1..], Runner(sqrt));
    if rest.Err? {
      return Err(rest.error);
    }
    var out := new Frame(rest.value);
    return Ok(out);
  }

  // ---------------------------------------------------------------- arithmetic

  lemma UnitScale(x: real, lo: real, hi: real)
    requires lo <= x <= hi && lo != hi
    ensures lo < hi
    ensures 0.0 <= UnitRescale(x, lo, hi) <= 1.0
    ensures x == lo ==> UnitRescale(x, lo, hi) == 0.0
    ensures x == hi ==> UnitRescale(x, lo, hi) == 1.0
    ensures x == Unscale(UnitRescale(x, lo, hi), lo, hi)
  {
    var d := hi - lo;
    var y := (x - lo) / d;
    assert y * d == x - lo;
    DivBounds(x - lo, d, 0.0, 1.0);
    Whole(d);
  }

  lemma ScaleOrder(x: real, y: real, lo: real, hi: real)
    requires lo < hi
    ensures x <= y <==> UnitRescale(x, lo, hi) <= UnitRescale(y, lo, hi)
  {
    var d := hi - lo;
    var a, b := (x - lo) / d, (y - lo) / d;
    assert a * d == x - lo && b * d == y - lo;
    if a <= b {
      MulLe(a, b, d);
      assert d * a == a * d && d * b == b * d;
    } else {
      MulLt(b, a, d);
      assert d * a == a * d && d * b == b * d;
    }
  }
}
