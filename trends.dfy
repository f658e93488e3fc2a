/** The trend engine of the data agent. Its input maps each year to that
    year's data frame; the engine keeps the columns present in every year,
    takes each column's yearly means along the sorted years, fits a line
    through them and reports the columns whose slope is significant
    (`find_significant_trends`), or simply returns the yearly series of
    every common column whose yearly means all exist (`calculate_animal_trends`). The column means and the
    least-squares fit are library work and enter the model as given
    functions. */
module Trends {
  import opened Wrappers

  /** Years are the names of the per-year folders, so they are strings. */
  type Year = string
  type Column = string

  /** A Python float as the trend code sees it: a number or NaN (the mean of
      a column with no values, and any fit through such a mean). */
  datatype Float = Num(v: real) | NaN

  /** `x > bound` in Python: false when `x` is NaN. */
  predicate Above(x: Float, bound: real) {
    x.Num? && x.v > bound
  }

  /** `x < bound` in Python: false when `x` is NaN. */
  predicate Below(x: Float, bound: real) {
    x.Num? && x.v < bound
  }

  function Abs(x: Float): (y: Float)
    ensures y.NaN? <==> x.NaN?
    ensures y.Num? ==> y.v >= 0.0 && (y.v == x.v || y.v == -x.v)
  {
    match x
    case NaN => NaN
    case Num(v) => Num(if v < 0.0 then -v else v)
  }

  function Negate(x: Float): Float {
    match x
    case NaN => NaN
    case Num(v) => Num(-v)
  }

  /** `x ** 2`, without the rounding of floating point. */
  function Square(x: Float): (y: Float)
    ensures y.NaN? <==> x.NaN?
    ensures y.Num? ==> y.v >= 0.0
  {
    match x
    case NaN => NaN
    case Num(v) => Num(v * v)
  }

  /** One year's data frame: its column labels and, for a column, the mean
      that pandas' `.mean()` returns for it, or `None` when that call raises.
      The CSV loader coerces text columns to floats, unparsable cells to NaN,
      so on its frames a text column has a NaN mean; the call raises on a
      column of text only in a frame the loader did not build. */
  datatype Frame = Frame(columns: seq<Column>, mean: Column -> Option<Float>)

  /** What `stats.linregress` returns (the standard error is never used). */
  datatype Fit = Fit(slope: Float, intercept: Float, r: Float, p: Float)

  /** One entry of the significant-trend report. */
  datatype Trend = Trend(direction: string, pValue: Float, rSquared: Float,
                         slope: Float, intercept: Float, description: string)

  /** One entry of the series report: the years and the mean for each. */
  datatype Series = Series(years: seq<Year>, values: seq<Float>)

  /** The call raises: with no year at all, `years[0]` does not exist. */
  datatype Error = NoYears

  // ---------------------------------------------------------------------
  // The time axis: `sorted(all_data.keys())`

  /** Python's order on strings: lexicographic by code point, a proper
      prefix first. */
  predicate Precedes(a: string, b: string) {
    if a == [] then b != []
    else b != [] && (a[0] < b[0] || (a[0] == b[0] && Precedes(a[1..], b[1..])))
  }

  lemma {:induction false} PrecedesIrreflexive(a: string)
    ensures !Precedes(a, a)
  {
    if a != [] {
      PrecedesIrreflexive(a[1..]);
    }
  }

  lemma {:induction false} PrecedesTransitive(a: string, b: string, c: string)
    requires Precedes(a, b) && Precedes(b, c)
    ensures Precedes(a, c)
  {
    if a != [] && a[0] == b[0] && b[0] == c[0] {
      PrecedesTransitive(a[1..], b[1..], c[1..]);
    }
  }

  lemma {:induction false} PrecedesTotal(a: string, b: string)
    ensures a == b || Precedes(a, b) || Precedes(b, a)
  {
    if a != [] && b != [] && a[0] == b[0] {
      PrecedesTotal(a[1..], b[1..]);
      if a[1..] == b[1..] {
        assert a == [a[0]] + a[1..] && b == [b[0]] + b[1..];
      }
    }
  }

  predicate Ascending(ys: seq<Year>) {
    forall i, j :: 0 <= i < j < |ys| ==> Precedes(ys[i], ys[j])
  }

  predicate IsEarliest(y: Year, keys: set<Year>) {
    y in keys && forall z :: z in keys ==> !Precedes(z, y)
  }

  lemma {:induction false} EarliestExists(keys: set<Year>)
    requires keys != {}
    ensures exists y :: IsEarliest(y, keys)
    decreases keys
  {
    var x :| x in keys;
    PrecedesIrreflexive(x);
    var rest := keys - {x};
    if rest != {} {
      EarliestExists(rest);
      var m :| IsEarliest(m, rest);
      if Precedes(x, m) {
        forall z | z in rest ensures !Precedes(z, x) {
          if Precedes(z, x) {
            PrecedesTransitive(z, x, m);
          }
        }
        assert IsEarliest(x, keys);
      } else {
        assert IsEarliest(m, keys);
      }
    } else {
      assert keys == {x};
      assert IsEarliest(x, keys);
    }
  }

  lemma {:induction false} EarliestUnique(keys: set<Year>)
    ensures forall a, b :: IsEarliest(a, keys) && IsEarliest(b, keys) ==> a == b
  {
    forall a, b | IsEarliest(a, keys) && IsEarliest(b, keys) ensures a == b {
      PrecedesTotal(a, b);
    }
  }

  /** `sorted(keys)`: every key once, in ascending order (see `SortedYearsAscending`). */
  function SortedYears(keys: set<Year>): (ys: seq<Year>)
    ensures forall y :: y in ys <==> y in keys
    ensures |ys| == |keys|
    decreases keys
  {
    if keys == {} then []
    else
      EarliestExists(keys);
      EarliestUnique(keys);
      var y :| IsEarliest(y, keys);
      [y] + SortedYears(keys - {y})
  }

  /** The sorted years are in ascending order. */
  lemma {:induction false} SortedYearsAscending(keys: set<Year>)
    ensures Ascending(SortedYears(keys))
    decreases keys
  {
    if keys != {} {
      EarliestExists(keys);
      EarliestUnique(keys);
      var y :| IsEarliest(y, keys);
      var rest := SortedYears(keys - {y});
      SortedYearsAscending(keys - {y});
      assert SortedYears(keys) == [y] + rest;
      forall z | z in rest ensures Precedes(y, z) {
        PrecedesTotal(y, z);
      }
    }
  }

  lemma {:induction false} PrecedesAsymmetric(a: string, b: string)
    requires Precedes(a, b)
    ensures !Precedes(b, a)
  {
    if Precedes(b, a) {
      PrecedesTransitive(a, b, a);
      PrecedesIrreflexive(a);
    }
  }

  /** The head of an ascending list is the earliest of its elements. */
  lemma {:induction false} AscendingHeadEarliest(ys: seq<Year>, keys: set<Year>)
    requires Ascending(ys) && ys != [] && forall y :: y in ys <==> y in keys
    ensures IsEarliest(ys[0], keys)
  {
    forall z | z in keys ensures !Precedes(z, ys[0]) {
      var k :| 0 <= k < |ys| && ys[k] == z;
      if k == 0 {
        PrecedesIrreflexive(z);
      } else {
        PrecedesAsymmetric(ys[0], z);
      }
    }
  }

  /** Dropping the head of an ascending list of the keys leaves an ascending
      list of the other keys. */
  lemma {:induction false} AscendingTail(ys: seq<Year>, keys: set<Year>)
    requires Ascending(ys) && ys != [] && forall y :: y in ys <==> y in keys
    ensures Ascending(ys[1..])
    ensures forall y :: y in ys[1..] <==> y in keys - {ys[0]}
  {
    forall y ensures y in ys[1..] <==> y in keys - {ys[0]} {
      if y in ys[1..] {
        var k :| 1 <= k < |ys| && ys[k] == y;
        assert Precedes(ys[0], ys[k]);
        PrecedesIrreflexive(y);
      }
    }
  }

  /** The sorted list starts with the earliest key and continues with the
      sorted list of the others. */
  lemma {:induction false} SortedYearsUnfold(keys: set<Year>, y: Year)
    requires IsEarliest(y, keys)
    ensures SortedYears(keys) == [y] + SortedYears(keys - {y})
  {
    EarliestUnique(keys);
  }

  /** An ascending list of the keys is the sorted list: there is only one. */
  lemma {:induction false} AscendingIsSorted(ys: seq<Year>, keys: set<Year>)
    requires Ascending(ys) && forall y :: y in ys <==> y in keys
    ensures ys == SortedYears(keys)
    decreases |ys|
  {
    if ys != [] {
      AscendingHeadEarliest(ys, keys);
      AscendingTail(ys, keys);
      AscendingIsSorted(ys[1..], keys - {ys[0]});
      SortedYearsUnfold(keys, ys[0]);
      assert ys == [ys[0]] + ys[1..];
    } else {
      assert keys == {};
    }
  }

  // ---------------------------------------------------------------------
  // The columns common to every year

  function ColumnSet(f: Frame): (cs: set<Column>)
    ensures forall c :: c in cs <==> c in f.columns
  {
    set c | c in f.columns
  }

  /** `c` is a column of every year's frame. */
  ghost predicate InEveryYear(data: map<Year, Frame>, c: Column) {
    forall y :: y in data ==> c in data[y].columns
  }

  /** The set the source builds: the first year's columns, intersected in
      turn with each later year's. */
  function Intersection(data: map<Year, Frame>, ys: seq<Year>): set<Column>
    requires |ys| > 0 && forall i :: 0 <= i < |ys| ==> ys[i] in data
    decreases |ys|
  {
    if |ys| == 1 then ColumnSet(data[ys[0]])
    else
      var front := ys[..|ys| - 1];
      assert forall i :: 0 <= i < |front| ==> front[i] == ys[i];
      Intersection(data, front) * ColumnSet(data[ys[|ys| - 1]])
  }

  /** A column is in the intersection exactly when every listed year has it. */
  lemma {:induction false} IntersectionMembers(data: map<Year, Frame>, ys: seq<Year>, c: Column)
    requires |ys| > 0 && forall i :: 0 <= i < |ys| ==> ys[i] in data
    ensures c in Intersection(data, ys) <==> forall i :: 0 <= i < |ys| ==> c in data[ys[i]].columns
    decreases |ys|
  {
    if |ys| > 1 {
      var front := ys[..|ys| - 1];
      assert forall i :: 0 <= i < |front| ==> front[i] == ys[i];
      IntersectionMembers(data, front, c);
    }
  }

  /** Intersecting in any order, or with a year repeated, gives the same set. */
  lemma {:induction false} IntersectionOrderFree(data: map<Year, Frame>, ys: seq<Year>, zs: seq<Year>)
    requires |ys| > 0 && forall i :: 0 <= i < |ys| ==> ys[i] in data
    requires |zs| > 0 && forall i :: 0 <= i < |zs| ==> zs[i] in data
    requires forall y :: y in ys <==> y in zs
    ensures Intersection(data, ys) == Intersection(data, zs)
  {
    forall c ensures c in Intersection(data, ys) <==> c in Intersection(data, zs) {
      IntersectionMembers(data, ys, c);
      IntersectionMembers(data, zs, c);
      if c in Intersection(data, ys) {
        forall i | 0 <= i < |zs| ensures c in data[zs[i]].columns {
          assert zs[i] in ys;
          var j :| 0 <= j < |ys| && ys[j] == zs[i];
        }
      }
      if c in Intersection(data, zs) {
        forall i | 0 <= i < |ys| ensures c in data[ys[i]].columns {
          assert ys[i] in zs;
          var j :| 0 <= j < |zs| && zs[j] == ys[i];
        }
      }
    }
  }

  /** Over all the years, the intersection holds exactly the columns present in every year. */
  lemma {:induction false} IntersectionIsEveryYear(data: map<Year, Frame>, ys: seq<Year>, c: Column)
    requires |ys| > 0 && forall y :: y in ys <==> y in data
    ensures c in Intersection(data, ys) <==> InEveryYear(data, c)
  {
    assert forall i :: 0 <= i < |ys| ==> ys[i] in data;
    IntersectionMembers(data, ys, c);
    if c in Intersection(data, ys) {
      forall y | y in data ensures c in data[y].columns {
        var j :| 0 <= j < |ys| && ys[j] == y;
      }
    }
  }

  /** Over the sorted years, the intersection holds exactly the columns present in every year. */
  lemma {:induction false} CommonIsEveryYear(data: map<Year, Frame>)
    requires data != map[]
    ensures forall c :: c in Intersection(data, SortedYears(data.Keys)) <==> InEveryYear(data, c)
  {
    var ys := SortedYears(data.Keys);
    forall c ensures c in Intersection(data, ys) <==> InEveryYear(data, c) {
      IntersectionIsEveryYear(data, ys, c);
    }
  }

  /** The loop of the source that builds the common-column set. */
  method CommonColumns(data: map<Year, Frame>, years: seq<Year>) returns (common: set<Column>)
    requires |years| > 0 && forall i :: 0 <= i < |years| ==> years[i] in data
    ensures common == Intersection(data, years)
  {
    common := ColumnSet(data[years[0]]);
    for i := 1 to |years|
      invariant common == Intersection(data, years[..i])
    {
      assert years[..i + 1][..i] == years[..i];
      common := common * ColumnSet(data[years[i]]);
    }
    assert years[..|years|] == years;
  }

  // ---------------------------------------------------------------------
  // Means along the time axis

  /** `[all_data[year][c].mean() for year in years]`; `None` when one of the
      means raises. */
  function ColumnMeans(data: map<Year, Frame>, years: seq<Year>, c: Column): (r: Option<seq<Float>>)
    requires forall i :: 0 <= i < |years| ==> years[i] in data
    ensures r.Some? ==> |r.value| == |years|
    decreases |years|
  {
    if |years| == 0 then Some([])
    else
      var rest := ColumnMeans(data, years[1..], c);
      match data[years[0]].mean(c)
      case None => None
      case Some(m) =>
        if rest.None? then None else Some([m] + rest.value)
  }

  /** The means exist exactly when every year's mean exists, and then they
      are those means, year by year, in the order of `years`. */
  lemma {:induction false} ColumnMeansAligned(data: map<Year, Frame>, years: seq<Year>, c: Column)
    requires forall i :: 0 <= i < |years| ==> years[i] in data
    ensures var r := ColumnMeans(data, years, c);
      && (r.Some? <==> forall i :: 0 <= i < |years| ==> data[years[i]].mean(c).Some?)
      && (r.Some? ==> |r.value| == |years|)
      && (r.Some? ==> forall i :: 0 <= i < |years| ==> r.value[i] == data[years[i]].mean(c).value)
    decreases |years|
  {
    if |years| > 0 {
      ColumnMeansAligned(data, years[1..], c);
      assert forall i :: 1 <= i < |years| ==> years[1..][i - 1] == years[i];
    }
  }

  // ---------------------------------------------------------------------
  // Reading a fit

  /** "creciente" when the slope is positive; a zero or NaN slope reads as "decreciente". */
  function Direction(slope: Float): (d: string)
    ensures d == "creciente" <==> Above(slope, 0.0)
    ensures d == "decreciente" <==> !Above(slope, 0.0)
  {
    if Above(slope, 0.0) then "creciente" else "decreciente"
  }

  /** How well the line fits: above 0.7 strong, above 0.5 moderate, else weak. */
  function Strength(rSquared: Float): (s: string)
    ensures s == "fuerte" <==> Above(rSquared, 0.7)
    ensures s == "moderada" <==> !Above(rSquared, 0.7) && Above(rSquared, 0.5)
    ensures s == "débil" <==> !Above(rSquared, 0.5)
  {
    if Above(rSquared, 0.7) then "fuerte"
    else if Above(rSquared, 0.5) then "moderada"
    else "débil"
  }

  /** How steep the line is: above 1 fast, above 0.5 moderate, else slow. */
  function Speed(slope: Float): (s: string)
    ensures s == "rápida" <==> Above(Abs(slope), 1.0)
    ensures s == "moderada" <==> !Above(Abs(slope), 1.0) && Above(Abs(slope), 0.5)
    ensures s == "lenta" <==> !Above(Abs(slope), 0.5)
  {
    if Above(Abs(slope), 1.0) then "rápida"
    else if Above(Abs(slope), 0.5) then "moderada"
    else "lenta"
  }

  /** `DataAgent.describe_trend`. */
  function DescribeTrend(slope: Float, rSquared: Float): (d: string)
    ensures |d| == 13 + |Strength(rSquared)| + |Speed(slope)|
  {
    "Tendencia " + Strength(rSquared) + " y " + Speed(slope)
  }

  /** The description reads `Tendencia <strength> y <speed>`: the strength
      band right after the prefix, `" y "`, and the speed band at the end. */
  lemma {:induction false} DescriptionLayout(slope: Float, rSquared: Float)
    ensures var d := DescribeTrend(slope, rSquared);
      && |d| == 13 + |Strength(rSquared)| + |Speed(slope)|
      && d[..10] == "Tendencia "
      && d[10..10 + |Strength(rSquared)|] == Strength(rSquared)
      && d[10 + |Strength(rSquared)|..13 + |Strength(rSquared)|] == " y "
      && d[|d| - |Speed(slope)|..] == Speed(slope)
  {
  }

  /** The description depends on the size of the slope only, not on its sign. */
  lemma {:induction false} DescriptionIgnoresSign(slope: Float, rSquared: Float)
    ensures DescribeTrend(Negate(slope), rSquared) == DescribeTrend(slope, rSquared)
  {
    assert Abs(Negate(slope)) == Abs(slope);
  }

  /** Two descriptions are equal exactly when they name the same strength and
      the same speed: the text can be read back into both bands. */
  lemma {:induction false} DescriptionNamesBands(s1: Float, r1: Float, s2: Float, r2: Float)
    ensures DescribeTrend(s1, r1) == DescribeTrend(s2, r2)
      <==> Strength(r1) == Strength(r2) && Speed(s1) == Speed(s2)
  {
    var d1, d2 := DescribeTrend(s1, r1), DescribeTrend(s2, r2);
    if d1 == d2 {
      // the strength words start with different letters, and so do the speed words
      assert d1[10] == Strength(r1)[0] && d2[10] == Strength(r2)[0];
      assert Strength(r1) == Strength(r2);
      var k := 10 + |Strength(r1)| + 3;
      assert d1[k] == Speed(s1)[0] && d2[k] == Speed(s2)[0];
      assert d1[k..] == Speed(s1) && d2[k..] == Speed(s2);
    }
  }

  /** The significance gate: strictly below 0.05; a NaN p-value never passes. */
  predicate Significant(fit: Option<Fit>) {
    fit.Some? && Below(fit.value.p, 0.05)
  }

  /** The gate is strict: a p-value of exactly 0.05 is rejected. */
  lemma {:induction false} GateIsStrict(slope: Float, intercept: Float, r: Float)
    ensures !Significant(Some(Fit(slope, intercept, r, Num(0.05))))
    ensures !Significant(Some(Fit(slope, intercept, r, NaN)))
  {
  }

  /** The record `find_significant_trends` stores for a significant column. */
  function TrendFrom(f: Fit): (t: Trend)
    ensures t.direction == "creciente" <==> Above(f.slope, 0.0)
    ensures t.direction == Direction(f.slope)
    ensures t.pValue == f.p && t.slope == f.slope && t.intercept == f.intercept
    ensures t.rSquared == Square(f.r)
    ensures t.description == DescribeTrend(f.slope, t.rSquared)
  {
    var r2 := Square(f.r);
    Trend(Direction(f.slope), f.p, r2, f.slope, f.intercept, DescribeTrend(f.slope, r2))
  }

  /** The fit of column `c` through its yearly means, or `None` when a mean
      or the fit raises. The x values are the year indices `0 .. n-1`, so
      `regress` sees only the means. */
  function FitFor(data: map<Year, Frame>, years: seq<Year>, regress: seq<Float> -> Option<Fit>, c: Column): (r: Option<Fit>)
    requires forall i :: 0 <= i < |years| ==> years[i] in data
    ensures r.Some? ==> ColumnMeans(data, years, c).Some?
  {
    match ColumnMeans(data, years, c)
    case None => None
    case Some(values) => regress(values)
  }

  // ---------------------------------------------------------------------
  // The two reports

  /** What the trend loop holds once it has visited the columns in `done`:
      the significant ones among them, each with the record built from its fit. */
  ghost predicate TrendsOf(data: map<Year, Frame>, years: seq<Year>, regress: seq<Float> -> Option<Fit>,
                           done: set<Column>, trends: map<Column, Trend>)
    requires forall i :: 0 <= i < |years| ==> years[i] in data
  {
    && (forall c :: c in trends <==> c in done && Significant(FitFor(data, years, regress, c)))
    && (forall c :: c in trends ==> trends[c] == TrendFrom(FitFor(data, years, regress, c).value))
  }

  /** Visiting one more column adds it exactly when its fit is significant. */
  lemma {:induction false} TrendStep(data: map<Year, Frame>, years: seq<Year>, regress: seq<Float> -> Option<Fit>,
                                     done: set<Column>, trends: map<Column, Trend>, c: Column)
    requires forall i :: 0 <= i < |years| ==> years[i] in data
    requires TrendsOf(data, years, regress, done, trends)
    ensures var fit := FitFor(data, years, regress, c);
      TrendsOf(data, years, regress, done + {c},
               if Significant(fit) then trends[c := TrendFrom(fit.value)] else trends)
  {
    var fit := FitFor(data, years, regress, c);
    var next := if Significant(fit) then trends[c := TrendFrom(fit.value)] else trends;
    forall d ensures d in next <==> d in done + {c} && Significant(FitFor(data, years, regress, d)) {
    }
    forall d | d in next ensures next[d] == TrendFrom(FitFor(data, years, regress, d).value) {
      if d != c {
        assert d in trends;
      }
    }
  }

  /** After visiting every common column, the report holds exactly the
      columns present in every year whose fit is significant. */
  lemma {:induction false} TrendsReport(data: map<Year, Frame>, regress: seq<Float> -> Option<Fit>, trends: map<Column, Trend>)
    requires data != map[]
    requires TrendsOf(data, SortedYears(data.Keys), regress, Intersection(data, SortedYears(data.Keys)), trends)
    ensures forall c :: c in trends <==>
      InEveryYear(data, c) && Significant(FitFor(data, SortedYears(data.Keys), regress, c))
    ensures forall c :: c in trends ==>
      var fit := FitFor(data, SortedYears(data.Keys), regress, c);
      fit.Some? && trends[c] == TrendFrom(fit.value)
    ensures forall c :: c in trends ==> trends[c].pValue.Num? && trends[c].pValue.v < 0.05
  {
    CommonIsEveryYear(data);
  }

  /** `DataAgent.find_significant_trends`: raises without years; otherwise
      reports exactly the columns present in every year whose fit exists and
      is significant, each with the record built from its fit. */
  method FindSignificantTrends(data: map<Year, Frame>, regress: seq<Float> -> Option<Fit>)
    returns (r: Result<map<Column, Trend>, Error>)
    ensures r.Failure? <==> data == map[]
    ensures r.Success? ==> forall c :: c in r.value <==>
      InEveryYear(data, c) && Significant(FitFor(data, SortedYears(data.Keys), regress, c))
    ensures r.Success? ==> forall c :: c in r.value ==>
      var fit := FitFor(data, SortedYears(data.Keys), regress, c);
      fit.Some? && r.value[c] == TrendFrom(fit.value)
    ensures r.Success? ==> forall c :: c in r.value ==> r.value[c].pValue.Num? && r.value[c].pValue.v < 0.05
  {
    var years := SortedYears(data.Keys);
    if |years| == 0 {
      return Failure(NoYears);
    }
    var common := CommonColumns(data, years);
    var trends: map<Column, Trend> := map[];
    var remaining := common;
    ghost var done: set<Column> := {};
    while remaining != {}
      invariant remaining <= common && done == common - remaining
      invariant TrendsOf(data, years, regress, done, trends)
      decreases remaining
    {
      var c :| c in remaining;
      TrendStep(data, years, regress, done, trends, c);
      var fit := FitFor(data, years, regress, c);
      if Significant(fit) {
        trends := trends[c := TrendFrom(fit.value)];
      }
      remaining := remaining - {c};
      done := done + {c};
    }
    assert done == common;
    TrendsReport(data, regress, trends);
    r := Success(trends);
  }

  /** `s` lists every year once, in ascending order, each with the mean of
      column `c` in that year at the same position. */
  ghost predicate SeriesOfMeans(data: map<Year, Frame>, c: Column, s: Series) {
    && Ascending(s.years)
    && (forall y :: y in s.years <==> y in data)
    && |s.values| == |s.years|
    && forall i :: 0 <= i < |s.years| ==> data[s.years[i]].mean(c).Some? && s.values[i] == data[s.years[i]].mean(c).value
  }

  /** What the series loop holds once it has visited the columns in `done`:
      those among them whose means all exist, each with the years and means. */
  ghost predicate SeriesOf(data: map<Year, Frame>, years: seq<Year>, done: set<Column>, series: map<Column, Series>)
    requires forall i :: 0 <= i < |years| ==> years[i] in data
  {
    && (forall c :: c in series <==> c in done && ColumnMeans(data, years, c).Some?)
    && (forall c :: c in series ==> series[c] == Series(years, ColumnMeans(data, years, c).value))
  }

  /** Visiting one more column adds it exactly when all its means exist. */
  lemma {:induction false} SeriesStep(data: map<Year, Frame>, years: seq<Year>, done: set<Column>,
                                      series: map<Column, Series>, c: Column)
    requires forall i :: 0 <= i < |years| ==> years[i] in data
    requires SeriesOf(data, years, done, series)
    ensures var values := ColumnMeans(data, years, c);
      SeriesOf(data, years, done + {c},
               if values.Some? then series[c := Series(years, values.value)] else series)
  {
  }

  /** After visiting every common column, the result holds exactly the columns
      present in every year whose means all exist, each with its series. */
  lemma {:induction false} SeriesReport(data: map<Year, Frame>, series: map<Column, Series>)
    requires data != map[]
    requires SeriesOf(data, SortedYears(data.Keys), Intersection(data, SortedYears(data.Keys)), series)
    ensures forall c :: c in series <==>
      InEveryYear(data, c) && ColumnMeans(data, SortedYears(data.Keys), c).Some?
    ensures forall c :: c in series ==> SeriesOfMeans(data, c, series[c])
  {
    CommonIsEveryYear(data);
    forall c | c in series
      ensures SeriesOfMeans(data, c, series[c])
    {
      SeriesEntry(data, c, series[c]);
    }
  }

  /** One series the loop stores: the sorted years with the column's means. */
  lemma {:induction false} SeriesEntry(data: map<Year, Frame>, c: Column, s: Series)
    requires ColumnMeans(data, SortedYears(data.Keys), c).Some?
    requires s == Series(SortedYears(data.Keys), ColumnMeans(data, SortedYears(data.Keys), c).value)
    ensures SeriesOfMeans(data, c, s)
  {
    SortedYearsAscending(data.Keys);
    ColumnMeansAligned(data, SortedYears(data.Keys), c);
  }

  /** `DataAgent.calculate_animal_trends`: raises without years; otherwise
      gives every column present in every year whose means all exist its
      series: the sorted years and, position by position, that year's mean. */
  method CalculateAnimalTrends(data: map<Year, Frame>) returns (r: Result<map<Column, Series>, Error>)
    ensures r.Failure? <==> data == map[]
    ensures r.Success? ==> forall c :: c in r.value <==>
      InEveryYear(data, c) && ColumnMeans(data, SortedYears(data.Keys), c).Some?
    ensures r.Success? ==> forall c :: c in r.value ==> SeriesOfMeans(data, c, r.value[c])
  {
    var years := SortedYears(data.Keys);
    if |years| == 0 {
      return Failure(NoYears);
    }
    var common := CommonColumns(data, years);
    var series: map<Column, Series> := map[];
    var remaining := common;
    ghost var done: set<Column> := {};
    while remaining != {}
      invariant remaining <= common && done == common - remaining
      invariant SeriesOf(data, years, done, series)
      decreases remaining
    {
      var c :| c in remaining;
      SeriesStep(data, years, done, series, c);
      var values := ColumnMeans(data, years, c);
      if values.Some? {
        series := series[c := Series(years, values.value)];
      }
      remaining := remaining - {c};
      done := done + {c};
    }
    assert done == common;
    SeriesReport(data, series);
    r := Success(series);
  }
}
