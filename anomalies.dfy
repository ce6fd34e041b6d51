/** The latest-price anomaly detector: for every (brand, name) product in the
    combined CSV it compares the newest price with the distinct price levels
    seen in the thirty days that end on the newest date, and reports the
    product when an outlier model or the "thirty percent off the median" rule
    says the newest price is unusual. */
module Anomalies {
  import opened Wrappers
  import opened Text
  import opened Sorting
  import opened Prices

  const MissingBrand: string := "(no brand)"
  /** Length in days of the trailing window; both ends are inclusive. */
  const WindowDays: int := 30
  const ManualThresholdPct: real := 30.0
  /** A product needs this many observations before it is looked at. */
  const MinObservations: nat := 3
  /** The outlier model is consulted only with this many distinct levels. */
  const MinModelLevels: nat := 3
  const ModelTag: string := "model_30d_unique"
  const ManualTag: string := "median_diff_30pct"
  const ReasonSeparator: char := '|'

  /** One line of the combined CSV as the reader hands it over: None stands
      for a missing value, the price is still raw text and the date is a day
      number. */
  datatype CsvRow = CsvRow(
    brand: Option<string>,
    name: Option<string>,
    weight: Option<string>,
    price: Option<string>,
    date: Option<int>)

  /** An observation that survived loading: its price parsed, its date
      present and its brand filled in. */
  datatype Obs = Obs(brand: string, name: Option<string>, weight: Option<string>, price: real, date: int)

  datatype Key = Key(brand: string, name: string)

  datatype Direction = HigherVsMedian | LowerVsMedian | NoChange

  /** One output line of the anomaly report. */
  datatype Record = Record(
    brand: string,
    name: string,
    weight: string,
    latestDate: int,
    latestPrice: real,
    median: real,
    pctDiff: real,
    direction: string,
    reason: string)

  datatype DetectError =
    | UnparseablePrice(text: string)   // float() raised inside the price converter
    | BrandCategoryClash               // "(no brand)" already is a brand category
    | ZeroMedian(key: Key)             // division by a zero median

  /** The isolation forest, fitted on the distinct levels and asked about the
      latest price: true when it predicts -1. */
  type Oracle = (seq<real>, real) -> bool

  function Abs(x: real): (r: real)
    ensures r >= 0.0 && (r == x || r == -x)
  {
    if x < 0.0 then -x else x
  }

  lemma AbsMul(a: real, b: real)
    ensures Abs(a * b) == Abs(a) * Abs(b)
  {
  }

  lemma MulLtReal(a: real, b: real, c: real)
    requires a < b && c > 0.0
    ensures a * c < b * c
  {
  }

  lemma MulLeReal(a: real, b: real, c: real)
    requires a <= b && c > 0.0
    ensures a * c <= b * c
  {
  }

  // -----------------------------------------------------------------------
  // Loading

  /** The price converter: a missing value stays missing, any other text is
      cleaned and must then be a number. */
  function ConvertPrice(cell: Option<string>): (r: Result<Option<real>, DetectError>)
    ensures cell.None? ==> r == Success(None)
    ensures cell.Some? ==> (r.Success? <==> ParsePrice(cell.value).Some?)
    ensures r.Success? && r.value.Some? ==> cell.Some? && ParsePrice(cell.value) == r.value
    ensures r.Failure? ==> r.error == UnparseablePrice(cell.value)
  {
    match cell
    case None => Success(None)
    case Some(t) =>
      match ParsePrice(t)
      case None => Failure(UnparseablePrice(t))
      case Some(v) => Success(Some(v))
  }

  /** The converter applied to the whole price column; reading stops at the
      first cell it rejects. */
  function ConvertPrices(rows: seq<CsvRow>): (r: Result<seq<Option<real>>, DetectError>)
    ensures r.Success? ==> (|r.value| == |rows| &&
                            forall i :: 0 <= i < |rows| ==> ConvertPrice(rows[i].price) == Success(r.value[i]))
    ensures r.Failure? ==> exists i :: (0 <= i < |rows| && ConvertPrice(rows[i].price) == Failure(r.error) &&
                                        forall j :: 0 <= j < i ==> ConvertPrice(rows[j].price).Success?)
  {
    if rows == [] then Success([])
    else
      assert forall i :: 0 < i < |rows| ==> rows[i] == rows[1..][i - 1];
      match ConvertPrice(rows[0].price)
      case Failure(e) => Failure(e)
      case Success(p) =>
        match ConvertPrices(rows[1..])
        case Failure(e) =>
          var i :| 0 <= i < |rows[1..]| && ConvertPrice(rows[1..][i].price) == Failure(e) &&
            forall j :: 0 <= j < i ==> ConvertPrice(rows[1..][j].price).Success?;
          assert ConvertPrice(rows[i + 1].price) == Failure(e);
          Failure(e)
        case Success(ps) => Success([p] + ps)
  }

  /** add_categories refuses a category that already exists. */
  predicate BrandClash(rows: seq<CsvRow>)
  {
    exists i :: 0 <= i < |rows| && rows[i].brand == Some(MissingBrand)
  }

  /** A missing or empty brand becomes "(no brand)". */
  function NormaliseBrand(b: Option<string>): (r: string)
    ensures r != ""
    ensures r == MissingBrand <==> b.None? || b == Some("") || b == Some(MissingBrand)
  {
    match b
    case None => MissingBrand
    case Some(t) => if t == "" then MissingBrand else t
  }

  /** The observation a row yields after dropna on price and date, or None
      when it is dropped; price is the converted price cell. */
  function ToObs(row: CsvRow, price: Option<real>): (r: Option<Obs>)
    ensures r.Some? <==> price.Some? && row.date.Some?
  {
    if price.Some? && row.date.Some? then
      Some(Obs(NormaliseBrand(row.brand), row.name, row.weight, price.value, row.date.value))
    else None
  }

  function Observations(rows: seq<CsvRow>, prices: seq<Option<real>>): (r: seq<Obs>)
    requires |prices| == |rows|
    ensures |r| <= |rows|
  {
    if rows == [] then []
    else
      var rest := Observations(Init(rows), Init(prices));
      match ToObs(Last(rows), Last(prices))
      case None => rest
      case Some(o) => rest + [o]
  }

  /** dropna keeps order and multiplicity: the observations of a
      concatenation of rows are the concatenation of their observations. */
  lemma {:induction false} ObservationsAppend(a: seq<CsvRow>, pa: seq<Option<real>>,
                                              b: seq<CsvRow>, pb: seq<Option<real>>)
    requires |pa| == |a| && |pb| == |b|
    ensures Observations(a + b, pa + pb) == Observations(a, pa) + Observations(b, pb)
  {
    if b == [] {
      assert a + b == a && pa + pb == pa;
    } else {
      assert Init(a + b) == a + Init(b) && Init(pa + pb) == pa + Init(pb);
      assert Last(a + b) == Last(b) && Last(pa + pb) == Last(pb);
      ObservationsAppend(a, pa, Init(b), Init(pb));
    }
  }

  /** A row in the middle yields its observation once and in place when it
      has a price and a date, and nothing otherwise. */
  lemma ObservationsSplit(a: seq<CsvRow>, pa: seq<Option<real>>, row: CsvRow, p: Option<real>,
                          b: seq<CsvRow>, pb: seq<Option<real>>)
    requires |pa| == |a| && |pb| == |b|
    ensures Observations(a + [row] + b, pa + [p] + pb) ==
      Observations(a, pa) + (if p.Some? && row.date.Some? then [ToObs(row, p).value] else []) +
      Observations(b, pb)
  {
    ObservationsAppend(a + [row], pa + [p], b, pb);
    ObservationsAppend(a, pa, [row], [p]);
    assert Init([row]) == [] && Init([p]) == [];
  }

  /** Reading the combined CSV, dropping rows without price or date and
      filling in missing brands. */
  function LoadObservations(rows: seq<CsvRow>): (r: Result<seq<Obs>, DetectError>)
    ensures ConvertPrices(rows).Failure? ==> r == Failure(ConvertPrices(rows).error)
    ensures ConvertPrices(rows).Success? ==> (r.Failure? <==> BrandClash(rows))
    ensures r.Failure? ==> r.error.UnparseablePrice? || r.error.BrandCategoryClash?
  {
    match ConvertPrices(rows)
    case Failure(e) => Failure(e)
    case Success(prices) =>
      if BrandClash(rows) then Failure(BrandCategoryClash)
      else Success(Observations(rows, prices))
  }

  // -----------------------------------------------------------------------
  // One product

  function KeyOf(o: Obs): Option<Key>
  {
    match o.name
    case None => None
    case Some(n) => Some(Key(o.brand, n))
  }

  predicate InGroup(o: Obs, k: Key)
  {
    o.brand == k.brand && o.name == Some(k.name)
  }

  /** The observations of one product, in their order in the frame. */
  function GroupOf(obs: seq<Obs>, k: Key): (r: seq<Obs>)
    ensures |r| <= |obs|
    ensures forall i :: 0 <= i < |r| ==> r[i] in obs && InGroup(r[i], k)
    ensures forall i :: 0 <= i < |obs| && InGroup(obs[i], k) ==> obs[i] in r
  {
    if obs == [] then []
    else
      var rest := GroupOf(Init(obs), k);
      if InGroup(Last(obs), k) then rest + [Last(obs)] else rest
  }

  /** Grouping keeps order and multiplicity: the group of a concatenation
      is the concatenation of the groups. */
  lemma {:induction false} GroupOfAppend(a: seq<Obs>, b: seq<Obs>, k: Key)
    ensures GroupOf(a + b, k) == GroupOf(a, k) + GroupOf(b, k)
  {
    if b == [] {
      assert a + b == a;
    } else {
      assert Init(a + b) == a + Init(b);
      assert Last(a + b) == Last(b);
      GroupOfAppend(a, Init(b), k);
    }
  }

  /** An observation in the middle of the frame appears in its group exactly
      once, between the group of what precedes it and of what follows, when
      it belongs to the product, and not at all otherwise. */
  lemma GroupOfSplit(a: seq<Obs>, o: Obs, b: seq<Obs>, k: Key)
    ensures GroupOf(a + [o] + b, k) == GroupOf(a, k) + (if InGroup(o, k) then [o] else []) + GroupOf(b, k)
  {
    GroupOfAppend(a + [o], b, k);
    GroupOfAppend(a, [o], k);
    assert Init([o]) == [];
  }

  function DateKey(o: Obs): real
  {
    o.date as real
  }

  /** The observations whose date lies in [lo, hi], in their order. */
  function InWindow(series: seq<Obs>, lo: int, hi: int): (r: seq<Obs>)
    ensures |r| <= |series|
    ensures forall i :: 0 <= i < |r| ==> r[i] in series && lo <= r[i].date <= hi
    ensures forall i :: 0 <= i < |series| && lo <= series[i].date <= hi ==> series[i] in r
  {
    if series == [] then []
    else
      var rest := InWindow(Init(series), lo, hi);
      if lo <= Last(series).date <= hi then rest + [Last(series)] else rest
  }

  /** The window of a concatenation is the concatenation of the windows. */
  lemma {:induction false} InWindowAppend(a: seq<Obs>, b: seq<Obs>, lo: int, hi: int)
    ensures InWindow(a + b, lo, hi) == InWindow(a, lo, hi) + InWindow(b, lo, hi)
  {
    if b == [] {
      assert a + b == a;
    } else {
      assert Init(a + b) == a + Init(b);
      assert Last(a + b) == Last(b);
      InWindowAppend(a, Init(b), lo, hi);
    }
  }

  /** An observation is kept by the window, once and in place, exactly when
      its date lies in [lo, hi]. */
  lemma InWindowSplit(a: seq<Obs>, o: Obs, b: seq<Obs>, lo: int, hi: int)
    ensures InWindow(a + [o] + b, lo, hi) ==
      InWindow(a, lo, hi) + (if lo <= o.date <= hi then [o] else []) + InWindow(b, lo, hi)
  {
    InWindowAppend(a + [o], b, lo, hi);
    InWindowAppend(a, [o], lo, hi);
    assert Init([o]) == [];
  }

  function PricesOf(window: seq<Obs>): (r: seq<real>)
    ensures |r| == |window|
    ensures forall i :: 0 <= i < |r| ==> r[i] == window[i].price
  {
    if window == [] then [] else PricesOf(Init(window)) + [Last(window).price]
  }

  /** np.median: the middle of the sorted values, or the mean of the two
      middle ones. */
  function Median(levels: seq<real>): (m: real)
    requires |levels| > 0
    ensures exists i :: 0 <= i < |levels| && levels[i] <= m
    ensures exists j :: 0 <= j < |levels| && m <= levels[j]
  {
    var s := SortBy(levels, Identity);
    SortBySorted(levels, Identity);
    var n := |s|;
    assert s[n / 2] in multiset(levels);
    if n % 2 == 1 then s[n / 2]
    else
      assert s[n / 2 - 1] in multiset(levels);
      assert Identity(s[n / 2 - 1]) <= Identity(s[n / 2]);
      (s[n / 2 - 1] + s[n / 2]) / 2.0
  }

  /** Percentage by which latest differs from median. */
  /** Scaled back by the median, the difference is the distance from the
      median in hundredths. */
  function PctDiff(latest: real, median: real): (r: real)
    requires median != 0.0
    ensures r * median == (latest - median) * 100.0
  {
    var q := (latest - median) / median;
    assert q * median == latest - median;
    q * 100.0
  }

  /** The thirty-percent rule without the division: the latest price is at
      least thirty percent of the median away from it. */
  lemma ManualRuleDivisionFree(latest: real, median: real)
    requires median != 0.0
    ensures Abs(PctDiff(latest, median)) >= ManualThresholdPct <==>
      Abs(latest - median) * 100.0 >= ManualThresholdPct * Abs(median)
  {
    var p := PctDiff(latest, median);
    AbsMul(p, median);
    ScaleCompare(Abs(p), Abs(median), Abs(latest - median) * 100.0, ManualThresholdPct);
  }

  /** Comparing x with t is comparing x * c with t * c, for positive c. */
  lemma ScaleCompare(x: real, c: real, xc: real, t: real)
    requires c > 0.0 && x * c == xc
    ensures x >= t <==> xc >= t * c
  {
    if x >= t {
      MulLeReal(t, x, c);
    } else {
      MulLtReal(x, t, c);
    }
  }

  /** What the detector concludes from the distinct levels of the window. */
  datatype Verdict =
    | Flat
    | DivisionByZero
    | Signals(model: bool, manual: bool, median: real, pctDiff: real)

  function Classify(levels: seq<real>, latest: real, isOutlier: Oracle): (v: Verdict)
    requires |levels| > 0
    ensures v.Flat? <==> |levels| == 1 && latest == levels[0]
    ensures v.DivisionByZero? <==> !v.Flat? && Median(levels) == 0.0
    ensures v.Signals? ==> (v.median == Median(levels) && v.pctDiff == PctDiff(latest, v.median)
                            && (v.manual <==> Abs(latest - v.median) * 100.0 >= ManualThresholdPct * Abs(v.median))
                            && (v.model <==> |levels| >= MinModelLevels && isOutlier(levels, latest)))
  {
    if |levels| == 1 && latest == levels[0] then Flat
    else
      var median := Median(levels);
      if median == 0.0 then DivisionByZero
      else
        var pct := PctDiff(latest, median);
        ManualRuleDivisionFree(latest, median);
        var model := |levels| >= MinModelLevels && isOutlier(levels, latest);
        Signals(model, Abs(pct) >= ManualThresholdPct, median, pct)
  }

  /** The sign of the difference. */
  function DirectionOf(pct: real): (d: Direction)
    ensures d == HigherVsMedian <==> pct > 0.0
    ensures d == LowerVsMedian <==> pct < 0.0
    ensures d == NoChange <==> pct == 0.0
  {
    if pct > 0.0 then HigherVsMedian else if pct < 0.0 then LowerVsMedian else NoChange
  }

  /** The text written in the report's direction column. */
  function DirectionName(d: Direction): (r: string)
    ensures r == "higher_vs_30d_median" <==> d == HigherVsMedian
    ensures r == "lower_vs_30d_median" <==> d == LowerVsMedian
    ensures r == "no_change" <==> d == NoChange
  {
    match d
    case HigherVsMedian => "higher_vs_30d_median"
    case LowerVsMedian => "lower_vs_30d_median"
    case NoChange => "no_change"
  }

  function ReasonTags(model: bool, manual: bool): seq<string>
  {
    (if model then [ModelTag] else []) + (if manual then [ManualTag] else [])
  }

  /** str.join */
  function Join(parts: seq<string>, sep: char): string
  {
    if parts == [] then ""
    else if |parts| == 1 then parts[0]
    else parts[0] + [sep] + Join(parts[1..], sep)
  }

  /** str.split with a one-character separator. */
  function Split(s: string, sep: char): (r: seq<string>)
    ensures |r| > 0
    ensures forall i, j :: 0 <= i < |r| && 0 <= j < |r[i]| ==> r[i][j] != sep
    decreases |s|
  {
    var k := IndexOf(s, sep);
    if k == |s| then [s] else [s[..k]] + Split(s[k + 1..], sep)
  }

  function Reason(model: bool, manual: bool): (r: string)
    ensures r != "" <==> model || manual
  {
    Join(ReasonTags(model, manual), ReasonSeparator)
  }

  /** str() of a weight category; a missing one prints as "nan". */
  function WeightText(w: Option<string>): (r: string)
    ensures w.Some? ==> r == w.value
  {
    match w
    case None => "nan"
    case Some(t) => t
  }

  /** round(x, 2): the nearest multiple of 0.01, a tie going to the even
      neighbour as Python's round does. */
  function RoundCents(x: real): (r: real)
    ensures (r * 100.0).Floor as real == r * 100.0
    ensures -0.005 <= r - x <= 0.005
  {
    var k := NearestInt(x * 100.0);
    CentsScale(x, x * 100.0, k);
    k as real / 100.0
  }

  /** The integer nearest to y, the even one on a tie. */
  function NearestInt(y: real): (k: int)
    ensures -0.5 <= k as real - y <= 0.5
    ensures k as real - y == 0.5 || y - k as real == 0.5 ==> k % 2 == 0
  {
    var n := y.Floor;
    if y - n as real > 0.5 || (y - n as real == 0.5 && n % 2 != 0) then n + 1 else n
  }

  lemma CentsScale(x: real, y: real, k: int)
    requires y == x * 100.0 && -0.5 <= k as real - y <= 0.5
    ensures (k as real / 100.0) * 100.0 == k as real
    ensures -0.005 <= k as real / 100.0 - x <= 0.005
  {
  }

  /** An amount already in whole cents is left as it is. */
  lemma RoundCentsExact(k: int)
    ensures RoundCents(k as real / 100.0) == k as real / 100.0
  {
    assert (k as real / 100.0) * 100.0 == k as real;
  }

  /** Rounding a rounded amount changes nothing. */
  lemma RoundCentsIdempotent(x: real)
    ensures RoundCents(RoundCents(x)) == RoundCents(x)
  {
    var r := RoundCents(x);
    var k := (r * 100.0).Floor;
    assert r == k as real / 100.0;
    RoundCentsExact(k);
  }

  /** The record's median and difference are rounded to cents; the direction
      is taken from the unrounded difference. */
  function BuildRecord(k: Key, latest: Obs, model: bool, manual: bool, median: real, pct: real): (rec: Record)
    ensures rec.brand == k.brand && rec.name == k.name
    ensures rec.latestDate == latest.date && rec.latestPrice == latest.price
    ensures -0.005 <= rec.median - median <= 0.005 && -0.005 <= rec.pctDiff - pct <= 0.005
    ensures rec.direction == DirectionName(DirectionOf(pct))
    ensures rec.reason != "" <==> model || manual
  {
    Record(k.brand, k.name, WeightText(latest.weight), latest.date, latest.price,
           RoundCents(median), RoundCents(pct), DirectionName(DirectionOf(pct)), Reason(model, manual))
  }

  /** The newest observation of a group: last of the date-sorted series. */
  function Latest(group: seq<Obs>): (r: Obs)
    requires |group| > 0
    ensures r in group
    ensures forall i :: 0 <= i < |group| ==> group[i].date <= r.date
  {
    LastOfSortBy(group, DateKey);
    var sorted := SortBy(group, DateKey);
    assert Last(sorted) == sorted[|sorted| - 1];
    assert Last(sorted) in multiset(group);
    Last(sorted)
  }

  /** The group's observations in the thirty days ending on the latest date,
      in date order. */
  function Window(group: seq<Obs>): (w: seq<Obs>)
    requires |group| > 0
    ensures |w| > 0
  {
    var series := SortBy(group, DateKey);
    var latest := Last(series);
    assert latest == series[|series| - 1];
    InWindow(series, latest.date - WindowDays, latest.date)
  }

  /** The distinct prices of the window. */
  function Levels(group: seq<Obs>): (l: seq<real>)
    requires |group| > 0
    ensures 0 < |l| <= |Window(group)|
    ensures forall i, j :: 0 <= i < j < |l| ==> l[i] != l[j]
  {
    var p := PricesOf(Window(group));
    assert p[0] in Distinct(p);
    Distinct(p)
  }

  function EntityVerdict(group: seq<Obs>, isOutlier: Oracle): Verdict
    requires |group| > 0
  {
    Classify(Levels(group), Latest(group).price, isOutlier)
  }

  /** The body of the per-product loop. */
  function DetectEntity(k: Key, group: seq<Obs>, isOutlier: Oracle): (r: Result<Option<Record>, DetectError>)
    ensures |group| < MinObservations ==> r == Success(None)
    ensures r.Failure? <==> |group| >= MinObservations && EntityVerdict(group, isOutlier).DivisionByZero?
    ensures r.Failure? ==> r.error == ZeroMedian(k)
    ensures r.Success? && r.value.Some? <==>
      (|group| >= MinObservations && EntityVerdict(group, isOutlier).Signals?
       && (EntityVerdict(group, isOutlier).model || EntityVerdict(group, isOutlier).manual))
  {
    if |group| < MinObservations then Success(None)
    // never taken: the latest observation lies in its own window
    else if Window(group) == [] then Success(None)
    else
      match EntityVerdict(group, isOutlier)
      case Flat => Success(None)
      case DivisionByZero => Failure(ZeroMedian(k))
      case Signals(model, manual, median, pct) =>
        if model || manual then Success(Some(BuildRecord(k, Latest(group), model, manual, median, pct)))
        else Success(None)
  }

  // -----------------------------------------------------------------------
  // Properties of one product

  /** The latest row is the newest one, and among rows sharing the newest
      date it is the one that came last (the sort is stable). */
  lemma LatestIsNewest(group: seq<Obs>)
    requires |group| > 0
    ensures Latest(group) == Last(WithKey(group, DateKey, DateKey(Latest(group))))
  {
    LastOfSortBy(group, DateKey);
  }

  /** Sorting the date-sorted series by date once more changes nothing. */
  lemma ResortIsIdentity(group: seq<Obs>)
    ensures SortBy(SortBy(group, DateKey), DateKey) == SortBy(group, DateKey)
  {
    SortBySorted(group, DateKey);
    SortBySortedIsIdentity(SortBy(group, DateKey), DateKey);
  }

  /** The window holds exactly the group's rows dated within thirty days up
      to and including the latest date. */
  lemma WindowMembers(group: seq<Obs>, o: Obs)
    requires |group| > 0
    ensures o in Window(group) <==>
      (o in group && Latest(group).date - WindowDays <= o.date <= Latest(group).date)
  {
    var series := SortBy(group, DateKey);
    var w := Window(group);
    assert multiset(series) == multiset(group);
    if o in w {
      var i :| 0 <= i < |w| && w[i] == o;
      assert o in multiset(series);
    }
    if o in group && Latest(group).date - WindowDays <= o.date <= Latest(group).date {
      assert o in multiset(series);
      var i :| 0 <= i < |series| && series[i] == o;
    }
  }

  /** The latest price is always one of the levels it is compared with. */
  lemma LatestPriceIsALevel(group: seq<Obs>)
    requires |group| > 0
    ensures Latest(group) in Window(group)
    ensures Latest(group).price in Levels(group)
  {
    LatestIsNewest(group);
    WindowMembers(group, Latest(group));
    var w := Window(group);
    var i :| 0 <= i < |w| && w[i] == Latest(group);
    assert PricesOf(w)[i] == Latest(group).price;
  }

  /** The detector's "one level equal to the latest price" test is the
      same as "one level": the latest price always is a level, so with a
      single level it is that level. */
  lemma FlatIffOneLevel(group: seq<Obs>, isOutlier: Oracle)
    requires |group| > 0
    ensures EntityVerdict(group, isOutlier).Flat? <==> |Levels(group)| == 1
  {
    LatestPriceIsALevel(group);
  }

  /** A level is the price of some row of the window, and every such price is
      a level. */
  lemma LevelsMembers(group: seq<Obs>, x: real)
    requires |group| > 0
    ensures x in Levels(group) <==> exists i :: 0 <= i < |Window(group)| && Window(group)[i].price == x
  {
    var w := Window(group);
    var p := PricesOf(w);
    if x in Levels(group) {
      assert x in p;
      var i :| 0 <= i < |p| && p[i] == x;
      assert w[i].price == x;
    }
    if exists i :: 0 <= i < |w| && w[i].price == x {
      var i :| 0 <= i < |w| && w[i].price == x;
      assert p[i] == x;
    }
  }

  /** A product whose every price of the last thirty days equals the latest
      one is never reported. */
  lemma FlatNeverReported(k: Key, group: seq<Obs>, isOutlier: Oracle)
    requires |group| >= MinObservations
    requires forall i :: 0 <= i < |group| && group[i].date >= Latest(group).date - WindowDays ==>
      group[i].price == Latest(group).price
    ensures DetectEntity(k, group, isOutlier) == Success(None)
  {
    FlatLevels(group);
  }

  /** A price that did not move in the window leaves a single level. */
  lemma FlatLevels(group: seq<Obs>)
    requires |group| > 0
    requires forall i :: 0 <= i < |group| && group[i].date >= Latest(group).date - WindowDays ==>
      group[i].price == Latest(group).price
    ensures Levels(group) == [Latest(group).price]
  {
    var w := Window(group);
    var prices := PricesOf(w);
    var p := Latest(group).price;
    forall i | 0 <= i < |prices|
      ensures prices[i] == p
    {
      WindowMembers(group, w[i]);
      var g :| 0 <= g < |group| && group[g] == w[i];
    }
    DistinctConstant(prices, p);
  }

  /** The median depends on the levels only, not on the order in which
      unique() happens to list them. */
  lemma MedianOrderIndependent(a: seq<real>, b: seq<real>)
    requires |a| > 0 && multiset(a) == multiset(b)
    ensures |b| > 0 && Median(a) == Median(b)
  {
    assert |a| == |multiset(a)| == |b|;
    SortBySorted(a, Identity);
    SortBySorted(b, Identity);
    SortedRealsUnique(SortBy(a, Identity), SortBy(b, Identity));
  }

  /** The sorted form of two distinct levels. */
  lemma SortTwoOrdered(a: seq<real>)
    requires |a| == 2 && a[0] <= a[1]
    ensures SortBy(a, Identity) == a
  {
    assert Init(a) == [a[0]] && Last(a) == a[1];
    var one := [a[0]];
    assert Init(one) == [] && Last(one) == a[0];
    assert SortBy(one, Identity) == one;
    assert a == one + [a[1]];
  }

  lemma SortTwoSwapped(a: seq<real>)
    requires |a| == 2 && a[1] < a[0]
    ensures SortBy(a, Identity) == [a[1], a[0]]
  {
    assert Init(a) == [a[0]] && Last(a) == a[1];
    SortOne(a[0]);
    InsertBelowOne(a[0], a[1]);
  }

  lemma SortOne(x: real)
    ensures SortBy([x], Identity) == [x]
  {
    assert Init([x]) == [] && Last([x]) == x;
  }

  lemma InsertBelowOne(x: real, y: real)
    requires y < x
    ensures Insert([x], y, Identity) == [y, x]
  {
    assert Init([x]) == [] && Last([x]) == x;
    assert Insert([], y, Identity) == [y];
  }

  /** With two positive levels the model is never consulted and the latest
      price is flagged exactly when the higher level is at least 13/7 of the
      lower one, whichever of the two is the latest. */
  lemma TwoLevelRule(levels: seq<real>, latest: real, isOutlier: Oracle)
    requires |levels| == 2 && 0.0 < levels[0] && 0.0 < levels[1] && levels[0] != levels[1]
    requires latest in levels
    ensures var v := Classify(levels, latest, isOutlier);
      var lo := if levels[0] < levels[1] then levels[0] else levels[1];
      var hi := if levels[0] < levels[1] then levels[1] else levels[0];
      v.Signals? && !v.model && v.median == (lo + hi) / 2.0 &&
      (v.manual <==> 7.0 * hi >= 13.0 * lo)
  {
    var lo := if levels[0] < levels[1] then levels[0] else levels[1];
    var hi := if levels[0] < levels[1] then levels[1] else levels[0];
    TwoLevelMedian(levels);
    var m := Median(levels);
    assert Abs(latest - m) == (hi - lo) / 2.0;
  }

  /** The median of two levels is their mean. */
  lemma TwoLevelMedian(levels: seq<real>)
    requires |levels| == 2
    ensures Median(levels) == (levels[0] + levels[1]) / 2.0
  {
    if levels[0] <= levels[1] {
      SortTwoOrdered(levels);
    } else {
      SortTwoSwapped(levels);
    }
  }

  // -----------------------------------------------------------------------
  // Worked examples: four days at 10.00, then a fifth price

  function ExampleGroup(k: Key, last: real): seq<Obs>
  {
    var day := (price, date) => Obs(k.brand, Some(k.name), None, price, date);
    [day(10.0, 1), day(10.0, 2), day(10.0, 3), day(10.0, 4), day(last, 5)]
  }

  lemma {:induction false} InWindowAll(series: seq<Obs>, lo: int, hi: int)
    requires forall i :: 0 <= i < |series| ==> lo <= series[i].date <= hi
    ensures InWindow(series, lo, hi) == series
  {
    if series != [] {
      InWindowAll(Init(series), lo, hi);
      assert series == Init(series) + [Last(series)];
    }
  }

  lemma PricesOfIs(w: seq<Obs>, p: seq<real>)
    requires |w| == |p| && forall i :: 0 <= i < |w| ==> w[i].price == p[i]
    ensures PricesOf(w) == p
  {
  }

  lemma ExampleSorted(k: Key, last: real)
    ensures SortBy(ExampleGroup(k, last), DateKey) == ExampleGroup(k, last)
  {
    var g := ExampleGroup(k, last);
    assert forall i :: 0 <= i < 5 ==> g[i].date == i + 1;
    SortBySortedIsIdentity(g, DateKey);
  }

  lemma ExampleLatest(k: Key, last: real)
    ensures Latest(ExampleGroup(k, last)) == ExampleGroup(k, last)[4]
  {
    ExampleSorted(k, last);
  }

  /** Everything lies in one window. */
  lemma ExampleWindow(k: Key, last: real)
    ensures Latest(ExampleGroup(k, last)) == ExampleGroup(k, last)[4]
    ensures Window(ExampleGroup(k, last)) == ExampleGroup(k, last)
  {
    var g := ExampleGroup(k, last);
    ExampleSorted(k, last);
    ExampleLatest(k, last);
    ExampleInWindow(k, last);
  }

  lemma ExampleInWindow(k: Key, last: real)
    ensures InWindow(ExampleGroup(k, last), 5 - WindowDays, 5) == ExampleGroup(k, last)
  {
    var g := ExampleGroup(k, last);
    assert forall i :: 0 <= i < |g| ==> 5 - WindowDays <= g[i].date <= 5;
    InWindowAll(g, 5 - WindowDays, 5);
  }

  lemma ExampleDistinct(a: real, b: real)
    requires a != b
    ensures Distinct([a, a, a, a, b]) == [a, b]
  {
    var s4 := [a, a, a, a];
    DistinctConstant(s4, a);
    DistinctSnoc(s4, b);
    assert s4 + [b] == [a, a, a, a, b];
  }

  lemma ExamplePrices(k: Key, last: real)
    ensures PricesOf(ExampleGroup(k, last)) == [10.0, 10.0, 10.0, 10.0, last]
  {
    var g := ExampleGroup(k, last);
    var p := [10.0, 10.0, 10.0, 10.0, last];
    assert forall i :: 0 <= i < 5 ==> g[i].price == p[i];
    PricesOfIs(g, p);
  }

  /** The levels are 10.00 and the fifth price. */
  lemma ExampleLevels(k: Key, last: real)
    requires last != 10.0
    ensures Latest(ExampleGroup(k, last)) == ExampleGroup(k, last)[4]
    ensures Levels(ExampleGroup(k, last)) == [10.0, last]
  {
    var g := ExampleGroup(k, last);
    ExampleWindow(k, last);
    ExamplePrices(k, last);
    ExampleDistinct(10.0, last);
  }

  /** A jump to 20.00 is 33.33 percent above the median 15.00 of the levels
      {10.00, 20.00}: reported as higher, by the median rule alone. */
  lemma SpikeIsReported(k: Key, isOutlier: Oracle)
    ensures DetectEntity(k, ExampleGroup(k, 20.0), isOutlier) ==
      Success(Some(Record(k.brand, k.name, "nan", 5, 20.0, 15.0, 33.33, "higher_vs_30d_median", ManualTag)))
  {
    var g := ExampleGroup(k, 20.0);
    SpikeVerdict(k, isOutlier);
    assert DetectEntity(k, g, isOutlier) ==
      Success(Some(BuildRecord(k, g[4], false, true, 15.0, 100.0 / 3.0)));
    assert Reason(false, true) == ManualTag;
    SpikeRounding();
  }

  lemma SpikeRounding()
    ensures RoundCents(15.0) == 15.0 && RoundCents(100.0 / 3.0) == 33.33
  {
    RoundCentsExact(1500);
    assert (100.0 / 3.0 * 100.0).Floor == 3333;
  }

  lemma SpikeVerdict(k: Key, isOutlier: Oracle)
    ensures Latest(ExampleGroup(k, 20.0)) == ExampleGroup(k, 20.0)[4]
    ensures EntityVerdict(ExampleGroup(k, 20.0), isOutlier) == Signals(false, true, 15.0, 100.0 / 3.0)
  {
    ExampleLevels(k, 20.0);
    TwoLevelRule([10.0, 20.0], 20.0, isOutlier);
    assert PctDiff(20.0, 15.0) == 100.0 / 3.0;
  }

  /** A rise to 13.50 is only 14.9 percent above the median 11.75 of the
      levels {10.00, 13.50}, and two levels are too few for the model: not
      reported, whatever the model would say. */
  lemma SmallStepIsNotReported(k: Key, isOutlier: Oracle)
    ensures DetectEntity(k, ExampleGroup(k, 13.5), isOutlier) == Success(None)
  {
    ExampleLevels(k, 13.5);
    TwoLevelRule([10.0, 13.5], 13.5, isOutlier);
  }

  /** Brand and name of a record are its product's; its date, price and
      weight are those of the latest row, its median that of the levels. */
  lemma RecordFields(k: Key, group: seq<Obs>, isOutlier: Oracle, rec: Record)
    requires DetectEntity(k, group, isOutlier) == Success(Some(rec))
    ensures |group| >= MinObservations
    ensures rec.brand == k.brand && rec.name == k.name
    ensures rec.latestDate == Latest(group).date && rec.latestPrice == Latest(group).price
    ensures rec.weight == WeightText(Latest(group).weight)
    ensures EntityVerdict(group, isOutlier).Signals?
    ensures EntityVerdict(group, isOutlier).median == Median(Levels(group)) != 0.0
    ensures rec.median == RoundCents(EntityVerdict(group, isOutlier).median)
    ensures EntityVerdict(group, isOutlier).pctDiff == PctDiff(rec.latestPrice, EntityVerdict(group, isOutlier).median)
    ensures rec.pctDiff == RoundCents(EntityVerdict(group, isOutlier).pctDiff)
    ensures rec.direction == DirectionName(DirectionOf(EntityVerdict(group, isOutlier).pctDiff))
    ensures rec.reason == Reason(EntityVerdict(group, isOutlier).model, EntityVerdict(group, isOutlier).manual)
    ensures rec.reason != ""
  {
    var v := EntityVerdict(group, isOutlier);
    assert |group| >= MinObservations && v.Signals?;
    assert rec == BuildRecord(k, Latest(group), v.model, v.manual, v.median, v.pctDiff);
  }

  /** With a positive median the direction says whether the latest price is
      above, below or at the median. */
  lemma DirectionMeaning(latest: real, median: real)
    requires median > 0.0
    ensures DirectionOf(PctDiff(latest, median)) == HigherVsMedian <==> latest > median
    ensures DirectionOf(PctDiff(latest, median)) == LowerVsMedian <==> latest < median
    ensures DirectionOf(PctDiff(latest, median)) == NoChange <==> latest == median
  {
    DirectionAgainstMedian(PctDiff(latest, median), median, latest);
  }

  lemma DirectionAgainstMedian(p: real, m: real, l: real)
    requires m > 0.0 && p * m == (l - m) * 100.0
    ensures p > 0.0 <==> l > m
    ensures p < 0.0 <==> l < m
  {
    if p > 0.0 { assert p * m > 0.0; }
    if p < 0.0 { assert p * m < 0.0; }
    if p == 0.0 { assert p * m == 0.0; }
  }

  /** Splitting a join on its separator gives the parts back. */
  lemma {:induction false} SplitJoin(parts: seq<string>, sep: char)
    requires |parts| > 0
    requires forall i, j :: 0 <= i < |parts| && 0 <= j < |parts[i]| ==> parts[i][j] != sep
    ensures Split(Join(parts, sep), sep) == parts
  {
    if |parts| == 1 {
      assert IndexOf(parts[0], sep) == |parts[0]|;
    } else {
      var rest := Join(parts[1..], sep);
      IndexOfAfter(parts[0], sep, rest);
      var s := parts[0] + [sep] + rest;
      assert s[..|parts[0]|] == parts[0];
      assert s[|parts[0]| + 1..] == rest;
      SplitJoin(parts[1..], sep);
      assert [parts[0]] + parts[1..] == parts;
    }
  }

  lemma TagsDiffer()
    ensures ModelTag != ManualTag
  {
    assert ModelTag[1] != ManualTag[1];
  }

  lemma ModelTagHasNoSeparator()
    ensures forall j :: 0 <= j < |ModelTag| ==> ModelTag[j] != ReasonSeparator
  {
  }

  lemma ManualTagHasNoSeparator()
    ensures forall j :: 0 <= j < |ManualTag| ==> ManualTag[j] != ReasonSeparator
  {
  }

  lemma ReasonTagsHaveNoSeparator(model: bool, manual: bool)
    ensures var tags := ReasonTags(model, manual);
      forall i, j :: 0 <= i < |tags| && 0 <= j < |tags[i]| ==> tags[i][j] != ReasonSeparator
  {
    var tags := ReasonTags(model, manual);
    forall i, j | 0 <= i < |tags| && 0 <= j < |tags[i]|
      ensures tags[i][j] != ReasonSeparator
    {
      if tags[i] == ModelTag {
        ModelTagHasNoSeparator();
      } else {
        ManualTagHasNoSeparator();
      }
    }
  }

  /** Each tag is in the list exactly when its rule fired. */
  lemma ReasonTagsMembers(model: bool, manual: bool)
    ensures ModelTag in ReasonTags(model, manual) <==> model
    ensures ManualTag in ReasonTags(model, manual) <==> manual
  {
    TagsDiffer();
  }

  /** The reason column splits back into the tags that fired. */
  lemma ReasonRoundTrip(model: bool, manual: bool)
    requires model || manual
    ensures Split(Reason(model, manual), ReasonSeparator) == ReasonTags(model, manual)
  {
    ReasonTagsHaveNoSeparator(model, manual);
    SplitJoin(ReasonTags(model, manual), ReasonSeparator);
  }

  // -----------------------------------------------------------------------
  // All products

  function KeyList(obs: seq<Obs>): (r: seq<Key>)
    ensures forall i :: 0 <= i < |r| ==> exists j :: 0 <= j < |obs| && KeyOf(obs[j]) == Some(r[i])
    ensures forall j :: 0 <= j < |obs| && KeyOf(obs[j]).Some? ==> KeyOf(obs[j]).value in r
  {
    if obs == [] then []
    else
      var rest := KeyList(Init(obs));
      assert forall j :: 0 <= j < |obs| - 1 ==> obs[j] == Init(obs)[j];
      match KeyOf(Last(obs))
      case None => rest
      case Some(k) => rest + [k]
  }

  /** The groups of groupby(["brand", "name"]), rows without a name left out,
      in order of first appearance. */
  function Keys(obs: seq<Obs>): (r: seq<Key>)
    ensures forall i, j :: 0 <= i < j < |r| ==> r[i] != r[j]
  {
    Distinct(KeyList(obs))
  }

  /** What the loop body does for one product. */
  type Reporter = Key -> Result<Option<Record>, DetectError>

  function ProductReport(obs: seq<Obs>, isOutlier: Oracle): Reporter
  {
    k => DetectEntity(k, GroupOf(obs, k), isOutlier)
  }

  /** The loop over the products: records are appended in key order and the
      first failure ends the run. */
  function CollectRecords(keys: seq<Key>, report: Reporter): (r: Result<seq<Record>, DetectError>)
    ensures r.Success? ==> |r.value| <= |keys|
  {
    if keys == [] then Success([])
    else
      match CollectRecords(Init(keys), report)
      case Failure(e) => Failure(e)
      case Success(rs) =>
        match report(Last(keys))
        case Failure(e) => Failure(e)
        case Success(None) => Success(rs)
        case Success(Some(rec)) => Success(rs + [rec])
  }

  /** get_anomalies without its file output: a loading error, or at most one
      record per product. */
  function Anomalies(rows: seq<CsvRow>, isOutlier: Oracle): (r: Result<seq<Record>, DetectError>)
    ensures LoadObservations(rows).Failure? ==> r == Failure(LoadObservations(rows).error)
    ensures r.Success? ==> LoadObservations(rows).Success? && |r.value| <= |Keys(LoadObservations(rows).value)|
  {
    match LoadObservations(rows)
    case Failure(e) => Failure(e)
    case Success(obs) => CollectRecords(Keys(obs), ProductReport(obs, isOutlier))
  }

  // -----------------------------------------------------------------------
  // Properties of loading

  /** Every observation comes from a row of the file. */
  lemma {:induction false} ObservationsOrigin(rows: seq<CsvRow>, prices: seq<Option<real>>)
    requires |prices| == |rows|
    ensures forall i :: 0 <= i < |Observations(rows, prices)| ==>
      exists j :: 0 <= j < |rows| && ToObs(rows[j], prices[j]) == Some(Observations(rows, prices)[i])
  {
    if rows != [] {
      var obs := Observations(rows, prices);
      var init, pinit := Init(rows), Init(prices);
      var obs' := Observations(init, pinit);
      ObservationsOrigin(init, pinit);
      forall i | 0 <= i < |obs|
        ensures exists j :: 0 <= j < |rows| && ToObs(rows[j], prices[j]) == Some(obs[i])
      {
        if i < |obs'| {
          var j :| 0 <= j < |init| && ToObs(init[j], pinit[j]) == Some(obs'[i]);
          assert rows[j] == init[j] && prices[j] == pinit[j];
        } else {
          assert obs == obs' + [ToObs(Last(rows), Last(prices)).value];
          assert rows[|rows| - 1] == Last(rows) && prices[|rows| - 1] == Last(prices);
        }
      }
    } else {
      assert Observations(rows, prices) == [];
    }
  }

  /** dropna removes exactly the rows without a price or without a date:
      every other row yields its observation. */
  lemma {:induction false} ObservationsKept(rows: seq<CsvRow>, prices: seq<Option<real>>, j: nat)
    requires |prices| == |rows|
    requires j < |rows| && prices[j].Some? && rows[j].date.Some?
    ensures ToObs(rows[j], prices[j]).Some? && ToObs(rows[j], prices[j]).value in Observations(rows, prices)
  {
    if j < |rows| - 1 {
      assert rows[j] == Init(rows)[j] && prices[j] == Init(prices)[j];
      ObservationsKept(Init(rows), Init(prices), j);
    }
  }

  /** The observation o is what row becomes: the row's price text parses to
      o's price, its date is o's date, and o's brand reads "(no brand)"
      exactly when the row had no brand or an empty one. */
  predicate RowYields(row: CsvRow, o: Obs)
  {
    row.price.Some? && ParsePrice(row.price.value) == Some(o.price) && row.date == Some(o.date) &&
    (o.brand == MissingBrand <==> row.brand.None? || row.brand == Some(""))
  }

  /** After loading, every observation is what some row of the file became. */
  lemma LoadedRows(rows: seq<CsvRow>)
    requires LoadObservations(rows).Success?
    ensures var obs := LoadObservations(rows).value;
      forall i :: 0 <= i < |obs| ==> exists j :: 0 <= j < |rows| && RowYields(rows[j], obs[i])
  {
    var prices := ConvertPrices(rows).value;
    var obs := LoadObservations(rows).value;
    assert obs == Observations(rows, prices);
    ObservationsOrigin(rows, prices);
    forall i | 0 <= i < |obs|
      ensures exists j :: 0 <= j < |rows| && RowYields(rows[j], obs[i])
    {
      var j :| 0 <= j < |rows| && ToObs(rows[j], prices[j]) == Some(obs[i]);
      assert ConvertPrice(rows[j].price) == Success(prices[j]);
      assert rows[j].brand != Some(MissingBrand);
      LoadedRow(rows[j], prices[j], obs[i]);
    }
  }

  lemma LoadedRow(row: CsvRow, price: Option<real>, o: Obs)
    requires ToObs(row, price) == Some(o) && ConvertPrice(row.price) == Success(price)
    requires row.brand != Some(MissingBrand)
    ensures RowYields(row, o)
  {
  }

  /** A row the loader keeps: price text that parses, and a date. */
  lemma LoadedKeeps(rows: seq<CsvRow>, j: nat)
    requires LoadObservations(rows).Success?
    requires j < |rows| && rows[j].price.Some? && rows[j].date.Some?
    ensures exists i :: (0 <= i < |LoadObservations(rows).value| &&
      Some(LoadObservations(rows).value[i].price) == ParsePrice(rows[j].price.value) &&
      LoadObservations(rows).value[i].name == rows[j].name)
  {
    var prices := ConvertPrices(rows).value;
    assert ConvertPrice(rows[j].price) == Success(prices[j]);
    ObservationsKept(rows, prices, j);
    var obs := LoadObservations(rows).value;
    var i :| 0 <= i < |obs| && obs[i] == ToObs(rows[j], prices[j]).value;
  }

  // -----------------------------------------------------------------------
  // Properties of the batch

  function RecordKey(rec: Record): Key
  {
    Key(rec.brand, rec.name)
  }

  /** The groups are exactly the products that have a named observation. */
  lemma KeysAreGroups(obs: seq<Obs>, k: Key)
    ensures k in Keys(obs) <==> |GroupOf(obs, k)| > 0
  {
    if k in Keys(obs) {
      KeyHasGroup(obs, k);
    }
    if |GroupOf(obs, k)| > 0 {
      GroupHasKey(obs, k);
    }
  }

  lemma KeyHasGroup(obs: seq<Obs>, k: Key)
    requires k in Keys(obs)
    ensures |GroupOf(obs, k)| > 0
  {
    var i :| 0 <= i < |KeyList(obs)| && KeyList(obs)[i] == k;
    var j :| 0 <= j < |obs| && KeyOf(obs[j]) == Some(k);
    assert InGroup(obs[j], k);
    assert obs[j] in GroupOf(obs, k);
  }

  lemma GroupHasKey(obs: seq<Obs>, k: Key)
    requires |GroupOf(obs, k)| > 0
    ensures k in Keys(obs)
  {
    var g := GroupOf(obs, k);
    var j :| 0 <= j < |obs| && obs[j] == g[0];
    assert KeyOf(obs[j]) == Some(k);
  }

  /** Every record is the report of one of the keys. */
  lemma {:induction false} CollectSound(keys: seq<Key>, report: Reporter)
    requires CollectRecords(keys, report).Success?
    ensures forall i :: 0 <= i < |CollectRecords(keys, report).value| ==>
      exists j :: 0 <= j < |keys| && report(keys[j]) == Success(Some(CollectRecords(keys, report).value[i]))
  {
    if keys != [] {
      var rs := CollectRecords(keys, report).value;
      var init := Init(keys);
      CollectSound(init, report);
      var rs' := CollectRecords(init, report).value;
      forall i | 0 <= i < |rs|
        ensures exists j :: 0 <= j < |keys| && report(keys[j]) == Success(Some(rs[i]))
      {
        if i < |rs'| {
          var j :| 0 <= j < |init| && report(init[j]) == Success(Some(rs'[i]));
          assert keys[j] == init[j];
        } else {
          assert keys[|keys| - 1] == Last(keys);
        }
      }
    }
  }

  /** Every key whose product is reported has its record in the result. */
  lemma {:induction false} CollectComplete(keys: seq<Key>, report: Reporter, j: nat, rec: Record)
    requires CollectRecords(keys, report).Success?
    requires j < |keys| && report(keys[j]) == Success(Some(rec))
    ensures rec in CollectRecords(keys, report).value
  {
    if j < |keys| - 1 {
      assert keys[j] == Init(keys)[j];
      CollectComplete(Init(keys), report, j, rec);
    } else {
      assert keys[j] == Last(keys);
    }
  }

  /** The batch fails exactly when one of its products fails. */
  lemma {:induction false} CollectFailsIff(keys: seq<Key>, report: Reporter)
    ensures CollectRecords(keys, report).Failure? <==>
      exists j :: 0 <= j < |keys| && report(keys[j]).Failure?
  {
    if keys != [] {
      var init := Init(keys);
      CollectFailsIff(init, report);
      if exists j :: 0 <= j < |init| && report(init[j]).Failure? {
        var j :| 0 <= j < |init| && report(init[j]).Failure?;
        assert keys[j] == init[j];
      }
      if exists j :: 0 <= j < |keys| && report(keys[j]).Failure? {
        var j :| 0 <= j < |keys| && report(keys[j]).Failure?;
        if j < |init| {
          assert keys[j] == init[j];
        }
      }
      assert keys[|keys| - 1] == Last(keys);
    }
  }

  /** With distinct keys and a reporter that labels each record with its own
      key, no key is reported twice. */
  lemma {:induction false} CollectKeysDistinct(keys: seq<Key>, report: Reporter)
    requires forall i, j :: 0 <= i < j < |keys| ==> keys[i] != keys[j]
    requires forall i, rec :: 0 <= i < |keys| && report(keys[i]) == Success(Some(rec)) ==> RecordKey(rec) == keys[i]
    requires CollectRecords(keys, report).Success?
    ensures forall i, j :: 0 <= i < j < |CollectRecords(keys, report).value| ==>
      RecordKey(CollectRecords(keys, report).value[i]) != RecordKey(CollectRecords(keys, report).value[j])
  {
    if keys != [] {
      var init := Init(keys);
      var rs := CollectRecords(keys, report).value;
      var rs' := CollectRecords(init, report).value;
      assert forall i :: 0 <= i < |init| ==> init[i] == keys[i];
      CollectKeysDistinct(init, report);
      if |rs| > |rs'| {
        CollectSound(init, report);
        assert rs == rs' + [Last(rs)];
        assert RecordKey(Last(rs)) == Last(keys) by {
          assert keys[|keys| - 1] == Last(keys);
        }
        forall i | 0 <= i < |rs'|
          ensures RecordKey(rs'[i]) != Last(keys)
        {
          var n :| 0 <= n < |init| && report(init[n]) == Success(Some(rs'[i]));
          assert RecordKey(rs'[i]) == keys[n];
          assert keys[|keys| - 1] == Last(keys);
        }
      }
    }
  }

  /** A product's record carries the product's key. */
  lemma ProductReportKeyed(obs: seq<Obs>, isOutlier: Oracle, k: Key, rec: Record)
    requires ProductReport(obs, isOutlier)(k) == Success(Some(rec))
    ensures RecordKey(rec) == k && |GroupOf(obs, k)| >= MinObservations
  {
    RecordFields(k, GroupOf(obs, k), isOutlier, rec);
  }

  /** Only a zero median can make a product fail, so positive prices never
      do. */
  lemma EntityPositiveNoFailure(k: Key, group: seq<Obs>, isOutlier: Oracle)
    requires forall i :: 0 <= i < |group| ==> group[i].price > 0.0
    ensures DetectEntity(k, group, isOutlier).Success?
  {
    if |group| >= MinObservations {
      var l := Levels(group);
      forall i | 0 <= i < |l|
        ensures l[i] > 0.0
      {
        LevelsMembers(group, l[i]);
        var j :| 0 <= j < |Window(group)| && Window(group)[j].price == l[i];
        WindowMembers(group, Window(group)[j]);
      }
      var m := Median(l);
      var i :| 0 <= i < |l| && l[i] <= m;
    }
  }

  /** When every price is positive the report never fails. */
  lemma PositivePricesNeverFail(obs: seq<Obs>, keys: seq<Key>, isOutlier: Oracle)
    requires forall i :: 0 <= i < |obs| ==> obs[i].price > 0.0
    ensures CollectRecords(keys, ProductReport(obs, isOutlier)).Success?
  {
    var report := ProductReport(obs, isOutlier);
    CollectFailsIff(keys, report);
    forall j | 0 <= j < |keys|
      ensures report(keys[j]).Success?
    {
      var g := GroupOf(obs, keys[j]);
      forall i | 0 <= i < |g|
        ensures g[i].price > 0.0
      {
        var n :| 0 <= n < |obs| && obs[n] == g[i];
      }
      EntityPositiveNoFailure(keys[j], g, isOutlier);
    }
  }

  /** What the report contains: every record is the report of a product with
      at least three observations, no product appears twice, and every
      reported product is present. */
  lemma ReportContents(rows: seq<CsvRow>, isOutlier: Oracle)
    requires Anomalies(rows, isOutlier).Success?
    ensures var obs := LoadObservations(rows).value;
      var rs := Anomalies(rows, isOutlier).value;
      (forall i :: 0 <= i < |rs| ==>
        |GroupOf(obs, RecordKey(rs[i]))| >= MinObservations &&
        DetectEntity(RecordKey(rs[i]), GroupOf(obs, RecordKey(rs[i])), isOutlier) == Success(Some(rs[i]))) &&
      (forall i, j :: 0 <= i < j < |rs| ==> RecordKey(rs[i]) != RecordKey(rs[j])) &&
      (forall k, rec :: |GroupOf(obs, k)| > 0 && DetectEntity(k, GroupOf(obs, k), isOutlier) == Success(Some(rec)) ==>
        rec in rs)
  {
    var obs := LoadObservations(rows).value;
    ReportSound(obs, isOutlier);
    ReportKeysDistinct(obs, isOutlier);
    ReportComplete(obs, isOutlier);
  }

  lemma ReportSound(obs: seq<Obs>, isOutlier: Oracle)
    requires CollectRecords(Keys(obs), ProductReport(obs, isOutlier)).Success?
    ensures var rs := CollectRecords(Keys(obs), ProductReport(obs, isOutlier)).value;
      forall i :: 0 <= i < |rs| ==>
        |GroupOf(obs, RecordKey(rs[i]))| >= MinObservations &&
        DetectEntity(RecordKey(rs[i]), GroupOf(obs, RecordKey(rs[i])), isOutlier) == Success(Some(rs[i]))
  {
    var keys := Keys(obs);
    var report := ProductReport(obs, isOutlier);
    var rs := CollectRecords(keys, report).value;
    CollectSound(keys, report);
    forall i | 0 <= i < |rs|
      ensures |GroupOf(obs, RecordKey(rs[i]))| >= MinObservations &&
        DetectEntity(RecordKey(rs[i]), GroupOf(obs, RecordKey(rs[i])), isOutlier) == Success(Some(rs[i]))
    {
      var j :| 0 <= j < |keys| && report(keys[j]) == Success(Some(rs[i]));
      ProductReportKeyed(obs, isOutlier, keys[j], rs[i]);
    }
  }

  lemma ReportKeysDistinct(obs: seq<Obs>, isOutlier: Oracle)
    requires CollectRecords(Keys(obs), ProductReport(obs, isOutlier)).Success?
    ensures var rs := CollectRecords(Keys(obs), ProductReport(obs, isOutlier)).value;
      forall i, j :: 0 <= i < j < |rs| ==> RecordKey(rs[i]) != RecordKey(rs[j])
  {
    var keys := Keys(obs);
    var report := ProductReport(obs, isOutlier);
    forall i, rec | 0 <= i < |keys| && report(keys[i]) == Success(Some(rec))
      ensures RecordKey(rec) == keys[i]
    {
      ProductReportKeyed(obs, isOutlier, keys[i], rec);
    }
    CollectKeysDistinct(keys, report);
  }

  lemma ReportComplete(obs: seq<Obs>, isOutlier: Oracle)
    requires CollectRecords(Keys(obs), ProductReport(obs, isOutlier)).Success?
    ensures var rs := CollectRecords(Keys(obs), ProductReport(obs, isOutlier)).value;
      forall k, rec :: |GroupOf(obs, k)| > 0 && DetectEntity(k, GroupOf(obs, k), isOutlier) == Success(Some(rec)) ==>
        rec in rs
  {
    var keys := Keys(obs);
    var report := ProductReport(obs, isOutlier);
    var rs := CollectRecords(keys, report).value;
    forall k, rec | |GroupOf(obs, k)| > 0 && DetectEntity(k, GroupOf(obs, k), isOutlier) == Success(Some(rec))
      ensures rec in rs
    {
      KeysAreGroups(obs, k);
      var j :| 0 <= j < |keys| && keys[j] == k;
      CollectComplete(keys, report, j, rec);
    }
  }

  lemma CollectStep(keys: seq<Key>, i: nat, report: Reporter, rs: seq<Record>)
    requires i < |keys|
    requires CollectRecords(keys[..i], report) == Success(rs)
    ensures CollectRecords(keys[..i + 1], report) ==
      match report(keys[i])
      case Failure(e) => Failure(e)
      case Success(None) => Success(rs)
      case Success(Some(rec)) => Success(rs + [rec])
  {
    assert Init(keys[..i + 1]) == keys[..i];
  }

  lemma {:induction false} CollectFailurePersists(keys: seq<Key>, i: nat, report: Reporter, e: DetectError)
    requires i <= |keys|
    requires CollectRecords(keys[..i], report) == Failure(e)
    ensures CollectRecords(keys, report) == Failure(e)
    decreases |keys| - i
  {
    if i < |keys| {
      assert Init(keys[..i + 1]) == keys[..i];
      CollectFailurePersists(keys, i + 1, report, e);
    } else {
      assert keys[..i] == keys;
    }
  }

  /** get_anomalies: the anomaly report of the combined CSV. */
  method GetAnomalies(rows: seq<CsvRow>, isOutlier: Oracle) returns (r: Result<seq<Record>, DetectError>)
    ensures r == Anomalies(rows, isOutlier)
  {
    var loaded := LoadObservations(rows);
    if loaded.Failure? {
      return Failure(loaded.error);
    }
    var obs := loaded.value;
    var keys := Keys(obs);
    ghost var report := ProductReport(obs, isOutlier);
    var results: seq<Record> := [];
    var i := 0;
    while i < |keys|
      invariant 0 <= i <= |keys|
      invariant CollectRecords(keys[..i], report) == Success(results)
    {
      var key := keys[i];
      CollectStep(keys, i, report, results);
      var outcome := DetectEntity(key, GroupOf(obs, key), isOutlier);
      assert outcome == report(key);
      if outcome.Failure? {
        CollectFailurePersists(keys, i + 1, report, outcome.error);
        return Failure(outcome.error);
      }
      if outcome.value.Some? {
        results := results + [outcome.value.value];
      }
      i := i + 1;
    }
    assert keys[..i] == keys;
    return Success(results);
  }
}
