/*
 * `LSPeriodogram`: the segment list `tels`, the row selection and dictionary
 * layout of `compute_lsps`, the sort/crop/reference-value arithmetic of the
 * empirical false-alarm threshold, and the period filter over a posterior.
 * Lomb-Scargle powers, the frequency grid, the histogram fit, `ln` and `exp`
 * are foreign numerics: spectra are recorded as the calls that produce them,
 * and the fit and the transcendental functions are parameters.
 */
module Periodogram {
  import opened Tables
  import opened Harmonize

  // ---------------------------------------------------------------------------
  // `tels = np.unique(rv_data['tel'])`

  /** Lexicographic order on strings, by code point, as NumPy sorts them. */
  predicate LexLess(a: string, b: string)
    decreases |a|
  {
    |b| > 0 && (|a| == 0 || a[0] < b[0] || (a[0] == b[0] && LexLess(a[1..], b[1..])))
  }

  lemma {:induction false} LexLessIrreflexive(a: string)
    ensures !LexLess(a, a)
    decreases |a|
  {
    if |a| > 0 {
      LexLessIrreflexive(a[1..]);
    }
  }

  lemma {:induction false} LexLessTransitive(a: string, b: string, c: string)
    requires LexLess(a, b) && LexLess(b, c)
    ensures LexLess(a, c)
    decreases |a|
  {
    if |a| > 0 && a[0] == b[0] && b[0] == c[0] {
      LexLessTransitive(a[1..], b[1..], c[1..]);
    }
  }

  /** The position of a segment's label in ascending label order. */
  function LabelRank(s: Segment): nat
  {
    match s
    case HarpsPost => 0
    case HarpsPre => 1
    case HiresPost => 2
    case HiresPre => 3
  }

  /** A common prefix does not change the order. */
  lemma {:induction false} LexLessSharedPrefix(x: string, a: string, b: string)
    requires LexLess(a, b)
    ensures LexLess(x + a, x + b)
  {
    if x != [] {
      assert (x + a)[0] == x[0] == (x + b)[0];
      assert (x + a)[1..] == x[1..] + a;
      assert (x + b)[1..] == x[1..] + b;
      LexLessSharedPrefix(x[1..], a, b);
    } else {
      assert x + a == a && x + b == b;
    }
  }

  lemma HarpsPostBeforePre()
    ensures LexLess("harps_post", "harps_pre")
  {
    assert LexLess("ost", "re");
    LexLessSharedPrefix("harps_p", "ost", "re");
    assert "harps_p" + "ost" == "harps_post" && "harps_p" + "re" == "harps_pre";
  }

  lemma HarpsBeforeHires()
    ensures LexLess("harps_pre", "hires_post")
  {
    assert LexLess("arps_pre", "ires_post");
    LexLessSharedPrefix("h", "arps_pre", "ires_post");
    assert "h" + "arps_pre" == "harps_pre" && "h" + "ires_post" == "hires_post";
  }

  lemma HiresPostBeforePre()
    ensures LexLess("hires_post", "hires_pre")
  {
    assert LexLess("ost", "re");
    LexLessSharedPrefix("hires_p", "ost", "re");
    assert "hires_p" + "ost" == "hires_post" && "hires_p" + "re" == "hires_pre";
  }

  /** The labels in ascending order: harps_post, harps_pre, hires_post, hires_pre. */
  lemma LabelOrderAdjacent()
    ensures LexLess(Label(HarpsPost), Label(HarpsPre))
    ensures LexLess(Label(HarpsPre), Label(HiresPost))
    ensures LexLess(Label(HiresPost), Label(HiresPre))
  {
    HarpsPostBeforePre();
    HarpsBeforeHires();
    HiresPostBeforePre();
  }

  /** Ranking segments by `LabelRank` is ranking their labels lexicographically. */
  lemma LabelRankIsLexicographic(s: Segment, t: Segment)
    ensures LabelRank(s) < LabelRank(t) <==> LexLess(Label(s), Label(t))
  {
    LabelOrderAdjacent();
    var a, b, c, d := Label(HarpsPost), Label(HarpsPre), Label(HiresPost), Label(HiresPre);
    LexLessTransitive(a, b, c);
    LexLessTransitive(a, c, d);
    LexLessTransitive(b, c, d);
    LexLessIrreflexive(Label(s));
    if LabelRank(t) < LabelRank(s) {
      if LexLess(Label(s), Label(t)) {
        LexLessTransitive(Label(t), Label(s), Label(t));
        LexLessIrreflexive(Label(t));
        assert false;
      }
    }
  }

  /** The `tel` column of a table. */
  function TelColumn(rows: seq<Row>): seq<Segment>
  {
    seq(|rows|, i requires 0 <= i < |rows| => rows[i].meas.tel)
  }

  /** A segment occurs in the `tel` column exactly when some row carries it. */
  lemma TelColumnMembers(rows: seq<Row>, s: Segment)
    ensures s in TelColumn(rows) <==> exists i :: 0 <= i < |rows| && rows[i].meas.tel == s
  {
    var col := TelColumn(rows);
    if s in col {
      var i :| 0 <= i < |col| && col[i] == s;
      assert rows[i].meas.tel == s;
    }
    if exists i :: 0 <= i < |rows| && rows[i].meas.tel == s {
      var i :| 0 <= i < |rows| && rows[i].meas.tel == s;
      assert col[i] == s;
    }
  }

  /** The segments in ascending label order. */
  const LabelOrder: seq<Segment> := [HarpsPost, HarpsPre, HiresPost, HiresPre]

  /** Labels strictly ascend along `segs`. */
  predicate LabelsAscending(segs: seq<Segment>)
  {
    forall i, j :: 0 <= i < j < |segs| ==> LexLess(Label(segs[i]), Label(segs[j]))
  }

  lemma LabelOrderComplete(s: Segment)
    ensures s in LabelOrder
  {
    if s == HarpsPost {
      assert LabelOrder[0] == s;
    } else if s == HarpsPre {
      assert LabelOrder[1] == s;
    } else if s == HiresPost {
      assert LabelOrder[2] == s;
    } else {
      assert LabelOrder[3] == s;
    }
  }

  lemma LabelOrderAscending()
    ensures LabelsAscending(LabelOrder)
  {
    forall i, j | 0 <= i < j < |LabelOrder| ensures LexLess(Label(LabelOrder[i]), Label(LabelOrder[j])) {
      LabelRankIsLexicographic(LabelOrder[i], LabelOrder[j]);
    }
  }

  /** The segments of `order` that occur in `col`, in the order of `order`. */
  function Present(order: seq<Segment>, col: seq<Segment>): seq<Segment>
  {
    if order == [] then []
    else (if order[0] in col then [order[0]] else []) + Present(order[1..], col)
  }

  lemma {:induction false} PresentMembers(order: seq<Segment>, col: seq<Segment>)
    ensures forall s :: s in Present(order, col) <==> s in order && s in col
  {
    if order != [] {
      PresentMembers(order[1..], col);
      assert order == [order[0]] + order[1..];
    }
  }

  lemma AscendingTail(segs: seq<Segment>)
    requires segs != [] && LabelsAscending(segs)
    ensures LabelsAscending(segs[1..])
    ensures forall y :: y in segs[1..] ==> LexLess(Label(segs[0]), Label(y))
  {
    forall i, j | 0 <= i < j < |segs[1..]| ensures LexLess(Label(segs[1..][i]), Label(segs[1..][j])) {
      assert segs[1..][i] == segs[i + 1] && segs[1..][j] == segs[j + 1];
    }
    forall y | y in segs[1..] ensures LexLess(Label(segs[0]), Label(y)) {
      var k :| 0 <= k < |segs[1..]| && segs[1..][k] == y;
      assert segs[k + 1] == y;
    }
  }

  lemma AscendingCons(x: Segment, rest: seq<Segment>)
    requires LabelsAscending(rest)
    requires forall y :: y in rest ==> LexLess(Label(x), Label(y))
    ensures LabelsAscending([x] + rest)
  {
    var u := [x] + rest;
    forall i, j | 0 <= i < j < |u| ensures LexLess(Label(u[i]), Label(u[j])) {
      if i == 0 {
        assert u[j] == rest[j - 1];
      } else {
        assert u[i] == rest[i - 1] && u[j] == rest[j - 1];
      }
    }
  }

  lemma {:induction false} PresentAscending(order: seq<Segment>, col: seq<Segment>)
    requires LabelsAscending(order)
    ensures LabelsAscending(Present(order, col))
  {
    if order != [] {
      AscendingTail(order);
      PresentAscending(order[1..], col);
      if order[0] in col {
        PresentMembers(order[1..], col);
        AscendingCons(order[0], Present(order[1..], col));
      }
    }
  }

  /** `np.unique` of a column of labels: each label present, once, in
      ascending order. */
  function Unique(col: seq<Segment>): (u: seq<Segment>)
    ensures forall s :: s in u <==> s in col
    ensures LabelsAscending(u)
  {
    PresentMembers(LabelOrder, col);
    forall s ensures s in LabelOrder {
      LabelOrderComplete(s);
    }
    LabelOrderAscending();
    PresentAscending(LabelOrder, col);
    Present(LabelOrder, col)
  }

  /** `np.unique(rv_data['tel'])`: the segments present, once each, in
      ascending label order. */
  function Tels(rows: seq<Row>): (tels: seq<Segment>)
    ensures forall s :: s in tels <==> exists i :: 0 <= i < |rows| && rows[i].meas.tel == s
    ensures LabelsAscending(tels)
  {
    forall s ensures s in TelColumn(rows) <==> exists i :: 0 <= i < |rows| && rows[i].meas.tel == s {
      TelColumnMembers(rows, s);
    }
    Unique(TelColumn(rows))
  }

  // ---------------------------------------------------------------------------
  // `compute_lsps`

  /** The rows of one segment, `df.loc[df['tel'] == tel]`, in table order. */
  function OfTel(rows: seq<Row>, tel: Segment): seq<Row>
  {
    if rows == [] then []
    else (if rows[0].meas.tel == tel then [rows[0]] else []) + OfTel(rows[1..], tel)
  }

  /** The series has at least one row of the segment. */
  predicate HasRows(rows: seq<Row>, tel: Segment)
  {
    OfTel(rows, tel) != []
  }

  /** A segment's rows are exactly the rows stamped with it. */
  lemma {:induction false} OfTelMembers(rows: seq<Row>, tel: Segment)
    ensures forall row :: row in OfTel(rows, tel) <==> row in rows && row.meas.tel == tel
  {
    if rows != [] {
      OfTelMembers(rows[1..], tel);
      assert rows == [rows[0]] + rows[1..];
    }
  }

  /** `np.ptp(df['jd'])`. */
  function Span(rows: seq<Row>): real
    requires |rows| > 0
  {
    MaxOf(Times(rows)) - MinOf(Times(rows))
  }

  /** `np.arange(1/max_per, 1/min_per, delta_f)`, kept as its arguments. */
  datatype FrequencyGrid = FrequencyGrid(maxPer: real, minPer: real, deltaF: real)

  /** `LombScargle(t, y, dy, fit_mean, center_data).power(grid)`, kept as the call. */
  datatype Spectrum = LombScargle(t: seq<real>, y: seq<real>, dy: Option<seq<real>>, fitMean: bool,
                                  centerData: bool, grid: FrequencyGrid)

  /** One dictionary entry; only per-segment entries carry a window spectrum. */
  datatype LspEntry = LspEntry(frequency: FrequencyGrid, rvPower: Spectrum, svalPower: Spectrum,
                               windowfnPower: Option<Spectrum>)

  /** Why `compute_lsps` raises: `np.ptp` of an empty column, or a grid that
      `np.arange` cannot build, for the combined series (`None`) or a segment. */
  datatype LspError = EmptyRvSeries | EmptySegment(tel: Segment) | NoGrid(of: Option<Segment>)

  /** The grid of a non-empty series cannot be built: a zero time span makes
      `1/max_per` infinite, a zero `min_per` divides by zero, and a zero
      `delta_f` leaves `np.arange` no length to compute. */
  predicate GridFails(rows: seq<Row>, minPer: real, deltaF: real)
    requires rows != []
  {
    Span(rows) == 0.0 || minPer == 0.0 || deltaF == 0.0
  }

  /** The grid of a series: longest period one and a half times its time span. */
  function GridOf(rows: seq<Row>, minPer: real, deltaF: real): FrequencyGrid
    requires |rows| > 0
  {
    FrequencyGrid(1.5 * Span(rows), minPer, deltaF)
  }

  /** The power of a series' values with their uncertainties, defaults otherwise. */
  function PowerOf(rows: seq<Row>, grid: FrequencyGrid): Spectrum
  {
    LombScargle(Times(rows), Values(rows), Some(Errs(rows)), true, true, grid)
  }

  /** `np.ones(n)`. */
  function Ones(n: nat): seq<real>
  {
    seq(n, i => 1.0)
  }

  /** The window function: unit values at the series' times, no mean fit, no centring. */
  function WindowOf(rows: seq<Row>, grid: FrequencyGrid): Spectrum
  {
    LombScargle(Times(rows), Ones(|rows|), None, false, false, grid)
  }

  /** The entry of one segment: its RV and S-index rows only, on a grid from
      its RV span, with the window of its RV times. */
  function SegmentEntry(rvs: seq<Row>, svals: seq<Row>, tel: Segment, minPer: real, deltaF: real): LspEntry
    requires HasRows(rvs, tel)
  {
    var grid := GridOf(OfTel(rvs, tel), minPer, deltaF);
    LspEntry(grid, PowerOf(OfTel(rvs, tel), grid), PowerOf(OfTel(svals, tel), grid),
             Some(WindowOf(OfTel(rvs, tel), grid)))
  }

  /** The entry of the combined series, on the grid of all RV times. */
  function AllEntry(rvs: seq<Row>, svals: seq<Row>, minPer: real, deltaF: real): LspEntry
    requires rvs != []
  {
    var grid := GridOf(rvs, minPer, deltaF);
    LspEntry(grid, PowerOf(rvs, grid), PowerOf(svals, grid), None)
  }

  /** The loop of `compute_lsps` raises at segment `tel`. */
  predicate SegmentFails(rvs: seq<Row>, tel: Segment, minPer: real, deltaF: real)
  {
    !HasRows(rvs, tel) || GridFails(OfTel(rvs, tel), minPer, deltaF)
  }

  /** The cases in which `compute_lsps` raises. */
  predicate LspsFail(rvs: seq<Row>, tels: seq<Segment>, minPer: real, deltaF: real)
  {
    || rvs == []
    || GridFails(rvs, minPer, deltaF)
    || exists i :: 0 <= i < |tels| && SegmentFails(rvs, tels[i], minPer, deltaF)
  }

  /** `d` is the dictionary `compute_lsps` builds: key `'all'` plus one key per
      segment label, each with its entry. */
  predicate IsLspDict(d: map<string, LspEntry>, rvs: seq<Row>, svals: seq<Row>, tels: seq<Segment>,
                      minPer: real, deltaF: real)
    requires !LspsFail(rvs, tels, minPer, deltaF)
  {
    && d.Keys == {"all"} + (set i | 0 <= i < |tels| :: Label(tels[i]))
    && d["all"] == AllEntry(rvs, svals, minPer, deltaF)
    && forall i :: 0 <= i < |tels| ==> d[Label(tels[i])] == SegmentEntry(rvs, svals, tels[i], minPer, deltaF)
  }

  lemma LabelsDiffer(s: Segment, t: Segment)
    ensures Label(s) != "all"
    ensures Label(s) == Label(t) ==> s == t
  {
    if Label(s) == Label(t) && s != t {
      LabelRankIsLexicographic(s, t);
      LabelRankIsLexicographic(t, s);
      LexLessIrreflexive(Label(s));
    }
  }

  /** `base` with `entry(tel)` stored under the label of each of `tels`, in
      order; a later store under the same key replaces an earlier one. */
  function Updated<V>(base: map<string, V>, tels: seq<Segment>, entry: Segment --> V): map<string, V>
    requires forall i :: 0 <= i < |tels| ==> entry.requires(tels[i])
  {
    if tels == [] then base
    else
      var last := tels[|tels| - 1];
      Updated(base, tels[..|tels| - 1], entry)[Label(last) := entry(last)]
  }

  lemma {:induction false} UpdatedEntries<V>(base: map<string, V>, tels: seq<Segment>, entry: Segment --> V)
    requires forall i :: 0 <= i < |tels| ==> entry.requires(tels[i])
    requires "all" in base
    ensures Updated(base, tels, entry).Keys == base.Keys + (set i | 0 <= i < |tels| :: Label(tels[i]))
    ensures Updated(base, tels, entry)["all"] == base["all"]
    ensures forall i :: 0 <= i < |tels| ==> Updated(base, tels, entry)[Label(tels[i])] == entry(tels[i])
  {
    if tels != [] {
      var init, last := tels[..|tels| - 1], tels[|tels| - 1];
      assert forall i :: 0 <= i < |init| ==> init[i] == tels[i];
      UpdatedEntries(base, init, entry);
      var prev := Updated(base, init, entry);
      assert Updated(base, tels, entry) == prev[Label(last) := entry(last)];
      LabelsDiffer(last, last);
      LabelSetSnoc(tels, init);
      forall i | 0 <= i < |tels| ensures Updated(base, tels, entry)[Label(tels[i])] == entry(tels[i]) {
        LabelsDiffer(tels[i], last);
        if i < |init| && tels[i] != last {
          assert prev[Label(init[i])] == entry(init[i]);
        }
      }
    }
  }

  /** The labels of `tels` are those of all but its last element, plus the last. */
  lemma LabelSetSnoc(tels: seq<Segment>, init: seq<Segment>)
    requires tels != [] && init == tels[..|tels| - 1]
    ensures (set i | 0 <= i < |tels| :: Label(tels[i]))
         == (set i | 0 <= i < |init| :: Label(init[i])) + {Label(tels[|tels| - 1])}
  {
    forall i | 0 <= i < |tels| ensures Label(tels[i]) in (set i | 0 <= i < |init| :: Label(init[i])) + {Label(tels[|tels| - 1])} {
      if i < |init| {
        assert Label(tels[i]) == Label(init[i]);
      }
    }
  }

  /** The entry of each segment, defined where the segment has RV rows. */
  function SegmentEntries(rvs: seq<Row>, svals: seq<Row>, minPer: real, deltaF: real): Segment --> LspEntry
  {
    tel requires HasRows(rvs, tel) => SegmentEntry(rvs, svals, tel, minPer, deltaF)
  }

  lemma UpdatedStep<V>(base: map<string, V>, tels: seq<Segment>, i: int, entry: Segment --> V)
    requires 0 <= i < |tels| && forall k :: 0 <= k <= i ==> entry.requires(tels[k])
    ensures Updated(base, tels[..i + 1], entry) == Updated(base, tels[..i], entry)[Label(tels[i]) := entry(tels[i])]
  {
    assert tels[..i + 1][..i] == tels[..i];
  }

  /** The dictionary after the loop of `compute_lsps` has stored the entries of
      the first `i` segments. */
  function LspDictPrefix(rvs: seq<Row>, svals: seq<Row>, tels: seq<Segment>, i: nat, minPer: real, deltaF: real)
    : map<string, LspEntry>
    requires rvs != [] && i <= |tels| && forall k :: 0 <= k < i ==> HasRows(rvs, tels[k])
  {
    Updated(map["all" := AllEntry(rvs, svals, minPer, deltaF)], tels[..i], SegmentEntries(rvs, svals, minPer, deltaF))
  }

  /** One iteration stores the next segment's entry. */
  lemma LspDictStep(rvs: seq<Row>, svals: seq<Row>, tels: seq<Segment>, i: nat, minPer: real, deltaF: real)
    requires rvs != [] && i < |tels| && forall k :: 0 <= k <= i ==> HasRows(rvs, tels[k])
    ensures LspDictPrefix(rvs, svals, tels, i + 1, minPer, deltaF) ==
      LspDictPrefix(rvs, svals, tels, i, minPer, deltaF)[Label(tels[i]) := SegmentEntry(rvs, svals, tels[i], minPer, deltaF)]
  {
    UpdatedStep(map["all" := AllEntry(rvs, svals, minPer, deltaF)], tels, i, SegmentEntries(rvs, svals, minPer, deltaF));
  }

  /** Storing each segment's entry over the combined one gives the dictionary. */
  lemma EntriesMakeLspDict(rvs: seq<Row>, svals: seq<Row>, tels: seq<Segment>, minPer: real, deltaF: real)
    requires !LspsFail(rvs, tels, minPer, deltaF)
    ensures IsLspDict(LspDictPrefix(rvs, svals, tels, |tels|, minPer, deltaF), rvs, svals, tels, minPer, deltaF)
  {
    assert tels[..|tels|] == tels;
    UpdatedEntries(map["all" := AllEntry(rvs, svals, minPer, deltaF)], tels, SegmentEntries(rvs, svals, minPer, deltaF));
  }

  /** `tel` is where the loop of `compute_lsps` raises: the first listed
      segment that fails. */
  predicate FirstFailing(rvs: seq<Row>, tels: seq<Segment>, tel: Segment, minPer: real, deltaF: real)
  {
    exists i :: 0 <= i < |tels| && tels[i] == tel && SegmentFails(rvs, tels[i], minPer, deltaF) &&
      forall k :: 0 <= k < i ==> !SegmentFails(rvs, tels[k], minPer, deltaF)
  }

  /** `compute_lsps` without its final field assignment. */
  method BuildLspDict(rvs: seq<Row>, svals: seq<Row>, tels: seq<Segment>, minPer: real, deltaF: real)
    returns (r: Result<map<string, LspEntry>, LspError>)
    ensures r.Failure? <==> LspsFail(rvs, tels, minPer, deltaF)
    ensures r.Failure? && rvs == [] ==> r.error == EmptyRvSeries
    ensures r.Failure? && rvs != [] && GridFails(rvs, minPer, deltaF) ==> r.error == NoGrid(None)
    ensures r.Failure? && rvs != [] && !GridFails(rvs, minPer, deltaF) ==>
      r.error.EmptySegment? || (r.error.NoGrid? && r.error.of.Some?)
    ensures r.Failure? && r.error.EmptySegment? ==> FirstFailing(rvs, tels, r.error.tel, minPer, deltaF) && !HasRows(rvs, r.error.tel)
    ensures r.Failure? && r.error.NoGrid? && r.error.of.Some? ==> FirstFailing(rvs, tels, r.error.of.value, minPer, deltaF) && HasRows(rvs, r.error.of.value)
    ensures r.Success? ==> IsLspDict(r.value, rvs, svals, tels, minPer, deltaF)
  {
    if rvs == [] {
      return Failure(EmptyRvSeries);
    }
    if GridFails(rvs, minPer, deltaF) {
      return Failure(NoGrid(None));
    }
    var d := map["all" := AllEntry(rvs, svals, minPer, deltaF)];
    assert tels[..0] == [];
    var i := 0;
    while i < |tels|
      invariant 0 <= i <= |tels|
      invariant forall k :: 0 <= k < i ==> !SegmentFails(rvs, tels[k], minPer, deltaF)
      invariant forall k :: 0 <= k < i ==> HasRows(rvs, tels[k])
      invariant d == LspDictPrefix(rvs, svals, tels, i, minPer, deltaF)
    {
      var tel := tels[i];
      if !HasRows(rvs, tel) {
        assert SegmentFails(rvs, tels[i], minPer, deltaF);
        return Failure(EmptySegment(tel));
      }
      if GridFails(OfTel(rvs, tel), minPer, deltaF) {
        assert SegmentFails(rvs, tels[i], minPer, deltaF);
        return Failure(NoGrid(Some(tel)));
      }
      LspDictStep(rvs, svals, tels, i, minPer, deltaF);
      d := d[Label(tel) := SegmentEntry(rvs, svals, tel, minPer, deltaF)];
      i := i + 1;
    }
    EntriesMakeLspDict(rvs, svals, tels, minPer, deltaF);
    return Success(d);
  }

  /** A one-row series has zero time span, so `compute_lsps` raises on it. */
  lemma OneRowHasNoGrid(row: Row, tels: seq<Segment>, minPer: real, deltaF: real)
    ensures GridFails([row], minPer, deltaF)
    ensures LspsFail([row], tels, minPer, deltaF)
  {
    assert Times([row]) == [row.meas.jd];
  }

  /** Every segment of `np.unique(rv_data['tel'])` has rows, so on the
      instance's own segment list the loop never meets an empty column. */
  lemma TelsHaveRows(rvs: seq<Row>)
    ensures forall i :: 0 <= i < |Tels(rvs)| ==> HasRows(rvs, Tels(rvs)[i])
  {
    forall i | 0 <= i < |Tels(rvs)| ensures HasRows(rvs, Tels(rvs)[i]) {
      var tel := Tels(rvs)[i];
      assert tel in Tels(rvs);
      var j :| 0 <= j < |rvs| && rvs[j].meas.tel == tel;
      OfTelMembers(rvs, tel);
      assert rvs[j] in OfTel(rvs, tel);
    }
  }

  /** A segment's entry reads only that segment's rows (see `OfTelMembers`):
      its RV and S-index spectra share the grid of its RV times, and its
      window has one unit value per RV row, without mean fit or centring. */
  lemma SegmentEntryFacts(rvs: seq<Row>, svals: seq<Row>, tel: Segment, minPer: real, deltaF: real)
    requires HasRows(rvs, tel)
    ensures var e, seg, sseg := SegmentEntry(rvs, svals, tel, minPer, deltaF), OfTel(rvs, tel), OfTel(svals, tel);
      && e.rvPower.t == Times(seg) && e.rvPower.y == Values(seg) && e.rvPower.dy == Some(Errs(seg))
      && e.svalPower.t == Times(sseg) && e.svalPower.y == Values(sseg) && e.svalPower.dy == Some(Errs(sseg))
      && e.frequency == e.rvPower.grid == e.svalPower.grid == GridOf(seg, minPer, deltaF)
      && e.frequency.maxPer == 1.5 * (MaxOf(Times(seg)) - MinOf(Times(seg)))
      && e.windowfnPower.Some?
      && e.windowfnPower.value.grid == e.frequency
      && e.windowfnPower.value.t == Times(seg)
      && |e.windowfnPower.value.y| == |seg|
      && (forall k :: 0 <= k < |seg| ==> e.windowfnPower.value.y[k] == 1.0)
      && !e.windowfnPower.value.fitMean && !e.windowfnPower.value.centerData
  {
  }

  /** The combined entry covers every row of both series, on the grid of all
      RV times, and has no window. */
  lemma AllEntryFacts(rvs: seq<Row>, svals: seq<Row>, minPer: real, deltaF: real)
    requires rvs != []
    ensures var e := AllEntry(rvs, svals, minPer, deltaF);
      && e.windowfnPower.None?
      && e.rvPower.t == Times(rvs) && e.svalPower.t == Times(svals)
      && e.frequency == e.rvPower.grid == e.svalPower.grid == GridOf(rvs, minPer, deltaF)
  {
  }

  // ---------------------------------------------------------------------------
  // `compute_fap_thresh`

  /** The crop `sorted[n/2 : int(0.95 n)]`. */
  function CropStart(n: nat): nat { n / 2 }
  function CropEnd(n: nat): nat { (95 * n) / 100 }

  /** The crop is non-empty exactly when there are at least three powers. */
  lemma CropNonEmptyIff(n: nat)
    ensures CropStart(n) < CropEnd(n) <==> n >= 3
    ensures CropEnd(n) <= n
  {
    var lo, hi := CropStart(n), CropEnd(n);
    assert 2 * lo <= n < 2 * lo + 2;
    assert 100 * hi <= 95 * n < 100 * hi + 100;
  }

  /** The sorted powers, the crop and its first element `power_med`. */
  datatype Tail = Tail(sorted: seq<real>, crop: seq<real>, median: real)

  datatype FapError = EmptyCrop

  /** Sort, crop and take the reference value; an empty crop is the
      `IndexError` of `power_crop[0]`. */
  function TailOf(power: seq<real>): (r: Result<Tail, FapError>)
    ensures r.Failure? <==> |power| <= 2
  {
    var n := |power|;
    CropNonEmptyIff(n);
    var sorted := SortBy(power, Identity);
    assert |sorted| == |multiset(sorted)| == n;
    if CropStart(n) < CropEnd(n) then
      var crop := sorted[CropStart(n)..CropEnd(n)];
      Success(Tail(sorted, crop, crop[0]))
    else
      Failure(EmptyCrop)
  }

  /** The sorted powers are a sorted permutation of the powers whose last
      element is the largest power; the crop is the 50th to 95th percentile
      slice; its first element is no larger than anything cropped and no
      smaller than anything below it. */
  lemma TailFacts(power: seq<real>)
    requires |power| >= 3
    ensures var n, tail := |power|, TailOf(power).value;
      && |tail.sorted| == n
      && SortedBy(tail.sorted, Identity)
      && multiset(tail.sorted) == multiset(power)
      && tail.crop == tail.sorted[CropStart(n)..CropEnd(n)]
      && tail.median == tail.sorted[CropStart(n)]
      && (forall x :: x in tail.crop ==> tail.median <= x)
      && (forall k :: 0 <= k < CropStart(n) ==> tail.sorted[k] <= tail.median)
      && tail.sorted[n - 1] == MaxOf(power)
  {
    var n := |power|;
    CropNonEmptyIff(n);
    var sorted := SortBy(power, Identity);
    assert |sorted| == |multiset(sorted)| == n;
    SortedLastIsMax(power, sorted);
    SortedSliceBounds(sorted, CropStart(n), CropEnd(n));
  }

  /** In a sorted sequence, the first element of a non-empty slice bounds the
      slice from below and everything before it from above. */
  lemma SortedSliceBounds(sorted: seq<real>, lo: nat, hi: nat)
    requires lo < hi <= |sorted| && SortedBy(sorted, Identity)
    ensures forall x :: x in sorted[lo..hi] ==> sorted[lo] <= x
    ensures forall k :: 0 <= k < lo ==> sorted[k] <= sorted[lo]
  {
    var crop := sorted[lo..hi];
    forall x | x in crop ensures sorted[lo] <= x {
      var j :| 0 <= j < |crop| && crop[j] == x;
      if j > 0 {
        assert Identity(sorted[lo]) <= Identity(sorted[lo + j]);
      }
    }
    forall k | 0 <= k < lo ensures sorted[k] <= sorted[lo] {
      assert Identity(sorted[k]) <= Identity(sorted[lo]);
    }
  }

  /** `power_crop - power_med`. */
  function Shifted(xs: seq<real>, c: real): seq<real>
  {
    seq(|xs|, i requires 0 <= i < |xs| => xs[i] - c)
  }

  /** What the histogram is fitted to: one value per cropped power, none
      negative, the first zero. */
  lemma ShiftedCropFacts(power: seq<real>)
    requires |power| >= 3
    ensures var tail := TailOf(power).value; var shifted := Shifted(tail.crop, tail.median);
      && |shifted| == |tail.crop| > 0
      && shifted[0] == 0.0
      && forall i :: 0 <= i < |shifted| ==> shifted[i] >= 0.0
  {
    TailFacts(power);
    var tail := TailOf(power).value;
    forall i | 0 <= i < |tail.crop| ensures tail.crop[i] - tail.median >= 0.0 {
      assert tail.crop[i] in tail.crop;
    }
  }

  /** A real value, or the infinity/NaN that a division by zero gives. */
  datatype Extended = Finite(x: real) | NonFinite

  datatype FapThresh = FapThresh(powerThresh: Extended, fapMin: real)

  /** The fitted decay rate `A = -a ln 10`, where `a` is the slope that the
      histogram fit `slope` returns for the shifted crop. */
  function DecayRate(tail: Tail, slope: seq<real> -> real, ln: real -> real): real
  {
    -slope(Shifted(tail.crop, tail.median)) * ln(10.0)
  }

  /** `ln(fap / n) / (-A) + power_med`; a zero rate divides by zero, which
      NumPy turns into an infinity or NaN. */
  function Threshold(fap: real, n: real, a: real, median: real, ln: real -> real): Extended
    requires n > 0.0
  {
    if a == 0.0 then NonFinite else Finite(ln(fap / n) / (-a) + median)
  }

  /** `exp(-A (top - power_med)) * n`. */
  function FapMin(a: real, top: real, median: real, n: real, exp: real -> real): real
  {
    exp(-a * (top - median)) * n
  }

  /** `compute_fap_thresh(power, fap)`: the power at which the fitted tail
      predicts false-alarm probability `fap` over `len(power)` frequencies,
      and the probability the fit gives the largest power. Both are taken
      relative to the reference value of the crop. */
  function ComputeFapThresh(power: seq<real>, fap: real, slope: seq<real> -> real, ln: real -> real,
                            exp: real -> real): (r: Result<FapThresh, FapError>)
    ensures r.Failure? <==> |power| <= 2
    ensures r.Success? ==>
      var tail, n := TailOf(power).value, |power| as real;
      var a := DecayRate(tail, slope, ln);
      && r.value.powerThresh == Threshold(fap, n, a, tail.median, ln)
      && r.value.fapMin == FapMin(a, MaxOf(power), tail.median, n, exp)
  {
    match TailOf(power)
    case Failure(e) => Failure(e)
    case Success(tail) =>
      TailFacts(power);
      var n := |power| as real;
      var a := DecayRate(tail, slope, ln);
      Success(FapThresh(Threshold(fap, n, a, tail.median, ln), FapMin(a, tail.sorted[|power| - 1], tail.median, n, exp)))
  }

  lemma DivisionKeepsOrder(x: real, y: real, a: real)
    requires a > 0.0 && x < y
    ensures x / a < y / a
  {
    var d := y / a - x / a;
    assert d * a == y - x;
  }

  /** With a positive decay rate and an increasing `ln`, the threshold is
      finite and strictly decreasing in `fap`. */
  lemma ThresholdDecreasing(fap1: real, fap2: real, n: real, a: real, median: real, ln: real -> real)
    requires n > 0.0 && a > 0.0 && 0.0 < fap1 < fap2
    requires forall x, y :: 0.0 < x < y ==> ln(x) < ln(y)
    ensures Threshold(fap1, n, a, median, ln).Finite? && Threshold(fap2, n, a, median, ln).Finite?
    ensures Threshold(fap1, n, a, median, ln).x > Threshold(fap2, n, a, median, ln).x
  {
    DivisionKeepsOrder(fap1, fap2, n);
    var l1, l2 := ln(fap1 / n), ln(fap2 / n);
    DivisionKeepsOrder(l1, l2, a);
    assert l1 / (-a) == -(l1 / a) && l2 / (-a) == -(l2 / a);
  }

  /** For a decaying tail, a smaller false-alarm probability demands a
      strictly larger power. */
  lemma ThresholdDecreasesInFap(power: seq<real>, fap1: real, fap2: real, slope: seq<real> -> real,
                                ln: real -> real, exp: real -> real)
    requires |power| >= 3 && 0.0 < fap1 < fap2
    requires forall x, y :: 0.0 < x < y ==> ln(x) < ln(y)
    requires DecayRate(TailOf(power).value, slope, ln) > 0.0
    ensures ComputeFapThresh(power, fap1, slope, ln, exp).Success?
    ensures ComputeFapThresh(power, fap2, slope, ln, exp).Success?
    ensures ComputeFapThresh(power, fap1, slope, ln, exp).value.powerThresh.Finite?
    ensures ComputeFapThresh(power, fap2, slope, ln, exp).value.powerThresh.Finite?
    ensures ComputeFapThresh(power, fap1, slope, ln, exp).value.powerThresh.x >
            ComputeFapThresh(power, fap2, slope, ln, exp).value.powerThresh.x
  {
    var tail := TailOf(power).value;
    ThresholdDecreasing(fap1, fap2, |power| as real, DecayRate(tail, slope, ln), tail.median, ln);
  }

  // ---------------------------------------------------------------------------
  // `get_periods_from_posterior`

  /** A fitted parameter of a radvel posterior. */
  datatype Param = Param(name: string, value: real)

  /** A posterior, reduced to its parameters in `list_params()` order. */
  datatype Posterior = Posterior(params: seq<Param>)

  /** `name.startswith('per')`. */
  predicate IsPeriodName(name: string)
  {
    |name| >= 3 && name[..3] == "per"
  }

  /** The values of the period parameters, in parameter order. */
  function PeriodValues(ps: seq<Param>): seq<real>
  {
    if ps == [] then []
    else
      var last := ps[|ps| - 1];
      PeriodValues(ps[..|ps| - 1]) + (if IsPeriodName(last.name) then [last.value] else [])
  }

  /** The filter keeps exactly the period parameters' values... */
  lemma {:induction false} PeriodValuesMembers(ps: seq<Param>)
    ensures forall v :: v in PeriodValues(ps) <==> exists i :: 0 <= i < |ps| && IsPeriodName(ps[i].name) && ps[i].value == v
  {
    if ps != [] {
      var init := ps[..|ps| - 1];
      PeriodValuesMembers(init);
      assert forall i :: 0 <= i < |init| ==> init[i] == ps[i];
    }
  }

  /** ...and keeps their order: filtering a concatenation concatenates the
      filtered parts. */
  lemma {:induction false} PeriodValuesAppend(ps: seq<Param>, qs: seq<Param>)
    ensures PeriodValues(ps + qs) == PeriodValues(ps) + PeriodValues(qs)
    decreases |qs|
  {
    if qs == [] {
      assert ps + qs == ps;
    } else {
      var init := qs[..|qs| - 1];
      PeriodValuesAppend(ps, init);
      assert (ps + qs)[..|ps + qs| - 1] == ps + init;
    }
  }

  /** The loop of `get_periods_from_posterior`, given the loaded posterior, or
      None when the file is missing. */
  method PeriodsFromPosterior(post: Option<Posterior>) returns (r: Option<seq<real>>)
    ensures post.None? ==> r.None?
    ensures post.Some? ==> (r.None? <==> PeriodValues(post.value.params) == [])
    ensures r.Some? ==> post.Some? && r.value == PeriodValues(post.value.params)
  {
    if post.None? {
      return None;
    }
    var params := post.value.params;
    var periods: seq<real> := [];
    var i := 0;
    while i < |params|
      invariant 0 <= i <= |params|
      invariant periods == PeriodValues(params[..i])
    {
      assert params[..i + 1][..i] == params[..i];
      if IsPeriodName(params[i].name) {
        periods := periods + [params[i].value];
      }
      i := i + 1;
    }
    assert params[..|params|] == params;
    if |periods| > 0 {
      return Some(periods);
    }
    return None;
  }

  /** Where the search stored its final posterior. */
  function PosteriorPath(outputDir: string): string
  {
    outputDir + "/RV_search/post_final.pkl"
  }

  // ---------------------------------------------------------------------------
  // The periodogram object

  class LSPeriodogram {
    const data: StarData
    const outputDir: string
    const binSize: real
    const tels: seq<Segment>
    var lspDict: Option<map<string, LspEntry>>

    /** `__init__`: the segment list of the star's RV series; no spectra yet. */
    constructor (data: StarData, outputDir: string, binSize: real)
      requires data.rvData.Some?
      ensures this.data == data && this.outputDir == outputDir && this.binSize == binSize
      ensures tels == Tels(data.rvData.value)
      ensures lspDict.None?
    {
      this.data := data;
      this.outputDir := outputDir;
      this.binSize := binSize;
      tels := Tels(data.rvData.value);
      lspDict := None;
    }

    /** `compute_lsps`: build the dictionary and keep it in `lsp_dict`; a
        raised error leaves `lsp_dict` as it was. */
    method ComputeLsps(minPer: real, deltaF: real) returns (r: Result<map<string, LspEntry>, LspError>)
      requires data.rvData.Some? && data.sIndexData.Some?
      modifies this
      ensures r.Failure? <==> LspsFail(data.rvData.value, tels, minPer, deltaF)
      ensures r.Success? ==>
        IsLspDict(r.value, data.rvData.value, data.sIndexData.value, tels, minPer, deltaF) &&
        lspDict == Some(r.value)
      ensures r.Failure? ==> lspDict == old(lspDict)
    {
      r := BuildLspDict(data.rvData.value, data.sIndexData.value, tels, minPer, deltaF);
      if r.Success? {
        lspDict := Some(r.value);
      }
    }

    /** `get_periods_from_posterior`, with the saved posteriors by path. */
    method GetPeriodsFromPosterior(files: map<string, Posterior>) returns (r: Option<seq<real>>)
      ensures PosteriorPath(outputDir) !in files ==> r.None?
      ensures PosteriorPath(outputDir) in files ==>
        var ps := files[PosteriorPath(outputDir)].params;
        (r.None? <==> PeriodValues(ps) == []) && (r.Some? ==> r.value == PeriodValues(ps))
    {
      var path := PosteriorPath(outputDir);
      var post := if path in files then Some(files[path]) else None;
      r := PeriodsFromPosterior(post);
    }
  }
}
