/*
 * The harmonisation pipeline of `StarData`: splitting each instrument archive
 * into pre/post-upgrade segments at fixed Julian dates, renaming columns and
 * stamping segment labels, concatenating the segments in a fixed order, and
 * cleaning the combined series (negative S-index removal, one-pass mean/std
 * outlier rejection by index label, sort by time, fresh dense index).
 */
module Harmonize {
  import opened Tables
  import opened Catalog

  // ---------------------------------------------------------------------------
  // Segments

  /** Last BJD of HARPS data before the 2015 fibre upgrade. */
  const HarpsPreEnd: real := 2457163.0
  /** First BJD of HARPS data after the 2015 fibre upgrade. */
  const HarpsPostStart: real := 2457173.0
  /** JD of the 2004 HIRES detector upgrade; both HIRES segments include it. */
  const HiresUpgrade: real := 2453236.0

  /** The time window of each segment's mask. */
  predicate InSegment(seg: Segment, t: real)
  {
    match seg
    case HarpsPre => t <= HarpsPreEnd
    case HarpsPost => t >= HarpsPostStart
    case HiresPre => t <= HiresUpgrade
    case HiresPost => t >= HiresUpgrade
  }

  /** The fixed S-index uncertainty stamped on each segment's rows. */
  function SIndexErr(seg: Segment): real
  {
    match seg
    case HarpsPre => 0.007
    case HarpsPost => 0.006
    case HiresPre => 0.01
    case HiresPost => 0.009
  }

  /** Position of a segment in the concatenation order. */
  function Rank(seg: Segment): nat
  {
    match seg
    case HarpsPre => 0
    case HarpsPost => 1
    case HiresPre => 2
    case HiresPost => 3
  }

  // ---------------------------------------------------------------------------
  // Archives

  /** A HARPS RVBank row: `BJD`, `RV_mlc_nzp`, `e_RV_mlc_nzp`, `RHKp`, under the
      index label read from the file's first column. */
  datatype HarpsRecord = HarpsRecord(index: int, bjd: real, rv: real, eRv: real, rhkp: real)

  /** A HIRES EBPS row: the seven columns of a `_KECK.vels` file. The file has
      no index column, so a row's label is its position. */
  datatype HiresRecord = HiresRecord(jd: real, rvel: real, eRvel: real, sValue: real,
                                     halpha: real, photPerPix: real, tExp: real)

  /** The archive files that exist, by path, with their parsed contents. */
  datatype Disk = Disk(harpsFiles: map<string, seq<HarpsRecord>>, hiresFiles: map<string, seq<HiresRecord>>)

  /** `convert_rhkp_to_sindex(rhkp, bv_mag, subgiant)`. */
  type Converter = (real, real, bool) -> real

  /** `'IV' in st_spectype`. */
  predicate IsSubgiant(spectralType: string)
  {
    exists i :: 0 <= i < |spectralType| - 1 && spectralType[i] == 'I' && spectralType[i + 1] == 'V'
  }

  /** The flag holds exactly when the spectral type splits around an "IV". */
  lemma IsSubgiantIffInfix(spectralType: string)
    ensures IsSubgiant(spectralType) <==>
      exists i :: 0 <= i <= |spectralType| - 2 && spectralType == spectralType[..i] + "IV" + spectralType[i + 2..]
  {
    if IsSubgiant(spectralType) {
      var i :| 0 <= i < |spectralType| - 1 && spectralType[i] == 'I' && spectralType[i + 1] == 'V';
      assert spectralType == spectralType[..i] + "IV" + spectralType[i + 2..];
    }
    if exists i :: 0 <= i <= |spectralType| - 2 && spectralType == spectralType[..i] + "IV" + spectralType[i + 2..] {
      var i :| 0 <= i <= |spectralType| - 2 && spectralType == spectralType[..i] + "IV" + spectralType[i + 2..];
      assert spectralType[i] == (spectralType[..i] + "IV" + spectralType[i + 2..])[i] == 'I';
      assert spectralType[i + 1] == (spectralType[..i] + "IV" + spectralType[i + 2..])[i + 1] == 'V';
    }
  }

  /** A subgiant class is flagged; dwarfs and giants are not, although a
      giant's "III" and a dwarf's "V" share letters with "IV". */
  lemma SubgiantExamples()
    ensures IsSubgiant("K0IV")
    ensures !IsSubgiant("G2V") && !IsSubgiant("K1III")
  {
    assert "K0IV"[2] == 'I' && "K0IV"[3] == 'V';
  }

  // ---------------------------------------------------------------------------
  // Selection: `df.loc[mask, cols]` followed by renaming and stamping

  /** The rows `mk(k, tab[k])` for the positions `k` whose record passes `keep`,
      in table order. */
  function SelectRows<R>(tab: seq<R>, keep: R -> bool, mk: (int, R) -> Row): seq<Row>
  {
    if tab == [] then []
    else
      var k := |tab| - 1;
      SelectRows(tab[..k], keep, mk) + (if keep(tab[k]) then [mk(k, tab[k])] else [])
  }

  lemma {:induction false} SelectRowsMembers<R>(tab: seq<R>, keep: R -> bool, mk: (int, R) -> Row)
    ensures forall row :: row in SelectRows(tab, keep, mk) <==>
      exists k :: 0 <= k < |tab| && keep(tab[k]) && row == mk(k, tab[k])
  {
    if tab != [] {
      var k := |tab| - 1;
      SelectRowsMembers(tab[..k], keep, mk);
      forall row | row in SelectRows(tab, keep, mk)
        ensures exists k' :: 0 <= k' < |tab| && keep(tab[k']) && row == mk(k', tab[k'])
      {
        if row in SelectRows(tab[..k], keep, mk) {
          var k' :| 0 <= k' < k && keep(tab[..k][k']) && row == mk(k', tab[..k][k']);
          assert tab[k'] == tab[..k][k'];
        }
      }
      forall row | exists k' :: 0 <= k' < |tab| && keep(tab[k']) && row == mk(k', tab[k'])
        ensures row in SelectRows(tab, keep, mk)
      {
        var k' :| 0 <= k' < |tab| && keep(tab[k']) && row == mk(k', tab[k']);
        if k' < k {
          assert tab[..k][k'] == tab[k'];
        }
      }
    }
  }

  /** Two tables of the same length whose rows agree position by position on
      index label, time and segment. */
  predicate Aligned(x: seq<Row>, y: seq<Row>)
  {
    && |x| == |y|
    && forall i :: 0 <= i < |x| ==>
         x[i].index == y[i].index && x[i].meas.jd == y[i].meas.jd && x[i].meas.tel == y[i].meas.tel
  }

  lemma AlignedAppend(a: seq<Row>, b: seq<Row>, a': seq<Row>, b': seq<Row>)
    requires Aligned(a, a') && Aligned(b, b')
    ensures Aligned(a + b, a' + b')
  {
    forall i | 0 <= i < |a + b|
      ensures (a + b)[i].index == (a' + b')[i].index && (a + b)[i].meas.jd == (a' + b')[i].meas.jd &&
              (a + b)[i].meas.tel == (a' + b')[i].meas.tel
    {
      if i < |a| {
        assert (a + b)[i] == a[i] && (a' + b')[i] == a'[i];
      } else {
        assert (a + b)[i] == b[i - |a|] && (a' + b')[i] == b'[i - |a|];
      }
    }
  }

  /** Two selections with the same mask are aligned whenever their row
      builders agree on label, time and segment. */
  lemma {:induction false} SelectRowsAligned<R>(tab: seq<R>, keep: R -> bool, mk1: (int, R) -> Row, mk2: (int, R) -> Row)
    requires forall k, r :: mk1(k, r).index == mk2(k, r).index && mk1(k, r).meas.jd == mk2(k, r).meas.jd &&
                            mk1(k, r).meas.tel == mk2(k, r).meas.tel
    ensures Aligned(SelectRows(tab, keep, mk1), SelectRows(tab, keep, mk2))
  {
    if tab != [] {
      var k := |tab| - 1;
      SelectRowsAligned(tab[..k], keep, mk1, mk2);
      var last1 := if keep(tab[k]) then [mk1(k, tab[k])] else [];
      var last2 := if keep(tab[k]) then [mk2(k, tab[k])] else [];
      AlignedAppend(SelectRows(tab[..k], keep, mk1), last1, SelectRows(tab[..k], keep, mk2), last2);
    }
  }

  function HarpsKeep(seg: Segment): HarpsRecord -> bool
  {
    (r: HarpsRecord) => InSegment(seg, r.bjd)
  }

  function HiresKeep(seg: Segment): HiresRecord -> bool
  {
    (r: HiresRecord) => InSegment(seg, r.jd)
  }

  /** HARPS RV row: BJD, RV_mlc_nzp, e_RV_mlc_nzp renamed jd, mnvel, errvel. */
  function HarpsRvRow(seg: Segment): (int, HarpsRecord) -> Row
  {
    (k, r: HarpsRecord) => Row(r.index, Meas(r.bjd, r.rv, r.eRv, seg))
  }

  /** HIRES RV row: JD, RVel, e_RVel renamed jd, mnvel, errvel. */
  function HiresRvRow(seg: Segment): (int, HiresRecord) -> Row
  {
    (k, r: HiresRecord) => Row(k, Meas(r.jd, r.rvel, r.eRvel, seg))
  }

  /** HARPS S-index row: RHKp converted, fixed uncertainty. */
  function HarpsSRow(seg: Segment, bv: real, subgiant: bool, convert: Converter): (int, HarpsRecord) -> Row
  {
    (k, r: HarpsRecord) => Row(r.index, Meas(r.bjd, convert(r.rhkp, bv, subgiant), SIndexErr(seg), seg))
  }

  /** HIRES S-index row: S_value taken as is, fixed uncertainty. */
  function HiresSRow(seg: Segment): (int, HiresRecord) -> Row
  {
    (k, r: HiresRecord) => Row(k, Meas(r.jd, r.sValue, SIndexErr(seg), seg))
  }

  function HarpsRv(tab: seq<HarpsRecord>, seg: Segment): seq<Row>
  {
    SelectRows(tab, HarpsKeep(seg), HarpsRvRow(seg))
  }

  function HiresRv(tab: seq<HiresRecord>, seg: Segment): seq<Row>
  {
    SelectRows(tab, HiresKeep(seg), HiresRvRow(seg))
  }

  function HarpsS(tab: seq<HarpsRecord>, seg: Segment, bv: real, subgiant: bool, convert: Converter): seq<Row>
  {
    SelectRows(tab, HarpsKeep(seg), HarpsSRow(seg, bv, subgiant, convert))
  }

  function HiresS(tab: seq<HiresRecord>, seg: Segment): seq<Row>
  {
    SelectRows(tab, HiresKeep(seg), HiresSRow(seg))
  }

  /** The rows one segment contributes; none when its archive is missing. */
  function HarpsRvBlock(harps: Option<seq<HarpsRecord>>, seg: Segment): seq<Row>
  {
    if harps.Some? then HarpsRv(harps.value, seg) else []
  }

  function HiresRvBlock(hires: Option<seq<HiresRecord>>, seg: Segment): seq<Row>
  {
    if hires.Some? then HiresRv(hires.value, seg) else []
  }

  function HarpsSBlock(harps: Option<seq<HarpsRecord>>, seg: Segment, bv: real, subgiant: bool,
                       convert: Converter): seq<Row>
  {
    if harps.Some? then HarpsS(harps.value, seg, bv, subgiant, convert) else []
  }

  function HiresSBlock(hires: Option<seq<HiresRecord>>, seg: Segment): seq<Row>
  {
    if hires.Some? then HiresS(hires.value, seg) else []
  }

  /** The RV series before cleaning, appended block by block: harps_pre,
      harps_post, hires_pre, hires_post. */
  function RvConcat(harps: Option<seq<HarpsRecord>>, hires: Option<seq<HiresRecord>>): seq<Row>
  {
    HarpsRvBlock(harps, HarpsPre) + HarpsRvBlock(harps, HarpsPost) +
    HiresRvBlock(hires, HiresPre) + HiresRvBlock(hires, HiresPost)
  }

  /** The S-index series before cleaning, in the same order. */
  function SConcat(harps: Option<seq<HarpsRecord>>, hires: Option<seq<HiresRecord>>, e: CatalogEntry,
                   convert: Converter): seq<Row>
  {
    var bv, subgiant := e.bvMag, IsSubgiant(e.spectralType);
    HarpsSBlock(harps, HarpsPre, bv, subgiant, convert) + HarpsSBlock(harps, HarpsPost, bv, subgiant, convert) +
    HiresSBlock(hires, HiresPre) + HiresSBlock(hires, HiresPost)
  }

  // ---------------------------------------------------------------------------
  // Properties of the concatenation

  /** Segment labels never decrease along a series in concatenation order. */
  predicate SegmentOrdered(rows: seq<Row>)
  {
    forall i, j :: 0 <= i < j < |rows| ==> Rank(rows[i].meas.tel) <= Rank(rows[j].meas.tel)
  }

  /** Every row carries the label `seg` and lies in its window. */
  predicate Stamped(rows: seq<Row>, seg: Segment)
  {
    forall row :: row in rows ==> row.meas.tel == seg && InSegment(seg, row.meas.jd)
  }

  /** Every row lies in the window of the segment it carries. */
  predicate Windowed(rows: seq<Row>)
  {
    forall row :: row in rows ==> InSegment(row.meas.tel, row.meas.jd)
  }

  /** Every row selected for `seg` carries the label `seg` and lies in its window. */
  lemma SelectedStamped<R>(tab: seq<R>, seg: Segment, keep: R -> bool, mk: (int, R) -> Row, time: R -> real)
    requires forall r :: keep(r) ==> InSegment(seg, time(r))
    requires forall k, r :: mk(k, r).meas.tel == seg && mk(k, r).meas.jd == time(r)
    ensures Stamped(SelectRows(tab, keep, mk), seg)
  {
    SelectRowsMembers(tab, keep, mk);
  }

  /** Appending a block stamped `seg` to a series whose segments come no later
      than `prev`, itself no later than `seg`, keeps the series segment-ordered
      and windowed. */
  lemma AppendBlock(a: seq<Row>, b: seq<Row>, prev: Segment, seg: Segment)
    requires SegmentOrdered(a) && Windowed(a) && Rank(prev) <= Rank(seg)
    requires forall x :: x in a ==> Rank(x.meas.tel) <= Rank(prev)
    requires Stamped(b, seg)
    ensures SegmentOrdered(a + b) && Windowed(a + b)
    ensures forall x :: x in a + b ==> Rank(x.meas.tel) <= Rank(seg)
  {
    forall i, j | 0 <= i < j < |a + b| ensures Rank((a + b)[i].meas.tel) <= Rank((a + b)[j].meas.tel) {
      if j < |a| {
        assert (a + b)[i] == a[i] && (a + b)[j] == a[j];
      } else if i < |a| {
        assert (a + b)[i] in a && (a + b)[j] == b[j - |a|];
      } else {
        assert (a + b)[i] == b[i - |a|] && (a + b)[j] == b[j - |a|];
      }
    }
  }

  /** Every RV row lies in its segment's window, and the segments appear in the
      order harps_pre, harps_post, hires_pre, hires_post. */
  lemma RvConcatSegments(harps: Option<seq<HarpsRecord>>, hires: Option<seq<HiresRecord>>)
    ensures Windowed(RvConcat(harps, hires))
    ensures SegmentOrdered(RvConcat(harps, hires))
  {
    var a, b := HarpsRvBlock(harps, HarpsPre), HarpsRvBlock(harps, HarpsPost);
    var c, d := HiresRvBlock(hires, HiresPre), HiresRvBlock(hires, HiresPost);
    if harps.Some? {
      SelectedStamped(harps.value, HarpsPre, HarpsKeep(HarpsPre), HarpsRvRow(HarpsPre), (r: HarpsRecord) => r.bjd);
      SelectedStamped(harps.value, HarpsPost, HarpsKeep(HarpsPost), HarpsRvRow(HarpsPost), (r: HarpsRecord) => r.bjd);
    }
    if hires.Some? {
      SelectedStamped(hires.value, HiresPre, HiresKeep(HiresPre), HiresRvRow(HiresPre), (r: HiresRecord) => r.jd);
      SelectedStamped(hires.value, HiresPost, HiresKeep(HiresPost), HiresRvRow(HiresPost), (r: HiresRecord) => r.jd);
    }
    AppendBlock([], a, HarpsPre, HarpsPre);
    assert [] + a == a;
    var ab := a + b;
    AppendBlock(a, b, HarpsPre, HarpsPost);
    var abc := ab + c;
    AppendBlock(ab, c, HarpsPost, HiresPre);
    AppendBlock(abc, d, HiresPre, HiresPost);
  }

  /** Every S-index row lies in its segment's window and carries that
      segment's fixed uncertainty. */
  lemma SConcatStamps(harps: Option<seq<HarpsRecord>>, hires: Option<seq<HiresRecord>>, e: CatalogEntry, convert: Converter)
    ensures forall row :: row in SConcat(harps, hires, e, convert) ==>
      InSegment(row.meas.tel, row.meas.jd) && row.meas.err == SIndexErr(row.meas.tel)
  {
    var bv, sg := e.bvMag, IsSubgiant(e.spectralType);
    if harps.Some? {
      SelectRowsMembers(harps.value, HarpsKeep(HarpsPre), HarpsSRow(HarpsPre, bv, sg, convert));
      SelectRowsMembers(harps.value, HarpsKeep(HarpsPost), HarpsSRow(HarpsPost, bv, sg, convert));
    }
    if hires.Some? {
      SelectRowsMembers(hires.value, HiresKeep(HiresPre), HiresSRow(HiresPre));
      SelectRowsMembers(hires.value, HiresKeep(HiresPost), HiresSRow(HiresPost));
    }
  }

  /** The S-index series has a row for each RV row, with the same index label,
      time and segment: both come from the same masks. */
  lemma SConcatAlignsWithRv(harps: Option<seq<HarpsRecord>>, hires: Option<seq<HiresRecord>>, e: CatalogEntry, convert: Converter)
    ensures Aligned(SConcat(harps, hires, e, convert), RvConcat(harps, hires))
  {
    var bv, sg := e.bvMag, IsSubgiant(e.spectralType);
    if harps.Some? {
      SelectRowsAligned(harps.value, HarpsKeep(HarpsPre), HarpsSRow(HarpsPre, bv, sg, convert), HarpsRvRow(HarpsPre));
      SelectRowsAligned(harps.value, HarpsKeep(HarpsPost), HarpsSRow(HarpsPost, bv, sg, convert), HarpsRvRow(HarpsPost));
    }
    if hires.Some? {
      SelectRowsAligned(hires.value, HiresKeep(HiresPre), HiresSRow(HiresPre), HiresRvRow(HiresPre));
      SelectRowsAligned(hires.value, HiresKeep(HiresPost), HiresSRow(HiresPost), HiresRvRow(HiresPost));
    }
    var a, b := HarpsSBlock(harps, HarpsPre, bv, sg, convert), HarpsSBlock(harps, HarpsPost, bv, sg, convert);
    var c, d := HiresSBlock(hires, HiresPre), HiresSBlock(hires, HiresPost);
    var a', b' := HarpsRvBlock(harps, HarpsPre), HarpsRvBlock(harps, HarpsPost);
    var c', d' := HiresRvBlock(hires, HiresPre), HiresRvBlock(hires, HiresPost);
    AlignedAppend(a, b, a', b');
    AlignedAppend(a + b, c, a' + b', c');
    AlignedAppend(a + b + c, d, a' + b' + c', d');
  }

  /** A HIRES row taken exactly at the upgrade date enters the RV series twice,
      once per HIRES segment, under the same index label. */
  lemma HiresBoundaryRowInBoth(harps: Option<seq<HarpsRecord>>, hires: seq<HiresRecord>, k: int)
    requires 0 <= k < |hires| && hires[k].jd == HiresUpgrade
    ensures Row(k, Meas(HiresUpgrade, hires[k].rvel, hires[k].eRvel, HiresPre)) in RvConcat(harps, Some(hires))
    ensures Row(k, Meas(HiresUpgrade, hires[k].rvel, hires[k].eRvel, HiresPost)) in RvConcat(harps, Some(hires))
  {
    SelectRowsMembers(hires, HiresKeep(HiresPre), HiresRvRow(HiresPre));
    SelectRowsMembers(hires, HiresKeep(HiresPost), HiresRvRow(HiresPost));
    assert HiresRvRow(HiresPre)(k, hires[k]) in HiresRv(hires, HiresPre);
    assert HiresRvRow(HiresPost)(k, hires[k]) in HiresRv(hires, HiresPost);
  }

  /** A HARPS row taken strictly between the two HARPS boundaries enters
      neither HARPS segment; every other HARPS row enters exactly one. */
  lemma HarpsGapRowDropped(tab: seq<HarpsRecord>, k: int)
    requires 0 <= k < |tab|
    ensures HarpsPreEnd < tab[k].bjd < HarpsPostStart ==>
      HarpsRvRow(HarpsPre)(k, tab[k]) !in HarpsRv(tab, HarpsPre) &&
      HarpsRvRow(HarpsPost)(k, tab[k]) !in HarpsRv(tab, HarpsPost)
    ensures tab[k].bjd <= HarpsPreEnd ==> HarpsRvRow(HarpsPre)(k, tab[k]) in HarpsRv(tab, HarpsPre)
    ensures tab[k].bjd >= HarpsPostStart ==> HarpsRvRow(HarpsPost)(k, tab[k]) in HarpsRv(tab, HarpsPost)
  {
    SelectRowsMembers(tab, HarpsKeep(HarpsPre), HarpsRvRow(HarpsPre));
    SelectRowsMembers(tab, HarpsKeep(HarpsPost), HarpsRvRow(HarpsPost));
  }

  // ---------------------------------------------------------------------------
  // Cleaning

  function Abs(x: real): real { if x < 0.0 then -x else x }

  /** `abs(dev) > t * std` where `std * std == variance`, stated without the
      square root. */
  predicate Exceeds(t: real, dev: real, variance: real)
  {
    if t >= 0.0 then dev * dev > t * t * variance else variance > 0.0 || dev != 0.0
  }

  /** The square-free test agrees with the source's test for the actual
      standard deviation; a deviation exactly at the threshold is kept. */
  lemma SquareStrictlyMonotone(a: real, b: real)
    requires 0.0 <= a < b
    ensures a * a < b * b
  {
    calc {
      a * a;
    <=
      a * b;
    <
      b * b;
    }
  }

  lemma ExceedsIffBeyondThreshold(t: real, dev: real, variance: real, std: real)
    requires std >= 0.0 && std * std == variance
    ensures Exceeds(t, dev, variance) <==> Abs(dev) > t * std
    ensures Abs(dev) == t * std ==> !Exceeds(t, dev, variance)
  {
    var a, b := Abs(dev), t * std;
    assert a * a == dev * dev;
    if t >= 0.0 {
      assert b >= 0.0;
      assert b * b == t * t * variance;
      if a > b {
        SquareStrictlyMonotone(b, a);
      } else if a < b {
        SquareStrictlyMonotone(a, b);
      }
    } else if std > 0.0 {
      assert b < 0.0;
    }
  }

  /** Row `i` is rejected by the one-pass rule: the mean and the standard
      deviation are those of the whole series; with fewer than two rows the
      standard deviation is NaN and nothing is rejected. */
  predicate IsOutlier(rows: seq<Row>, t: real, i: int)
    requires 0 <= i < |rows|
  {
    |rows| >= 2 &&
    Exceeds(t, rows[i].meas.val - Mean(Values(rows)), SampleVariance(Values(rows)))
  }

  /** `df[abs(df[v] - mean) > threshold].index`. */
  function OutlierLabels(rows: seq<Row>, t: real): set<int>
  {
    set i | 0 <= i < |rows| && IsOutlier(rows, t, i) :: rows[i].index
  }

  /** `df[df['sind'] < 0].index`. */
  function NegativeLabels(rows: seq<Row>): set<int>
  {
    set i | 0 <= i < |rows| && rows[i].meas.val < 0.0 :: rows[i].index
  }

  /** `df.drop(labels)`: every row whose index label is in `labels` goes. */
  function DropLabels(rows: seq<Row>, labels: set<int>): seq<Row>
  {
    if rows == [] then []
    else (if rows[0].index in labels then [] else [rows[0]]) + DropLabels(rows[1..], labels)
  }

  lemma {:induction false} DropLabelsMembers(rows: seq<Row>, labels: set<int>)
    ensures forall row :: row in DropLabels(rows, labels) <==> row in rows && row.index !in labels
    ensures |DropLabels(rows, labels)| <= |rows|
  {
    if rows != [] {
      DropLabelsMembers(rows[1..], labels);
      assert rows == [rows[0]] + rows[1..];
    }
  }

  /** The rows left by the RV outlier rejection. */
  function RvSurvivors(rows: seq<Row>, t: real): seq<Row>
  {
    DropLabels(rows, OutlierLabels(rows, t))
  }

  /** The rows left by the S-index cleaning: negative values are dropped
      first, then outliers by the statistics of what remains. */
  function SSurvivors(rows: seq<Row>, t: real): seq<Row>
  {
    var nonNegative := DropLabels(rows, NegativeLabels(rows));
    DropLabels(nonNegative, OutlierLabels(nonNegative, t))
  }

  /** Dropping is by index label: a row survives exactly when no row sharing
      its label is an outlier, whether or not it is one itself. */
  lemma SurvivesIffNoOutlierSharesLabel(rows: seq<Row>, t: real, i: int)
    requires 0 <= i < |rows|
    ensures rows[i] in RvSurvivors(rows, t) <==>
      forall j :: 0 <= j < |rows| && rows[j].index == rows[i].index ==> !IsOutlier(rows, t, j)
  {
    DropLabelsMembers(rows, OutlierLabels(rows, t));
  }

  predicate DistinctLabels(rows: seq<Row>)
  {
    forall i, j :: 0 <= i < j < |rows| ==> rows[i].index != rows[j].index
  }

  /** With distinct labels, exactly the outliers are removed. */
  lemma DistinctLabelsDropOnlyOutliers(rows: seq<Row>, t: real, i: int)
    requires DistinctLabels(rows) && 0 <= i < |rows|
    ensures rows[i] in RvSurvivors(rows, t) <==> !IsOutlier(rows, t, i)
  {
    SurvivesIffNoOutlierSharesLabel(rows, t, i);
    if !IsOutlier(rows, t, i) {
      forall j | 0 <= j < |rows| && rows[j].index == rows[i].index ensures !IsOutlier(rows, t, j) {
        assert j == i;
      }
    }
  }

  /** A HARPS row and a HIRES row under the same label 0: the HIRES value is an
      outlier, and the HARPS row, which is not, is removed with it. */
  lemma SharedLabelRemovesInlier()
    ensures var rows := [Row(0, Meas(2450000.0, 0.0, 1.0, HarpsPre)), Row(1, Meas(2450001.0, 0.0, 1.0, HarpsPre)),
                         Row(2, Meas(2450002.0, 0.0, 1.0, HarpsPre)), Row(0, Meas(2450003.0, 10.0, 1.0, HiresPre))];
            !IsOutlier(rows, 1.0, 0) && IsOutlier(rows, 1.0, 3) && rows[0] !in RvSurvivors(rows, 1.0)
  {
    var rows := [Row(0, Meas(2450000.0, 0.0, 1.0, HarpsPre)), Row(1, Meas(2450001.0, 0.0, 1.0, HarpsPre)),
                 Row(2, Meas(2450002.0, 0.0, 1.0, HarpsPre)), Row(0, Meas(2450003.0, 10.0, 1.0, HiresPre))];
    assert Values(rows) == [0.0, 0.0, 0.0, 10.0];
    ExampleOutliers(rows);
    SurvivesIffNoOutlierSharesLabel(rows, 1.0, 0);
  }

  /** Of values 0, 0, 0, 10 under threshold 1, the 10 is an outlier and the
      first 0 is not. */
  lemma ExampleOutliers(rows: seq<Row>)
    requires |rows| == 4 && Values(rows) == [0.0, 0.0, 0.0, 10.0]
    ensures !IsOutlier(rows, 1.0, 0) && IsOutlier(rows, 1.0, 3)
  {
    ExampleStatistics();
    assert rows[0].meas.val == 0.0 && rows[3].meas.val == 10.0;
  }

  /** The mean and sample variance of the example's values. */
  lemma ExampleStatistics()
    ensures Mean([0.0, 0.0, 0.0, 10.0]) == 2.5
    ensures SampleVariance([0.0, 0.0, 0.0, 10.0]) == 25.0
  {
    var vals := [0.0, 0.0, 0.0, 10.0];
    assert vals[1..] == [0.0, 0.0, 10.0];
    assert [0.0, 0.0, 10.0][1..] == [0.0, 10.0];
    assert [0.0, 10.0][1..] == [10.0];
    assert [10.0][1..] == [];
    assert Sum([10.0]) == 10.0;
    assert Sum([0.0, 10.0]) == 10.0;
    assert Sum([0.0, 0.0, 10.0]) == 10.0;
    assert Sum(vals) == 10.0;
    assert SumSqDev([10.0], 2.5) == 56.25;
    assert SumSqDev([0.0, 10.0], 2.5) == 62.5;
    assert SumSqDev([0.0, 0.0, 10.0], 2.5) == 68.75;
    assert SumSqDev(vals, 2.5) == 75.0;
  }

  /** The squared deviations from the mean cannot all exceed the sample
      variance: they sum to (n - 1) times it. */
  lemma NotAllAboveVariance(vals: seq<real>, m: real, v: real, t: real)
    requires |vals| >= 2 && t >= 1.0 && v >= 0.0
    requires SumSqDev(vals, m) == v * ((|vals| - 1) as real)
    ensures exists i :: 0 <= i < |vals| && !Beyond(vals[i], m, t * t * v)
  {
    var bound := t * t * v;
    CountingBound(SumSqDev(vals, m), v, |vals| as real, t);
    if forall i :: 0 <= i < |vals| ==> Beyond(vals[i], m, bound) {
      SumSqDevAbove(vals, m, bound);
      assert false;
    }
  }

  lemma CountingBound(s: real, v: real, n: real, t: real)
    requires n >= 2.0 && v >= 0.0 && t >= 1.0 && s == v * (n - 1.0)
    ensures s <= n * (t * t * v)
  {
    assert t * t >= 1.0;
    assert t * t * v >= v;
    assert n * (t * t * v) >= n * v;
  }

  /** With a threshold of at least one standard deviation, the one-pass rule
      always leaves some row that is not an outlier. */
  lemma SomeRowIsNotOutlier(rows: seq<Row>, t: real)
    requires |rows| >= 1 && t >= 1.0
    ensures exists i :: 0 <= i < |rows| && !IsOutlier(rows, t, i)
  {
    if |rows| >= 2 {
      var vals := Values(rows);
      var m, v := Mean(vals), SampleVariance(vals);
      SampleVarianceNonNegative(vals);
      assert SumSqDev(vals, m) == v * ((|vals| - 1) as real);
      NotAllAboveVariance(vals, m, v, t);
      var i :| 0 <= i < |vals| && !Beyond(vals[i], m, t * t * v);
      assert !IsOutlier(rows, t, i);
    } else {
      assert !IsOutlier(rows, t, 0);
    }
  }

  /** With distinct labels and a threshold of at least one, outlier rejection
      never empties a non-empty RV series. */
  lemma RejectionKeepsARow(rows: seq<Row>, t: real)
    requires |rows| >= 1 && t >= 1.0 && DistinctLabels(rows)
    ensures RvSurvivors(rows, t) != []
  {
    SomeRowIsNotOutlier(rows, t);
    var i :| 0 <= i < |rows| && !IsOutlier(rows, t, i);
    DistinctLabelsDropOnlyOutliers(rows, t, i);
  }

  /** Every row of the cleaned S-index series is non-negative. */
  /** A row survives the S-index cleaning exactly when no row with its label
      is negative and, among the non-negative rows, no row with its label is
      an outlier. */
  lemma SSurvivesIff(rows: seq<Row>, t: real, i: int)
    requires 0 <= i < |rows|
    ensures var nn := DropLabels(rows, NegativeLabels(rows));
      rows[i] in SSurvivors(rows, t) <==>
        (forall j :: 0 <= j < |rows| && rows[j].index == rows[i].index ==> rows[j].meas.val >= 0.0) &&
        (forall j :: 0 <= j < |nn| && nn[j].index == rows[i].index ==> !IsOutlier(nn, t, j))
  {
    var nn := DropLabels(rows, NegativeLabels(rows));
    DropLabelsMembers(rows, NegativeLabels(rows));
    DropLabelsMembers(nn, OutlierLabels(nn, t));
  }

  lemma SSurvivorsNonNegative(rows: seq<Row>, t: real)
    ensures forall row :: row in SSurvivors(rows, t) ==> row.meas.val >= 0.0 && row in rows
  {
    var nonNegative := DropLabels(rows, NegativeLabels(rows));
    DropLabelsMembers(rows, NegativeLabels(rows));
    DropLabelsMembers(nonNegative, OutlierLabels(nonNegative, t));
    forall row | row in SSurvivors(rows, t) ensures row.meas.val >= 0.0 && row in rows {
      assert row in nonNegative;
    }
  }

  /** `reset_index(drop=True)`: labels 0..n-1 in row order. */
  function Reindexed(ms: seq<Meas>): (rows: seq<Row>)
    ensures Strip(rows) == ms
  {
    seq(|ms|, i requires 0 <= i < |ms| => Row(i, ms[i]))
  }

  /** `out` is the cleaned form of the surviving rows: sorted by time, a
      permutation of their measurements, re-indexed 0..n-1. */
  predicate Cleaned(out: seq<Row>, survivors: seq<Row>)
  {
    && (forall i :: 0 <= i < |out| ==> out[i].index == i)
    && SortedBy(Strip(out), TimeOf)
    && multiset(Strip(out)) == multiset(Strip(survivors))
  }

  /** `sort_values('jd')` followed by `reset_index(drop=True)`. */
  function Clean(kept: seq<Row>): (out: seq<Row>)
    ensures Cleaned(out, kept)
  {
    Reindexed(SortBy(Strip(kept), TimeOf))
  }

  datatype SeriesError = NoRvData | NoSIndexData

  /** `_combine_rvs`: concatenate the segments; with no row at all, fail;
      otherwise drop outliers by label, sort by time and re-index. */
  method CombineRvs(harps: Option<seq<HarpsRecord>>, hires: Option<seq<HiresRecord>>, t: real)
    returns (r: Result<seq<Row>, SeriesError>)
    ensures r.Failure? <==> RvConcat(harps, hires) == []
    ensures r.Failure? ==> r.error == NoRvData
    ensures r.Success? ==> Cleaned(r.value, RvSurvivors(RvConcat(harps, hires), t))
  {
    var rvData: seq<Row> := [];
    if harps.Some? {
      rvData := rvData + HarpsRv(harps.value, HarpsPre);
      rvData := rvData + HarpsRv(harps.value, HarpsPost);
    }
    if hires.Some? {
      rvData := rvData + HiresRv(hires.value, HiresPre);
      rvData := rvData + HiresRv(hires.value, HiresPost);
    }
    assert rvData == RvConcat(harps, hires);
    if |rvData| > 0 {
      var kept := DropLabels(rvData, OutlierLabels(rvData, t));
      return Success(Clean(kept));
    }
    return Failure(NoRvData);
  }

  /** `_combine_S_indexes`: as for the RVs, with HARPS R'HK converted to
      S-index and negative values dropped before the outlier rejection. The
      emptiness test comes before both drops, so a series that is empty only
      after them is returned empty, without error. */
  method CombineSIndexes(harps: Option<seq<HarpsRecord>>, hires: Option<seq<HiresRecord>>, e: CatalogEntry,
                         t: real, convert: Converter)
    returns (r: Result<seq<Row>, SeriesError>)
    ensures r.Failure? <==> SConcat(harps, hires, e, convert) == []
    ensures r.Failure? ==> r.error == NoSIndexData
    ensures r.Success? ==> Cleaned(r.value, SSurvivors(SConcat(harps, hires, e, convert), t))
  {
    var activity: seq<Row> := [];
    var bv := e.bvMag;
    var subgiant := IsSubgiant(e.spectralType);
    if harps.Some? {
      activity := activity + HarpsS(harps.value, HarpsPre, bv, subgiant, convert);
      activity := activity + HarpsS(harps.value, HarpsPost, bv, subgiant, convert);
    }
    ghost var harpsPart := activity;
    assert harpsPart == HarpsSBlock(harps, HarpsPre, bv, subgiant, convert) + HarpsSBlock(harps, HarpsPost, bv, subgiant, convert);
    if hires.Some? {
      activity := activity + HiresS(hires.value, HiresPre);
      activity := activity + HiresS(hires.value, HiresPost);
    }
    assert activity == SConcat(harps, hires, e, convert);
    if |activity| > 0 {
      var nonNegative := DropLabels(activity, NegativeLabels(activity));
      var kept := DropLabels(nonNegative, OutlierLabels(nonNegative, t));
      return Success(Clean(kept));
    }
    return Failure(NoSIndexData);
  }

  // ---------------------------------------------------------------------------
  // The StarData object

  class StarData {
    const hdName: string
    const dataDir: string
    const outlierThreshold: real
    var catalogEntry: CatalogEntry
    var harps: Option<seq<HarpsRecord>>
    var hires: Option<seq<HiresRecord>>
    var rvData: Option<seq<Row>>
    var sIndexData: Option<seq<Row>>

    /** The two series are present together, and each is the cleaned form of
        its concatenation. */
    ghost predicate Valid(convert: Converter)
      reads this
    {
      && (rvData.Some? <==> sIndexData.Some?)
      && (rvData.None? <==> RvConcat(harps, hires) == [])
      && (rvData.Some? ==> Cleaned(rvData.value, RvSurvivors(RvConcat(harps, hires), outlierThreshold)))
      && (sIndexData.Some? ==>
            Cleaned(sIndexData.value, SSurvivors(SConcat(harps, hires, catalogEntry, convert), outlierThreshold)))
    }

    /** `__init__` once the catalog entry is found: load each archive (a
        missing one stays None), then combine; a failed RV combination leaves
        both series None. */
    constructor (hdName: string, dataDir: string, outlierThreshold: real, entry: CatalogEntry, disk: Disk,
                 convert: Converter)
      ensures this.hdName == hdName && this.dataDir == dataDir && this.outlierThreshold == outlierThreshold
      ensures catalogEntry == entry
      ensures harps == Loaded(Harps, dataDir, hdName, entry, disk.harpsFiles)
      ensures hires == Loaded(Hires, dataDir, hdName, entry, disk.hiresFiles)
      ensures Valid(convert)
    {
      var h := LoadArchive(Harps, dataDir, hdName, entry, disk.harpsFiles);
      var k := LoadArchive(Hires, dataDir, hdName, entry, disk.hiresFiles);
      var rvOut: Option<seq<Row>> := None;
      var sOut: Option<seq<Row>> := None;
      var rv := CombineRvs(h, k, outlierThreshold);
      if rv.Success? {
        rvOut := Some(rv.value);
        var s := CombineSIndexes(h, k, entry, outlierThreshold, convert);
        if s.Success? {
          sOut := Some(s.value);
        } else {
          SConcatAlignsWithRv(h, k, entry, convert);
        }
      }
      this.hdName := hdName;
      this.dataDir := dataDir;
      this.outlierThreshold := outlierThreshold;
      catalogEntry := entry;
      harps := h;
      hires := k;
      rvData := rvOut;
      sIndexData := sOut;
    }
  }

  /** `StarData(hd_name, ...)`: resolve the catalog entry (a missing one is the
      ValueError that propagates), then build the object. */
  method Open(hdName: string, dataDir: string, outlierThreshold: real, catalog: seq<CatalogEntry>, disk: Disk,
              convert: Converter)
    returns (r: Result<StarData, CatalogError>)
    ensures r.Failure? <==> LoadCatalogEntry(catalog, hdName).Failure?
    ensures r.Failure? ==> r.error == NoCatalogEntry(hdName)
    ensures r.Success? ==>
      var entry := LoadCatalogEntry(catalog, hdName).value;
      && fresh(r.value)
      && r.value.hdName == hdName && r.value.dataDir == dataDir && r.value.outlierThreshold == outlierThreshold
      && r.value.catalogEntry == entry
      && r.value.harps == Loaded(Harps, dataDir, hdName, entry, disk.harpsFiles)
      && r.value.hires == Loaded(Hires, dataDir, hdName, entry, disk.hiresFiles)
      && r.value.Valid(convert)
  {
    var entry := LoadCatalogEntry(catalog, hdName);
    if entry.Failure? {
      return Failure(entry.error);
    }
    var data := new StarData(hdName, dataDir, outlierThreshold, entry.value, disk, convert);
    return Success(data);
  }
}
