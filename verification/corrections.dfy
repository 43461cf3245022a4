/** The redshift corrections applied to the tables before the fit
    (code/relativistic_corrections.py): the Redshift Leavitt Bias on the
    Cepheid periods, and the K-corrections of Anderson (2022) on Cepheid
    Wesenheit magnitudes and on TRGB magnitudes, read from interpolators
    built on the grids of Table A1.

    `log10` and `pow10` (the `10**` of the Teff power law) are parameters,
    as are the band interpolators. A warning the source prints is returned
    as a `Warning` value. */
module Corrections {
  import opened Results
  import opened Tables
  import opened CorrectionGrid

  // ---------------------------------------------------------------------
  // Redshift Leavitt Bias

  function RLBRow(log10: real -> real, row: Row): Row {
    row.(logP := row.logP - log10(1.0 + row.z))
  }

  /** RLB_correction: `logP := logP - log10(1 + z)` on every Cepheid and
      anchor row; every other table is left as it was. */
  function RLBCorrection(log10: real -> real, p: Partition): (q: Partition)
    ensures |q.cepheids| == |p.cepheids| && |q.anchors| == |p.anchors|
    ensures forall k :: 0 <= k < |p.cepheids| ==>
              q.cepheids[k].logP == p.cepheids[k].logP - log10(1.0 + p.cepheids[k].z)
              && q.cepheids[k].(logP := p.cepheids[k].logP) == p.cepheids[k]
    ensures forall k :: 0 <= k < |p.anchors| ==>
              q.anchors[k].logP == p.anchors[k].logP - log10(1.0 + p.anchors[k].z)
              && q.anchors[k].(logP := p.anchors[k].logP) == p.anchors[k]
    ensures q.milkyWay == p.milkyWay && q.trgb == p.trgb && q.trgbAnchors == p.trgbAnchors
    ensures q.sneHubble == p.sneHubble
  {
    p.(cepheids := MapRows(p.cepheids, row => RLBRow(log10, row)),
       anchors := MapRows(p.anchors, row => RLBRow(log10, row)))
  }

  /** The correction is not idempotent: applied twice it shifts the period
      twice, since the redshift it reads is not changed by it. */
  lemma RLBTwice(log10: real -> real, p: Partition, k: nat)
    requires k < |p.cepheids|
    ensures RLBCorrection(log10, RLBCorrection(log10, p)).cepheids[k].logP
            == p.cepheids[k].logP - 2.0 * log10(1.0 + p.cepheids[k].z)
  {
    var once := RLBCorrection(log10, p);
    assert once.cepheids[k].z == p.cepheids[k].z;
  }

  // ---------------------------------------------------------------------
  // Range clamps

  /** A clamped input and whether the source printed a warning for it. */
  datatype Clamped = Clamped(value: real, warned: bool)

  /** Moves `x` onto the end of `[lo, hi]` it lies beyond, testing the
      upper end first, and flags the change as a warning. */
  function Clamp(x: real, lo: real, hi: real): (c: Clamped)
    requires lo <= hi
    ensures lo <= c.value <= hi
    ensures c.warned <==> x < lo || hi < x
    ensures !c.warned ==> c.value == x
  {
    if x > hi then Clamped(hi, true)
    else if x < lo then Clamped(lo, true)
    else Clamped(x, false)
  }

  /** The clamped value is the point of the range nearest to the input. */
  lemma ClampNearest(x: real, lo: real, hi: real, y: real)
    requires lo <= y <= hi
    ensures var c := Clamp(x, lo, hi).value;
            (if c <= x then x - c else c - x) <= (if y <= x then x - y else y - x)
  {
  }

  /** Clamping a clamped value changes nothing and warns about nothing. */
  lemma ClampIdempotent(x: real, lo: real, hi: real)
    requires lo <= hi
    ensures Clamp(Clamp(x, lo, hi).value, lo, hi) == Clamped(Clamp(x, lo, hi).value, false)
  {
  }

  /** The ranges Table A1 covers, as the Cepheid correction enforces them. */
  function Range(c: Coordinate): (r: (real, real))
    requires c != EBV
    ensures r.0 <= r.1
  {
    match c
    case Teff => (3500.0, 6000.0)
    case Logg => (0.0, 2.0)
    case FeH => (-2.0, 0.5)
    case Z => (0.0, 0.03)
  }

  function ClampCoord(x: Point, c: Coordinate): Clamped
    requires c != EBV
  {
    Clamp(x.Get(c), Range(c).0, Range(c).1)
  }

  /** The point with Teff, logg, [Fe/H] and z clamped to their ranges;
      E(B-V) is passed through. */
  function ClampPoint(x: Point): (y: Point)
    ensures forall c :: c != EBV ==> Range(c).0 <= y.Get(c) <= Range(c).1
    ensures forall c :: c != EBV && !ClampCoord(x, c).warned ==> y.Get(c) == x.Get(c)
    ensures y.ebv == x.ebv
  {
    Point(ClampCoord(x, Teff).value, ClampCoord(x, Logg).value, ClampCoord(x, FeH).value,
          ClampCoord(x, Z).value, x.ebv)
  }

  /** One printed warning: the table, the row, the parameter and the value
      before clamping. */
  datatype Warning = Warning(group: Group, row: nat, parameter: Coordinate, original: real)

  /** The warning for one parameter of one row, if it was clamped. */
  function Flag(g: Group, k: nat, x: Point, c: Coordinate): seq<Warning>
    requires c != EBV
  {
    if ClampCoord(x, c).warned then [Warning(g, k, c, x.Get(c))] else []
  }

  /** The warnings of one Cepheid row, in the order the source checks the
      parameters. */
  function CepheidRowWarnings(g: Group, k: nat, x: Point): seq<Warning> {
    Flag(g, k, x, Teff) + Flag(g, k, x, Logg) + Flag(g, k, x, FeH) + Flag(g, k, x, Z)
  }

  /** A row draws a warning exactly for each clamped parameter, carrying
      the value before clamping. */
  lemma CepheidRowWarningsExact(g: Group, k: nat, x: Point, w: Warning)
    ensures w in CepheidRowWarnings(g, k, x) <==>
              w.group == g && w.row == k && w.parameter != EBV
              && ClampCoord(x, w.parameter).warned && w.original == x.Get(w.parameter)
  {
  }

  /** The warnings of a whole table, row after row. */
  function TableWarnings(t: Table, rowWarnings: (nat, Row) -> seq<Warning>): (ws: seq<Warning>)
    decreases |t|
  {
    if |t| == 0 then []
    else TableWarnings(t[..|t| - 1], rowWarnings) + rowWarnings(|t| - 1, t[|t| - 1])
  }

  /** A table's warnings are exactly the warnings of its rows. */
  lemma {:induction false} TableWarningsExact(t: Table, rowWarnings: (nat, Row) -> seq<Warning>, w: Warning)
    ensures w in TableWarnings(t, rowWarnings) <==> exists k :: 0 <= k < |t| && w in rowWarnings(k, t[k])
    decreases |t|
  {
    if |t| > 0 {
      var last := |t| - 1;
      var front := t[..last];
      TableWarningsExact(front, rowWarnings, w);
      if w in TableWarnings(t, rowWarnings) && w !in rowWarnings(last, t[last]) {
        var k :| 0 <= k < |front| && w in rowWarnings(k, front[k]);
        assert t[k] == front[k];
      }
      if exists k :: 0 <= k < |t| && w in rowWarnings(k, t[k]) {
        var k :| 0 <= k < |t| && w in rowWarnings(k, t[k]);
        if k < last {
          assert front[k] == t[k];
        }
      }
    }
  }

  // ---------------------------------------------------------------------
  // Cepheid K-correction

  /** What the Cepheid correction reads besides the tables: the Teff power
      law's `10**`, the colour coefficient `R`, the colour excess and the
      Milky Way switch. */
  datatype CepheidSetup = CepheidSetup(pow10: real -> real, r: real, ebv: real, includeMW: bool)

  /** The three band interpolators of the Cepheid correction. */
  datatype CepheidBands = CepheidBands(i: Interp, h: Interp, v: Interp)

  /** Teff and logg from the period (equations 20 and 21 of Anderson 2022),
      [Fe/H] and z from the row, E(B-V) from the setup; not yet clamped. */
  function CepheidPoint(s: CepheidSetup, row: Row): (x: Point)
    ensures x.feh == row.metallicity && x.z == row.z && x.ebv == s.ebv
    ensures x.logg + 0.8808 * row.logP == 2.1909
    ensures x.teff == s.pow10(3.8094 - 0.0753 * row.logP)
  {
    Point(s.pow10(-0.0753 * row.logP + 3.8094), -0.8808 * row.logP + 2.1909, row.metallicity, row.z, s.ebv)
  }

  /** logg needs no clamping exactly for periods with
      0.1909 / 0.8808 <= log P <= 2.1909 / 0.8808, about 1.25 to 306 days. */
  lemma LoggClampFree(s: CepheidSetup, row: Row)
    ensures !ClampCoord(CepheidPoint(s, row), Logg).warned
            <==> 0.1909 / 0.8808 <= row.logP <= 2.1909 / 0.8808
  {
    var logg := CepheidPoint(s, row).logg;
    assert logg == -0.8808 * row.logP + 2.1909;
    assert 0.1909 / 0.8808 <= row.logP <==> logg <= 2.0;
    assert row.logP <= 2.1909 / 0.8808 <==> 0.0 <= logg;
  }

  /** The combined K-correction `H - R (V - I)` at a point. */
  function KCorrCep(bands: CepheidBands, r: real, x: Point): (k: real)
    ensures bands.v(x) == bands.i(x) || r == 0.0 ==> k == bands.h(x)
    ensures bands.h(x) - k == r * (bands.v(x) - bands.i(x))
  {
    bands.h(x) - r * (bands.v(x) - bands.i(x))
  }

  /** One Cepheid row: `mW` loses the K-correction at the clamped point; no
      other column changes. */
  function CepheidRow(s: CepheidSetup, bands: CepheidBands, row: Row): (out: Row)
    ensures out.(mW := row.mW) == row
    ensures out.mW + KCorrCep(bands, s.r, ClampPoint(CepheidPoint(s, row))) == row.mW
  {
    row.(mW := row.mW - KCorrCep(bands, s.r, ClampPoint(CepheidPoint(s, row))))
  }

  /** A row whose inputs all lie inside the ranges is corrected at its own
      point and draws no warning. */
  lemma CepheidRowInRange(s: CepheidSetup, bands: CepheidBands, g: Group, k: nat, row: Row)
    requires forall c :: c != EBV ==> Range(c).0 <= CepheidPoint(s, row).Get(c) <= Range(c).1
    ensures ClampPoint(CepheidPoint(s, row)) == CepheidPoint(s, row)
    ensures CepheidRowWarnings(g, k, CepheidPoint(s, row)) == []
  {
    var x := CepheidPoint(s, row);
    assert !ClampCoord(x, Teff).warned && !ClampCoord(x, Logg).warned;
    assert !ClampCoord(x, FeH).warned && !ClampCoord(x, Z).warned;
  }

  /** The warnings the Cepheid correction prints for one table. */
  function CepheidWarnings(s: CepheidSetup, g: Group, t: Table): seq<Warning> {
    TableWarnings(t, (k: nat, row: Row) => CepheidRowWarnings(g, k, CepheidPoint(s, row)))
  }

  /** Every clamped input of every Cepheid row is reported, with its row
      and its value before clamping, and nothing else is. */
  lemma CepheidWarningsExact(s: CepheidSetup, g: Group, t: Table, w: Warning)
    ensures w in CepheidWarnings(s, g, t) <==>
              w.group == g && w.row < |t| && w.parameter != EBV
              && ClampCoord(CepheidPoint(s, t[w.row]), w.parameter).warned
              && w.original == CepheidPoint(s, t[w.row]).Get(w.parameter)
  {
    var rw := (k: nat, row: Row) => CepheidRowWarnings(g, k, CepheidPoint(s, row));
    TableWarningsExact(t, rw, w);
    forall k | 0 <= k < |t|
      ensures w in rw(k, t[k]) <==> w.row == k && w in CepheidRowWarnings(g, w.row, CepheidPoint(s, t[w.row]))
    {
      CepheidRowWarningsExact(g, k, CepheidPoint(s, t[k]), w);
    }
    if w.row < |t| {
      CepheidRowWarningsExact(g, w.row, CepheidPoint(s, t[w.row]), w);
    }
  }

  /** Result of a K-correction: the corrected tables, the interpolators
      (returned for reuse) and the printed warnings. */
  datatype KCorrected = KCorrected(data: Partition, interps: Interpolators, warnings: seq<Warning>)

  /** The interpolators to use: the cached ones, or new ones built from the table. */
  function LoadInterpolators(makeInterp: Grid -> Interp, table: seq<TableRow>, isCep: bool,
                             cached: Option<Interpolators>): (ip: Interpolators)
    ensures cached.Some? ==> ip == cached.value
    ensures cached.None? ==> ip == InterpolateFunction(makeInterp, table, isCep)
  {
    if cached.None? then InterpolateFunction(makeInterp, table, isCep) else cached.value
  }

  /** interpolated_K_corr_Cep. The cached interpolators, when given, must
      hold the H and V bands: the source unpacks three functions from them. */
  function InterpolatedKCorrCep(makeInterp: Grid -> Interp, table: seq<TableRow>, s: CepheidSetup,
                                p: Partition, cached: Option<Interpolators>): (r: KCorrected)
    requires cached.Some? ==> cached.value.h.Some? && cached.value.v.Some?
    ensures r.interps == LoadInterpolators(makeInterp, table, true, cached)
    ensures var bands := CepheidBands(r.interps.i, r.interps.h.value, r.interps.v.value);
            && r.data.cepheids == MapRows(p.cepheids, row => CepheidRow(s, bands, row))
            && r.data.anchors == MapRows(p.anchors, row => CepheidRow(s, bands, row))
            && r.data.milkyWay == (if s.includeMW then MapRows(p.milkyWay, row => CepheidRow(s, bands, row))
                                   else p.milkyWay)
    ensures r.data.trgb == p.trgb && r.data.trgbAnchors == p.trgbAnchors && r.data.sneHubble == p.sneHubble
    ensures r.warnings == CepheidWarnings(s, Cepheids, p.cepheids) + CepheidWarnings(s, CepheidAnchors, p.anchors)
                          + (if s.includeMW then CepheidWarnings(s, CepheidMW, p.milkyWay) else [])
  {
    var ip := LoadInterpolators(makeInterp, table, true, cached);
    var bands := CepheidBands(ip.i, ip.h.value, ip.v.value);
    var correct := (row: Row) => CepheidRow(s, bands, row);
    KCorrected(
      p.(cepheids := MapRows(p.cepheids, correct),
         anchors := MapRows(p.anchors, correct),
         milkyWay := if s.includeMW then MapRows(p.milkyWay, correct) else p.milkyWay),
      ip,
      CepheidWarnings(s, Cepheids, p.cepheids) + CepheidWarnings(s, CepheidAnchors, p.anchors)
      + (if s.includeMW then CepheidWarnings(s, CepheidMW, p.milkyWay) else []))
  }

  /** Passing back the interpolators a first call returned corrects any
      later tables exactly as building them again would. */
  lemma CepheidCacheReuse(makeInterp: Grid -> Interp, table: seq<TableRow>, s: CepheidSetup, p: Partition, q: Partition)
    ensures var first := InterpolatedKCorrCep(makeInterp, table, s, p, None);
            first.interps.h.Some? && first.interps.v.Some?
            && InterpolatedKCorrCep(makeInterp, table, s, q, Some(first.interps))
               == InterpolatedKCorrCep(makeInterp, table, s, q, None)
  {
  }

  // ---------------------------------------------------------------------
  // TRGB K-correction

  /** The fixed stellar parameters of the TRGB correction. */
  datatype TRGBSetup = TRGBSetup(teff: real, logg: real, feh: real, ebv: real)

  /** The TRGB point before clamping: only z comes from the row. */
  function TRGBRawPoint(s: TRGBSetup, row: Row): Point {
    Point(s.teff, s.logg, s.feh, row.z, s.ebv)
  }

  /** The TRGB interpolation point: only z is clamped; the fixed parameters
      are used as given, even outside the ranges of the grid. */
  function TRGBPoint(s: TRGBSetup, row: Row): (x: Point)
    ensures x.teff == s.teff && x.logg == s.logg && x.feh == s.feh && x.ebv == s.ebv
    ensures Range(Z).0 <= x.z <= Range(Z).1
    ensures Range(Z).0 <= row.z <= Range(Z).1 ==> x.z == row.z
  {
    var raw := TRGBRawPoint(s, row);
    raw.(z := ClampCoord(raw, Z).value)
  }

  /** One TRGB row: `m` loses the I-band K-correction; no other column changes. */
  function TRGBRow(s: TRGBSetup, i: Interp, row: Row): (out: Row)
    ensures out.(m := row.m) == row
    ensures out.m + i(TRGBPoint(s, row)) == row.m
  {
    row.(m := row.m - i(TRGBPoint(s, row)))
  }

  /** The warnings the TRGB correction prints for one table. */
  function TRGBWarnings(s: TRGBSetup, g: Group, t: Table): seq<Warning> {
    TableWarnings(t, (k: nat, row: Row) => Flag(g, k, TRGBRawPoint(s, row), Z))
  }

  /** A TRGB row draws a warning exactly when its redshift lies outside
      [0, 0.03], and the warning carries that redshift. */
  lemma TRGBWarningsExact(s: TRGBSetup, g: Group, t: Table, w: Warning)
    ensures w in TRGBWarnings(s, g, t) <==>
              w.group == g && w.row < |t| && w.parameter == Z && w.original == t[w.row].z
              && (t[w.row].z < 0.0 || 0.03 < t[w.row].z)
  {
    var rw := (k: nat, row: Row) => Flag(g, k, TRGBRawPoint(s, row), Z);
    TableWarningsExact(t, rw, w);
    forall k | 0 <= k < |t|
      ensures w in rw(k, t[k]) <==> w == Warning(g, k, Z, t[k].z) && (t[k].z < 0.0 || 0.03 < t[k].z)
    {
      assert TRGBRawPoint(s, t[k]).Get(Z) == t[k].z;
    }
  }

  /** interpolated_K_corr_TRGB: corrects the TRGB and TRGB anchor tables
      with the I band; only the first cached interpolator is read. */
  function InterpolatedKCorrTRGB(makeInterp: Grid -> Interp, table: seq<TableRow>, s: TRGBSetup,
                                 p: Partition, cached: Option<Interpolators>): (r: KCorrected)
    ensures r.interps == LoadInterpolators(makeInterp, table, false, cached)
    ensures r.data.trgb == MapRows(p.trgb, row => TRGBRow(s, r.interps.i, row))
    ensures r.data.trgbAnchors == MapRows(p.trgbAnchors, row => TRGBRow(s, r.interps.i, row))
    ensures r.data.cepheids == p.cepheids && r.data.anchors == p.anchors && r.data.milkyWay == p.milkyWay
    ensures r.data.sneHubble == p.sneHubble
    ensures r.warnings == TRGBWarnings(s, TRGB, p.trgb) + TRGBWarnings(s, TRGBAnchors, p.trgbAnchors)
  {
    var ip := LoadInterpolators(makeInterp, table, false, cached);
    var correct := (row: Row) => TRGBRow(s, ip.i, row);
    KCorrected(
      p.(trgb := MapRows(p.trgb, correct), trgbAnchors := MapRows(p.trgbAnchors, correct)),
      ip,
      TRGBWarnings(s, TRGB, p.trgb) + TRGBWarnings(s, TRGBAnchors, p.trgbAnchors))
  }

  /** The same holds for the TRGB correction. */
  lemma TRGBCacheReuse(makeInterp: Grid -> Interp, table: seq<TableRow>, s: TRGBSetup, p: Partition, q: Partition)
    ensures var first := InterpolatedKCorrTRGB(makeInterp, table, s, p, None);
            InterpolatedKCorrTRGB(makeInterp, table, s, q, Some(first.interps))
            == InterpolatedKCorrTRGB(makeInterp, table, s, q, None)
  {
  }

  /** The Cepheid and the TRGB corrections touch disjoint tables and read
      nothing the other writes, so their order does not matter. */
  lemma CepheidAndTRGBCommute(makeInterp: Grid -> Interp, table: seq<TableRow>, cs: CepheidSetup,
                              ts: TRGBSetup, p: Partition, cepCache: Option<Interpolators>,
                              trgbCache: Option<Interpolators>)
    requires cepCache.Some? ==> cepCache.value.h.Some? && cepCache.value.v.Some?
    ensures var cepFirst := InterpolatedKCorrCep(makeInterp, table, cs, p, cepCache);
            var trgbFirst := InterpolatedKCorrTRGB(makeInterp, table, ts, p, trgbCache);
            InterpolatedKCorrTRGB(makeInterp, table, ts, cepFirst.data, trgbCache).data
            == InterpolatedKCorrCep(makeInterp, table, cs, trgbFirst.data, cepCache).data
  {
  }
}
