/** The earlier K-corrections (`old_K_corr_Cep`, `old_K_corr_TRGB` in
    code/relativistic_corrections.py): linear fits in redshift read from
    reference tables of Anderson (2022) instead of the interpolated grid.
    The filter is chosen by its name, as in the source. */
module LegacyCorrections {
  import opened Results
  import opened Tables

  predicate StrictlyIncreasing(s: seq<real>) {
    forall i, j :: 0 <= i < j < |s| ==> s[i] < s[j]
  }

  /** The slope and intercept of the colour term at a redshift. */
  datatype Coefficients = Coefficients(m: real, c: real)

  /** Reference nodes: redshifts and the slope and intercept at each. */
  datatype References = References(z: seq<real>, m: seq<real>, c: seq<real>)
  {
    predicate Valid() {
      |z| >= 2 && |m| == |z| && |c| == |z|
    }

    function Node(k: nat): Coefficients
      requires Valid() && k < |z|
    {
      Coefficients(m[k], c[k])
    }
  }

  /** The straight line through `(z0, y0)` and `(z1, y1)`, read at `z`. */
  function Lerp(z: real, z0: real, z1: real, y0: real, y1: real): real
    requires z0 < z1
  {
    y0 + (z - z0) * (y1 - y0) / (z1 - z0)
  }

  /** Inside its segment the line stays between the two end values. */
  lemma LerpBetween(z: real, z0: real, z1: real, y0: real, y1: real)
    requires z0 <= z < z1
    ensures y0 <= y1 ==> y0 <= Lerp(z, z0, z1, y0, y1) <= y1
    ensures y1 <= y0 ==> y1 <= Lerp(z, z0, z1, y0, y1) <= y0
  {
    var d, a, b := z1 - z0, z - z0, y1 - y0;
    var t := a / d;
    assert a == t * d;
    assert a * b / d == t * b;
    assert 0.0 <= t < 1.0;
    if 0.0 <= b {
      MulNonNegative(t, b);
      MulNonNegative(1.0 - t, b);
    } else {
      MulNonNegative(t, -b);
      MulNonNegative(1.0 - t, -b);
    }
  }

  lemma MulNonNegative(x: real, y: real)
    requires 0.0 <= x && 0.0 <= y
    ensures 0.0 <= x * y
  {
  }

  predicate InSegment(zs: seq<real>, i: nat, z: real)
    requires i + 1 < |zs|
  {
    zs[i] <= z < zs[i + 1]
  }

  /** The first segment at or after `i` that holds `z`, scanning forward. */
  function FindSegment(zs: seq<real>, z: real, i: nat): (r: Option<nat>)
    requires i < |zs|
    ensures r.Some? ==> i <= r.value && r.value + 1 < |zs| && InSegment(zs, r.value, z)
    ensures r.Some? ==> forall j :: i <= j < r.value ==> !InSegment(zs, j, z)
    ensures r.None? ==> forall j :: i <= j && j + 1 < |zs| ==> !InSegment(zs, j, z)
    decreases |zs| - i
  {
    if i + 1 == |zs| then None
    else if InSegment(zs, i, z) then Some(i)
    else FindSegment(zs, z, i + 1)
  }

  /** `interpolate` inside old_K_corr_Cep, as written: the line through the
      first segment holding `z`; below the first node the first node; at
      or above the last node the node before the last (`[-2]`). */
  function InterpolateAsWritten(refs: References, z: real): (co: Coefficients)
    requires refs.Valid()
    ensures (exists i :: 0 <= i && i + 1 < |refs.z| && InSegment(refs.z, i, z))
            || co == (if z < refs.z[0] then refs.Node(0) else refs.Node(|refs.z| - 2))
  {
    match FindSegment(refs.z, z, 0)
    case Some(i) =>
      Coefficients(Lerp(z, refs.z[i], refs.z[i + 1], refs.m[i], refs.m[i + 1]),
                   Lerp(z, refs.z[i], refs.z[i + 1], refs.c[i], refs.c[i + 1]))
    case None =>
      if z < refs.z[0] then refs.Node(0) else refs.Node(|refs.z| - 2)
  }

  /** The same, with the last node used at and above it, as the first node
      is used below it. */
  function Interpolate(refs: References, z: real): (co: Coefficients)
    requires refs.Valid()
    ensures (exists i :: 0 <= i && i + 1 < |refs.z| && InSegment(refs.z, i, z))
            || co == (if z < refs.z[0] then refs.Node(0) else refs.Node(|refs.z| - 1))
    ensures (exists i :: 0 <= i && i + 1 < |refs.z| && InSegment(refs.z, i, z)) || z < refs.z[0]
            ==> co == InterpolateAsWritten(refs, z)
  {
    match FindSegment(refs.z, z, 0)
    case Some(i) =>
      Coefficients(Lerp(z, refs.z[i], refs.z[i + 1], refs.m[i], refs.m[i + 1]),
                   Lerp(z, refs.z[i], refs.z[i + 1], refs.c[i], refs.c[i + 1]))
    case None =>
      if z < refs.z[0] then refs.Node(0) else refs.Node(|refs.z| - 1)
  }

  /** On increasing nodes the segment holding `z` is unique. */
  lemma SegmentUnique(zs: seq<real>, z: real, k: nat)
    requires StrictlyIncreasing(zs) && k + 1 < |zs| && InSegment(zs, k, z)
    ensures FindSegment(zs, z, 0) == Some(k)
  {
  }

  /** Within a segment both versions read the line through its end nodes,
      so they agree there and stay between the node values. */
  lemma InterpolateInSegment(refs: References, z: real, k: nat)
    requires refs.Valid() && StrictlyIncreasing(refs.z) && k + 1 < |refs.z| && InSegment(refs.z, k, z)
    ensures Interpolate(refs, z) == InterpolateAsWritten(refs, z)
    ensures refs.m[k] <= refs.m[k + 1] ==> refs.m[k] <= Interpolate(refs, z).m <= refs.m[k + 1]
    ensures refs.m[k + 1] <= refs.m[k] ==> refs.m[k + 1] <= Interpolate(refs, z).m <= refs.m[k]
    ensures refs.c[k] <= refs.c[k + 1] ==> refs.c[k] <= Interpolate(refs, z).c <= refs.c[k + 1]
    ensures refs.c[k + 1] <= refs.c[k] ==> refs.c[k + 1] <= Interpolate(refs, z).c <= refs.c[k]
  {
    SegmentUnique(refs.z, z, k);
    LerpBetween(z, refs.z[k], refs.z[k + 1], refs.m[k], refs.m[k + 1]);
    LerpBetween(z, refs.z[k], refs.z[k + 1], refs.c[k], refs.c[k + 1]);
  }

  /** At every node but the last both versions return that node's values. */
  lemma InterpolateAtInnerNode(refs: References, k: nat)
    requires refs.Valid() && StrictlyIncreasing(refs.z) && k + 1 < |refs.z|
    ensures InterpolateAsWritten(refs, refs.z[k]) == refs.Node(k)
    ensures Interpolate(refs, refs.z[k]) == refs.Node(k)
  {
    SegmentUnique(refs.z, refs.z[k], k);
  }

  /** No segment holds a redshift outside the nodes. */
  lemma NoSegmentOutside(zs: seq<real>, z: real)
    requires StrictlyIncreasing(zs) && |zs| >= 2 && (z < zs[0] || zs[|zs| - 1] <= z)
    ensures FindSegment(zs, z, 0).None?
  {
  }

  /** Below the first node both versions hold the first node's values. */
  lemma InterpolateBelow(refs: References, z: real)
    requires refs.Valid() && StrictlyIncreasing(refs.z) && z < refs.z[0]
    ensures InterpolateAsWritten(refs, z) == refs.Node(0)
    ensures Interpolate(refs, z) == refs.Node(0)
  {
    NoSegmentOutside(refs.z, z);
  }

  /** At or above the last node the code as written holds the values of the
      node before the last, the corrected version those of the last. */
  lemma InterpolateAbove(refs: References, z: real)
    requires refs.Valid() && StrictlyIncreasing(refs.z) && refs.z[|refs.z| - 1] <= z
    ensures InterpolateAsWritten(refs, z) == refs.Node(|refs.z| - 2)
    ensures Interpolate(refs, z) == refs.Node(|refs.z| - 1)
  {
    NoSegmentOutside(refs.z, z);
  }

  // ---------------------------------------------------------------------
  // Reference tables

  /** The reference redshifts, shared by every filter. */
  const ZRef: seq<real> := [0.0019, 0.0056, 0.0098, 0.0172, 0.0245]

  function Milli(s: seq<real>): (r: seq<real>)
    ensures |r| == |s| && forall k :: 0 <= k < |s| ==> r[k] == s[k] / 1000.0
  {
    seq(|s|, k requires 0 <= k < |s| => s[k] / 1000.0)
  }

  /** The slope and intercept tables of each filter, in units of 10^-3;
      `None` for a filter without tables. */
  function CepheidReferences(filter: string): (r: Option<References>)
    ensures r.Some? <==> filter in {"W", "F555W", "F814W", "F160W"}
    ensures r.Some? ==> r.value.Valid() && r.value.z == ZRef
  {
    if filter == "W" then
      Some(References(ZRef, Milli([3.48, 2.68, 1.89, 1.07, 0.31]), Milli([0.51, 1.74, 3.25, 5.96, 8.05])))
    else if filter == "F555W" then
      Some(References(ZRef, Milli([-2.84, -8.65, -15.16, -26.85, -38.66]), Milli([-1.74, -5.47, -9.48, -15.67, -20.51])))
    else if filter == "F814W" then
      Some(References(ZRef, Milli([-1.02, -3.11, -5.47, -9.40, -12.73]), Milli([-0.17, -0.91, -1.79, -2.82, -4.02])))
    else if filter == "F160W" then
      Some(References(ZRef, Milli([-1.18, -3.53, -6.04, -10.10, -14.38]), Milli([1.00, 1.93, 3.19, 5.69, 8.28])))
    else None
  }

  lemma ZRefIncreasing()
    ensures StrictlyIncreasing(ZRef)
  {
  }

  /** In the Wesenheit table the code as written jumps at the last node:
      just below it the slope is close to the last node's 0.31e-3, at it
      the slope is the node before's 1.07e-3. */
  lemma AsWrittenJumpsAtLastNode()
    ensures var refs := CepheidReferences("W").value;
            && InterpolateAsWritten(refs, 0.0245).m == 1.07 / 1000.0
            && InterpolateAsWritten(refs, 0.0244).m < 0.33 / 1000.0
            && Interpolate(refs, 0.0245).m == 0.31 / 1000.0
  {
    var refs := CepheidReferences("W").value;
    ZRefIncreasing();
    InterpolateAbove(refs, 0.0245);
    InterpolateInSegment(refs, 0.0244, 3);
    SegmentUnique(refs.z, 0.0244, 3);
  }

  // ---------------------------------------------------------------------
  // Cepheid correction

  /** The colour term added to a Cepheid magnitude: the interpolated line in
      log P, times z (V-I), less the 0.105 z (V-I) of the Fitzpatrick (1999)
      redshift law. */
  function CepheidShift(co: Coefficients, row: Row): real {
    (co.m * row.logP + co.c) * row.z * row.colorVI - 0.105 * row.z * row.colorVI
  }

  /** At zero redshift the colour term vanishes. */
  lemma CepheidShiftZero(co: Coefficients, row: Row)
    requires row.z == 0.0
    ensures CepheidShift(co, row) == 0.0
  {
  }

  function LegacyCepheidRow(refs: References, row: Row): (out: Row)
    requires refs.Valid()
    ensures out.(mW := row.mW) == row
    ensures out.mW - row.mW == CepheidShift(InterpolateAsWritten(refs, row.z), row)
  {
    row.(mW := row.mW + CepheidShift(InterpolateAsWritten(refs, row.z), row))
  }

  /** A Cepheid row with the corrected interpolation. */
  function LegacyCepheidRowCorrected(refs: References, row: Row): (out: Row)
    requires refs.Valid()
    ensures out.(mW := row.mW) == row
    ensures out.mW - row.mW == CepheidShift(Interpolate(refs, row.z), row)
  {
    row.(mW := row.mW + CepheidShift(Interpolate(refs, row.z), row))
  }

  /** The Milky Way rows as written: the corrected magnitude goes into a
      new column `MW`; `mW` keeps its value. */
  function LegacyMWRow(refs: References, row: Row): (out: Row)
    requires refs.Valid()
    ensures out.(columnMW := row.columnMW) == row
    ensures out.columnMW == Some(row.mW + CepheidShift(InterpolateAsWritten(refs, row.z), row))
  {
    row.(columnMW := Some(row.mW + CepheidShift(InterpolateAsWritten(refs, row.z), row)))
  }

  /** The number of rows the correction reaches. */
  function CepheidRowCount(includeMW: bool, p: Partition): nat {
    |p.cepheids| + |p.anchors| + (if includeMW then |p.milkyWay| else 0)
  }

  /** old_K_corr_Cep as written. A filter without tables is reported by the
      source and then fails at the first row it tries to correct, so it is
      an error exactly when there is such a row. */
  function LegacyKCorrCep(filter: string, includeMW: bool, p: Partition): (r: Result<Partition>)
    ensures r.Err? <==> CepheidReferences(filter).None? && CepheidRowCount(includeMW, p) > 0
    ensures r.Ok? && CepheidReferences(filter).None? ==> r.value == p
    ensures r.Ok? ==> r.value.trgb == p.trgb && r.value.trgbAnchors == p.trgbAnchors
                      && r.value.sneHubble == p.sneHubble
    ensures r.Ok? ==> |r.value.milkyWay| == |p.milkyWay|
                      && forall k :: 0 <= k < |p.milkyWay| ==> r.value.milkyWay[k].mW == p.milkyWay[k].mW
    ensures r.Ok? && CepheidReferences(filter).Some? ==>
              && |r.value.cepheids| == |p.cepheids| && |r.value.anchors| == |p.anchors|
              && (forall k :: 0 <= k < |p.cepheids| ==>
                    r.value.cepheids[k] == LegacyCepheidRow(CepheidReferences(filter).value, p.cepheids[k]))
              && (forall k :: 0 <= k < |p.anchors| ==>
                    r.value.anchors[k] == LegacyCepheidRow(CepheidReferences(filter).value, p.anchors[k]))
    ensures r.Ok? && CepheidReferences(filter).Some? && includeMW ==>
              forall k :: 0 <= k < |p.milkyWay| ==>
                r.value.milkyWay[k] == LegacyMWRow(CepheidReferences(filter).value, p.milkyWay[k])
    ensures r.Ok? && !includeMW ==> r.value.milkyWay == p.milkyWay
  {
    match CepheidReferences(filter)
    case None => if CepheidRowCount(includeMW, p) > 0 then Err(UnknownFilter) else Ok(p)
    case Some(refs) =>
      Ok(p.(cepheids := MapRows(p.cepheids, row => LegacyCepheidRow(refs, row)),
            anchors := MapRows(p.anchors, row => LegacyCepheidRow(refs, row)),
            milkyWay := if includeMW then MapRows(p.milkyWay, row => LegacyMWRow(refs, row)) else p.milkyWay))
  }

  /** old_K_corr_Cep with the Milky Way magnitudes corrected in place like
      the other Cepheids, and the corrected interpolation. */
  function LegacyKCorrCepCorrected(filter: string, includeMW: bool, p: Partition): (r: Result<Partition>)
    ensures r.Err? <==> CepheidReferences(filter).None? && CepheidRowCount(includeMW, p) > 0
    ensures r.Ok? && CepheidReferences(filter).None? ==> r.value == p
    ensures r.Ok? ==> r.value.trgb == p.trgb && r.value.trgbAnchors == p.trgbAnchors
                      && r.value.sneHubble == p.sneHubble
    ensures r.Ok? && CepheidReferences(filter).Some? ==>
              && |r.value.cepheids| == |p.cepheids| && |r.value.anchors| == |p.anchors|
              && |r.value.milkyWay| == |p.milkyWay|
              && (forall k :: 0 <= k < |p.cepheids| ==>
                    r.value.cepheids[k] == LegacyCepheidRowCorrected(CepheidReferences(filter).value, p.cepheids[k]))
              && (forall k :: 0 <= k < |p.anchors| ==>
                    r.value.anchors[k] == LegacyCepheidRowCorrected(CepheidReferences(filter).value, p.anchors[k]))
    ensures r.Ok? && CepheidReferences(filter).Some? && includeMW ==>
              forall k :: 0 <= k < |p.milkyWay| ==>
                r.value.milkyWay[k] == LegacyCepheidRowCorrected(CepheidReferences(filter).value, p.milkyWay[k])
    ensures r.Ok? && !includeMW ==> r.value.milkyWay == p.milkyWay
  {
    match CepheidReferences(filter)
    case None => if CepheidRowCount(includeMW, p) > 0 then Err(UnknownFilter) else Ok(p)
    case Some(refs) =>
      var correct := row => LegacyCepheidRowCorrected(refs, row);
      Ok(p.(cepheids := MapRows(p.cepheids, correct),
            anchors := MapRows(p.anchors, correct),
            milkyWay := if includeMW then MapRows(p.milkyWay, correct) else p.milkyWay))
  }

  /** With the Milky Way included, the corrected version gives every
      Cepheid table the same row update, and a Milky Way row's magnitude
      there is the value the code as written parks in the `MW` column,
      wherever the two interpolations agree. */
  lemma MWCorrectedLikeOthers(filter: string, p: Partition, k: nat)
    requires CepheidReferences(filter).Some? && k < |p.milkyWay|
    requires p.milkyWay[k].z < ZRef[4]
    ensures LegacyKCorrCepCorrected(filter, true, p).Ok? && LegacyKCorrCep(filter, true, p).Ok?
    ensures LegacyKCorrCep(filter, true, p).value.milkyWay[k].columnMW
            == Some(LegacyKCorrCepCorrected(filter, true, p).value.milkyWay[k].mW)
  {
    var refs := CepheidReferences(filter).value;
    var z := p.milkyWay[k].z;
    ZRefIncreasing();
    if z < ZRef[0] {
      InterpolateBelow(refs, z);
    } else {
      var i :| 0 <= i < 4 && ZRef[i] <= z < ZRef[i + 1];
      InterpolateInSegment(refs, z, i);
    }
  }

  /** A row at zero redshift is left as it was by the correction as written. */
  lemma LegacyCepheidZeroRedshift(filter: string, includeMW: bool, p: Partition, k: nat)
    requires CepheidReferences(filter).Some? && k < |p.cepheids| && p.cepheids[k].z == 0.0
    ensures LegacyKCorrCep(filter, includeMW, p).Ok?
    ensures LegacyKCorrCep(filter, includeMW, p).value.cepheids[k] == p.cepheids[k]
  {
    CepheidShiftZero(InterpolateAsWritten(CepheidReferences(filter).value, 0.0), p.cepheids[k]);
  }

  // ---------------------------------------------------------------------
  // TRGB correction

  /** The quadratic-in-z coefficients of each band; `None` for any other
      filter name. */
  function TRGBCoefficients(filter: string): (r: Option<(real, real)>)
    ensures r.Some? <==> filter in {"V", "I", "H"}
  {
    if filter == "V" then Some((-0.0012, -4.1162))
    else if filter == "I" then Some((-0.0004, -1.4075))
    else if filter == "H" then Some((0.0001, -1.6241))
    else None
  }

  /** The colour term added to a TRGB magnitude. */
  function TRGBShift(ab: (real, real), row: Row): real {
    (ab.0 + ab.1 * row.z) * row.z * row.colorVI
  }

  function LegacyTRGBRow(ab: (real, real), row: Row): (out: Row)
    ensures out.(m := row.m) == row
    ensures out.m - row.m == TRGBShift(ab, row)
  {
    row.(m := row.m + TRGBShift(ab, row))
  }

  /** old_K_corr_TRGB: `None` (the source returns nothing) for an unknown
      filter; otherwise the TRGB and TRGB anchor magnitudes corrected and
      every other table left as it was. */
  function LegacyKCorrTRGB(filter: string, p: Partition): (r: Option<Partition>)
    ensures r.None? <==> filter !in {"V", "I", "H"}
    ensures r.Some? ==> |r.value.trgb| == |p.trgb| && |r.value.trgbAnchors| == |p.trgbAnchors|
    ensures r.Some? ==>
              && (forall k :: 0 <= k < |p.trgb| ==>
                    r.value.trgb[k] == LegacyTRGBRow(TRGBCoefficients(filter).value, p.trgb[k]))
              && (forall k :: 0 <= k < |p.trgbAnchors| ==>
                    r.value.trgbAnchors[k] == LegacyTRGBRow(TRGBCoefficients(filter).value, p.trgbAnchors[k]))
    ensures r.Some? ==> r.value.cepheids == p.cepheids && r.value.anchors == p.anchors
                        && r.value.milkyWay == p.milkyWay && r.value.sneHubble == p.sneHubble
  {
    match TRGBCoefficients(filter)
    case None => None
    case Some(ab) =>
      Some(p.(trgb := MapRows(p.trgb, row => LegacyTRGBRow(ab, row)),
              trgbAnchors := MapRows(p.trgbAnchors, row => LegacyTRGBRow(ab, row))))
  }

  /** Takes the colour term of a corrected row back off. */
  function UndoTRGBRow(ab: (real, real), row: Row): Row {
    row.(m := row.m - TRGBShift(ab, row))
  }

  /** The correction only adds the colour term, and the term reads the
      redshift and colour, which the correction leaves alone: taking it
      back off recovers the original row. */
  lemma LegacyTRGBRowInverse(ab: (real, real), row: Row)
    ensures UndoTRGBRow(ab, LegacyTRGBRow(ab, row)) == row
  {
  }

  /** Undoing the correction row by row recovers both TRGB tables. */
  lemma {:induction false} LegacyTRGBInverse(filter: string, p: Partition)
    requires filter in {"V", "I", "H"}
    ensures LegacyKCorrTRGB(filter, p).Some?
    ensures var ab, q := TRGBCoefficients(filter).value, LegacyKCorrTRGB(filter, p).value;
            && MapRows(q.trgb, row => UndoTRGBRow(ab, row)) == p.trgb
            && MapRows(q.trgbAnchors, row => UndoTRGBRow(ab, row)) == p.trgbAnchors
  {
    var ab, q := TRGBCoefficients(filter).value, LegacyKCorrTRGB(filter, p).value;
    forall k | 0 <= k < |p.trgb|
      ensures UndoTRGBRow(ab, q.trgb[k]) == p.trgb[k]
    {
      LegacyTRGBRowInverse(ab, p.trgb[k]);
    }
    forall k | 0 <= k < |p.trgbAnchors|
      ensures UndoTRGBRow(ab, q.trgbAnchors[k]) == p.trgbAnchors[k]
    {
      LegacyTRGBRowInverse(ab, p.trgbAnchors[k]);
    }
  }

  /** A TRGB row at zero redshift, or of zero colour, is left as it was. */
  lemma LegacyTRGBNeutral(filter: string, p: Partition, k: nat)
    requires filter in {"V", "I", "H"} && k < |p.trgb| && (p.trgb[k].z == 0.0 || p.trgb[k].colorVI == 0.0)
    ensures LegacyKCorrTRGB(filter, p).Some?
    ensures LegacyKCorrTRGB(filter, p).value.trgb[k] == p.trgb[k]
  {
    var ab := TRGBCoefficients(filter).value;
    assert TRGBShift(ab, p.trgb[k]) == 0.0;
  }
}
