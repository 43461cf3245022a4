/** Single kappa-clipping outlier rejection (code/outliers_rejection.py).

    Each pass fits the active tables, computes the residuals `y - L q`, finds
    the worst Cepheid-family residual and the worst supernova residual, and,
    while the worst of the two reaches `kappa` standard deviations, moves the
    row it belongs to from the active tables to the excluded ones and fits
    again. The fit itself is the parameter `fit`; the square root inside
    `np.std` is the parameter `sqrt`. */
module KappaClipping {
  import opened Results
  import opened Sequences
  import opened Tables

  /** The settings the clipping reads from the global configuration. */
  datatype Config = Config(includeCepheids: bool, includeMW: bool, fitAB: bool, kappa: real)

  /** One entry of the fit's ordered estimate map: name -> [estimate, uncertainty]. */
  datatype Estimate = Estimate(name: string, value: real, sigma: real)

  /** The first three components the external fit returns: the response
      vector, the ordered estimate map and the design matrix (one row per
      entry of `y`). */
  datatype FitResult = FitResult(y: seq<real>, estimates: seq<Estimate>, design: seq<seq<real>>)

  type NonNegReal = x: real | 0.0 <= x

  // ---------------------------------------------------------------------
  // The parameter vector q

  /** The two entries of the estimate map that are not fitted parameters. */
  predicate Skipped(name: string) {
    name == "H0" || name == "chi2/dof"
  }

  /** The estimates of the map, in iteration order, leaving out `H0` and `chi2/dof`. */
  function Parameters(est: seq<Estimate>): (q: seq<real>)
    ensures |q| <= |est|
    decreases |est|
  {
    if |est| == 0 then []
    else
      var last := est[|est| - 1];
      Parameters(est[..|est| - 1]) + (if Skipped(last.name) then [] else [last.value])
  }

  /** The parameters of a prefix of the map are a prefix of the parameters. */
  lemma {:induction false} ParametersPrefix(est: seq<Estimate>, k: nat)
    requires k <= |est|
    ensures Parameters(est[..k]) <= Parameters(est)
    decreases |est|
  {
    if k < |est| {
      var init := est[..|est| - 1];
      assert init[..k] == est[..k];
      ParametersPrefix(init, k);
    } else {
      assert est[..k] == est;
    }
  }

  /** Every kept entry lands in q, at the position given by the number of
      kept entries before it. */
  lemma {:induction false} ParametersKeepEntry(est: seq<Estimate>, k: nat)
    requires k < |est| && !Skipped(est[k].name)
    ensures |Parameters(est[..k])| < |Parameters(est)|
    ensures Parameters(est)[|Parameters(est[..k])|] == est[k].value
  {
    var upTo := est[..k + 1];
    assert upTo[..k] == est[..k];
    assert Parameters(upTo) == Parameters(est[..k]) + [est[k].value];
    ParametersPrefix(est, k + 1);
  }

  /** Every entry of q comes from a kept entry `k` of the map, the one whose
      position `ParametersKeepEntry` names. */
  lemma {:induction false} ParametersOnlyKept(est: seq<Estimate>, j: nat) returns (k: nat)
    requires j < |Parameters(est)|
    ensures k < |est| && !Skipped(est[k].name)
    ensures |Parameters(est[..k])| == j && Parameters(est)[j] == est[k].value
    decreases |est|
  {
    var init := est[..|est| - 1];
    var last := est[|est| - 1];
    assert Parameters(est) == Parameters(init) + (if Skipped(last.name) then [] else [last.value]);
    if j < |Parameters(init)| {
      k := ParametersOnlyKept(init, j);
      assert init[..k] == est[..k];
    } else {
      k := |est| - 1;
      assert est[..k] == init;
    }
  }

  // ---------------------------------------------------------------------
  // Residuals y - L q

  /** Row times vector, summed from the last term backwards. */
  function Dot(row: seq<real>, q: seq<real>): real
    requires |row| == |q|
    decreases |row|
  {
    if |row| == 0 then 0.0
    else Dot(row[..|row| - 1], q[..|q| - 1]) + row[|row| - 1] * q[|q| - 1]
  }

  /** The same product summed from the first term onwards. */
  function DotFromFront(row: seq<real>, q: seq<real>): real
    requires |row| == |q|
    decreases |row|
  {
    if |row| == 0 then 0.0 else row[0] * q[0] + DotFromFront(row[1..], q[1..])
  }

  lemma {:induction false} DotFromFrontLast(row: seq<real>, q: seq<real>)
    requires |row| == |q| && |row| > 0
    ensures DotFromFront(row, q)
            == DotFromFront(row[..|row| - 1], q[..|q| - 1]) + row[|row| - 1] * q[|q| - 1]
    decreases |row|
  {
    if |row| > 1 {
      DotFromFrontLast(row[1..], q[1..]);
      assert row[1..][..|row| - 2] == row[..|row| - 1][1..];
      assert q[1..][..|q| - 2] == q[..|q| - 1][1..];
    }
  }

  /** The order of summation does not change the product. */
  lemma {:induction false} DotOrderIndependent(row: seq<real>, q: seq<real>)
    requires |row| == |q|
    ensures Dot(row, q) == DotFromFront(row, q)
    decreases |row|
  {
    if |row| > 0 {
      DotOrderIndependent(row[..|row| - 1], q[..|q| - 1]);
      DotFromFrontLast(row, q);
    }
  }

  /** The design matrix has one row per entry of `y`, each as long as `q`. */
  predicate Conformable(y: seq<real>, design: seq<seq<real>>, q: seq<real>) {
    |design| == |y| && forall i :: 0 <= i < |design| ==> |design[i]| == |q|
  }

  function Residuals(y: seq<real>, design: seq<seq<real>>, q: seq<real>): (r: seq<real>)
    requires Conformable(y, design, q)
    ensures |r| == |y|
    ensures forall i :: 0 <= i < |y| ==> r[i] == y[i] - Dot(design[i], q)
    decreases |y|
  {
    if |y| == 0 then []
    else
      Residuals(y[..|y| - 1], design[..|design| - 1], q)
      + [y[|y| - 1] - Dot(design[|design| - 1], q)]
  }

  function Abs(x: real): real {
    if x < 0.0 then -x else x
  }

  /** The residuals as the pass compares them: signed in the first pass
      (the absolute value is commented out there), absolute afterwards. */
  function Magnitudes(r: seq<real>, signed: bool): (e: seq<real>)
    ensures |e| == |r|
    ensures signed ==> e == r
    ensures !signed ==> forall i :: 0 <= i < |r| ==> 0.0 <= e[i] && (e[i] == r[i] || e[i] == -r[i])
  {
    if signed then r else seq(|r|, i requires 0 <= i < |r| => Abs(r[i]))
  }

  // ---------------------------------------------------------------------
  // Population standard deviation (np.std)

  function Sum(s: seq<real>): real
    decreases |s|
  {
    if |s| == 0 then 0.0 else Sum(s[..|s| - 1]) + s[|s| - 1]
  }

  function SquaredDeviations(s: seq<real>, mean: real): (d: real)
    ensures 0.0 <= d
    decreases |s|
  {
    if |s| == 0 then 0.0
    else
      var x := s[|s| - 1] - mean;
      SquaredDeviations(s[..|s| - 1], mean) + x * x
  }

  function Variance(s: seq<real>): (v: real)
    requires |s| > 0
    ensures 0.0 <= v
  {
    SquaredDeviations(s, Sum(s) / |s| as real) / |s| as real
  }

  /** `np.std` of the signed residuals; `None` stands for the NaN NumPy
      returns for an empty vector, which makes every comparison false. */
  function Std(r: seq<real>, sqrt: real -> NonNegReal): (sd: Option<real>)
    ensures sd.None? <==> |r| == 0
    ensures sd.Some? ==> 0.0 <= sd.value
  {
    if |r| == 0 then None else Some(sqrt(Variance(r)) as real)
  }

  lemma {:induction false} SumConstant(s: seq<real>, x: real)
    requires forall i :: 0 <= i < |s| ==> s[i] == x
    ensures Sum(s) == |s| as real * x
    decreases |s|
  {
    if |s| > 0 {
      SumConstant(s[..|s| - 1], x);
    }
  }

  lemma {:induction false} DeviationsFromValue(s: seq<real>, x: real)
    requires forall i :: 0 <= i < |s| ==> s[i] == x
    ensures SquaredDeviations(s, x) == 0.0
    decreases |s|
  {
    if |s| > 0 {
      DeviationsFromValue(s[..|s| - 1], x);
    }
  }

  /** Residuals that are all equal have no spread: their mean is the common
      value and their population variance is 0. */
  lemma ConstantVariance(s: seq<real>, x: real)
    requires |s| > 0 && forall i :: 0 <= i < |s| ==> s[i] == x
    ensures Sum(s) / |s| as real == x
    ensures Variance(s) == 0.0
  {
    var n := |s| as real;
    SumConstant(s, x);
    assert n * x / n == x;
    DeviationsFromValue(s, x);
  }

  // ---------------------------------------------------------------------
  // Worst residual per class

  /** `np.max` of a non-empty vector. */
  function MaxOf(s: seq<real>): (w: real)
    requires |s| > 0
    ensures forall i :: 0 <= i < |s| ==> s[i] <= w
    ensures exists i :: 0 <= i < |s| && s[i] == w
    decreases |s|
  {
    if |s| == 1 then s[0]
    else
      var w := MaxOf(s[..|s| - 1]);
      if s[|s| - 1] > w then s[|s| - 1] else w
  }

  /** Block sizes of one pass, each 0 when its class or group is disabled;
      `gate` is the configuration that enabled or disabled them. */
  datatype Counts = Counts(cep: nat, anc: nat, mw: nat, sn: nat, gate: Config) {
    /** Number of Cepheid-family rows: Cepheids, then anchors, then Milky Way. */
    function Family(): nat {
      cep + anc + mw
    }
  }

  /** The block sizes of a pass over `p`: a group's table length when the
      loop may clip that group, 0 otherwise. */
  function CountsOf(cfg: Config, p: Partition): Counts {
    Counts(
      if cfg.includeCepheids then |p.cepheids| else 0,
      if cfg.includeCepheids then |p.anchors| else 0,
      if cfg.includeCepheids && cfg.includeMW then |p.milkyWay| else 0,
      if cfg.fitAB then |p.sneHubble| else 0,
      cfg)
  }

  /** `errors[-n:]`: the last `n` entries, except that `-0` is `0`, so an
      empty supernova table makes this the whole vector. */
  function SupernovaBlock(errors: seq<real>, n: nat): seq<real>
    requires n <= |errors|
  {
    if n == 0 then errors else errors[|errors| - n..]
  }

  /** Whether position `j` of the residual vector is scanned for the worst
      residual of an enabled class. */
  predicate InClassBlock(cfg: Config, c: Counts, len: nat, j: nat) {
    || (cfg.includeCepheids && j < c.Family())
    || (cfg.fitAB && (c.sn == 0 || len - c.sn <= j))
  }

  /** `max(worst_SNe, worst_Cep)`, each class contributing 0 when disabled. */
  function ClassWorst(cfg: Config, c: Counts, errors: seq<real>): (r: Result<real>)
    requires c.Family() + c.sn <= |errors|
    ensures r.Err? <==> (cfg.includeCepheids && c.Family() == 0) || (cfg.fitAB && |errors| == 0)
    ensures r.Err? ==> r.fault == EmptyBlock
    ensures r.Ok? ==> forall j :: 0 <= j < |errors| && InClassBlock(cfg, c, |errors|, j) ==> errors[j] <= r.value
    ensures r.Ok? && !(cfg.includeCepheids && cfg.fitAB) ==> 0.0 <= r.value
    ensures r.Ok? ==>
              || (r.value == 0.0 && !(cfg.includeCepheids && cfg.fitAB))
              || exists j :: 0 <= j < |errors| && InClassBlock(cfg, c, |errors|, j) && errors[j] == r.value
  {
    var worstCep :-
      if !cfg.includeCepheids then Ok(0.0)
      else if c.Family() == 0 then Err(EmptyBlock)
      else Ok(MaxOf(errors[..c.Family()]));
    var block := SupernovaBlock(errors, c.sn);
    var worstSNe :-
      if !cfg.fitAB then Ok(0.0)
      else if |block| == 0 then Err(EmptyBlock)
      else Ok(MaxOf(block));
    assert forall j :: 0 <= j < |errors| && cfg.fitAB && (c.sn == 0 || |errors| - c.sn <= j)
             ==> errors[j] == block[j - (|errors| - |block|)];
    Ok(if worstSNe >= worstCep then worstSNe else worstCep)
  }

  // ---------------------------------------------------------------------
  // One evaluation pass

  /** What a pass computes: the compared residuals, the standard deviation
      of the signed residuals, the overall worst value and the block sizes. */
  datatype Pass = Pass(errors: seq<real>, std: Option<real>, worst: real, counts: Counts)

  /** The external fit's shape contract: a conformable design matrix, and
      room in `y` for the Cepheid-family rows first and the supernova rows last. */
  predicate WellShaped(fr: FitResult, c: Counts) {
    Conformable(fr.y, fr.design, Parameters(fr.estimates)) && c.Family() + c.sn <= |fr.y|
  }

  /** The residuals of a fit as the pass compares them. */
  function Compared(fr: FitResult, signed: bool): seq<real>
    requires Conformable(fr.y, fr.design, Parameters(fr.estimates))
  {
    Magnitudes(Residuals(fr.y, fr.design, Parameters(fr.estimates)), signed)
  }

  /** One pass over the first three components of a fit. */
  function PassOf(cfg: Config, sqrt: real -> NonNegReal, fr: FitResult, c: Counts, signed: bool): (r: Result<Pass>)
    ensures WellShaped(fr, c) ==> r.Ok? == ClassWorst(cfg, c, Compared(fr, signed)).Ok?
    ensures !WellShaped(fr, c) ==> r == Err(MalformedFit)
    ensures WellShaped(fr, c) && r.Err? ==> r == Err(EmptyBlock)
    ensures r.Ok? ==> r.value.counts == c && |r.value.errors| == |fr.y|
    ensures r.Ok? ==>
              var q := Parameters(fr.estimates);
              forall j :: 0 <= j < |fr.y| ==>
                r.value.errors[j] == (if signed then fr.y[j] - Dot(fr.design[j], q)
                                      else Abs(fr.y[j] - Dot(fr.design[j], q)))
    ensures r.Ok? ==> r.value.std == Std(Residuals(fr.y, fr.design, Parameters(fr.estimates)), sqrt)
    ensures r.Ok? ==> r.value.errors == Compared(fr, signed)
    ensures r.Ok? ==> ClassWorst(cfg, c, r.value.errors) == Ok(r.value.worst)
  {
    if !WellShaped(fr, c) then Err(MalformedFit)
    else
      var residuals := Residuals(fr.y, fr.design, Parameters(fr.estimates));
      var errors := Compared(fr, signed);
      match ClassWorst(cfg, c, errors)
      case Err(f) => Err(f)
      case Ok(worst) => Ok(Pass(errors, Std(residuals, sqrt), worst, c))
  }

  /** One pass: fit the active tables and evaluate the fit. */
  function Evaluate(fit: Partition -> FitResult, sqrt: real -> NonNegReal, cfg: Config,
                    active: Partition, signed: bool): (r: Result<Pass>)
    ensures r.Ok? ==> |r.value.errors| == |fit(active).y|
    ensures r.Ok? ==> r.value.counts == CountsOf(cfg, active)
                      && r.value.counts.Family() + r.value.counts.sn <= |r.value.errors|
  {
    PassOf(cfg, sqrt, fit(active), CountsOf(cfg, active), signed)
  }

  /** `kappa` standard deviations. */
  function Threshold(kappa: real, std: real): real {
    kappa * std
  }

  /** The loop condition `worst >= kappa * std`. */
  predicate Continues(e: Pass, kappa: real) {
    e.std.Some? && e.worst >= Threshold(kappa, e.std.value)
  }

  // ---------------------------------------------------------------------
  // From a position of the residual vector to a row of a table

  datatype Target = Target(group: Group, row: nat)

  function BlockSize(c: Counts, g: Group): nat {
    match g
    case Cepheids => c.cep
    case CepheidAnchors => c.anc
    case CepheidMW => c.mw
    case SNeHubble => c.sn
    case _ => 0
  }

  /** The groups whose rows the clipping may move under `cfg`. */
  predicate Clippable(cfg: Config, g: Group) {
    match g
    case Cepheids => cfg.includeCepheids
    case CepheidAnchors => cfg.includeCepheids
    case CepheidMW => cfg.includeCepheids && cfg.includeMW
    case SNeHubble => cfg.fitAB
    case _ => false
  }

  /** Block sizes agree with the configuration: a disabled block is empty. */
  predicate Consistent(cfg: Config, c: Counts) {
    && (!cfg.includeCepheids ==> c.cep == 0 && c.anc == 0 && c.mw == 0)
    && (!cfg.includeMW ==> c.mw == 0)
    && (!cfg.fitAB ==> c.sn == 0)
  }

  /** Position of a row in the residual vector of length `len`: Cepheid
      family from the front, supernovae at the back. */
  function GlobalIndex(c: Counts, len: nat, t: Target): int {
    match t.group
    case Cepheids => t.row
    case CepheidAnchors => c.cep + t.row
    case CepheidMW => c.cep + c.anc + t.row
    case SNeHubble => len - c.sn + t.row
    case _ => len + t.row
  }

  /** The dispatch as written: the supernova test is `index > len(y) - N_SN`.
      The source tests the Cepheid groups and the supernovae with two
      separate `if`s; with the Cepheid family before the supernova block
      at most one of them holds, so they are chained here. */
  function DispatchAsWritten(cfg: Config, c: Counts, len: nat, i: nat): (r: Option<Target>)
    requires c.Family() + c.sn <= len && i < len
    ensures r.Some? ==> r.value.row < BlockSize(c, r.value.group) && Clippable(cfg, r.value.group)
    ensures r.Some? ==> GlobalIndex(c, len, r.value) == i
  {
    if cfg.includeCepheids && i < c.cep then Some(Target(Cepheids, i))
    else if cfg.includeCepheids && i < c.cep + c.anc then Some(Target(CepheidAnchors, i - c.cep))
    else if cfg.includeCepheids && cfg.includeMW && i < c.Family() then Some(Target(CepheidMW, i - c.cep - c.anc))
    else if cfg.fitAB && i > len - c.sn then Some(Target(SNeHubble, i - (len - c.sn)))
    else None
  }

  /** The dispatch with the supernova test `index >= len(y) - N_SN`, so that
      the first supernova row can be selected too. */
  function Dispatch(cfg: Config, c: Counts, len: nat, i: nat): (r: Option<Target>)
    requires c.Family() + c.sn <= len
    ensures r.Some? ==> r.value.row < BlockSize(c, r.value.group) && Clippable(cfg, r.value.group)
    ensures r.Some? ==> GlobalIndex(c, len, r.value) == i
  {
    if cfg.includeCepheids && i < c.cep then Some(Target(Cepheids, i))
    else if cfg.includeCepheids && i < c.cep + c.anc then Some(Target(CepheidAnchors, i - c.cep))
    else if cfg.includeCepheids && cfg.includeMW && i < c.Family() then Some(Target(CepheidMW, i - c.cep - c.anc))
    else if cfg.fitAB && len - c.sn <= i < len then Some(Target(SNeHubble, i - (len - c.sn)))
    else None
  }

  /** Every row of a clippable block is reached from its own position. */
  lemma DispatchCovers(cfg: Config, c: Counts, len: nat, t: Target)
    requires Consistent(cfg, c) && c.Family() + c.sn <= len
    requires t.row < BlockSize(c, t.group)
    ensures Dispatch(cfg, c, len, GlobalIndex(c, len, t) as nat) == Some(t)
  {
  }

  /** With the strict test the first supernova row is never selected, while
      the corrected dispatch selects it. */
  lemma FirstSupernovaNeverMoved(cfg: Config, c: Counts, len: nat)
    requires cfg.fitAB && c.sn > 0 && c.Family() + c.sn <= len
    ensures DispatchAsWritten(cfg, c, len, len - c.sn) == None
    ensures Dispatch(cfg, c, len, len - c.sn) == Some(Target(SNeHubble, 0))
  {
  }

  /** Everywhere else the two dispatches agree. */
  lemma DispatchAsWrittenAgrees(cfg: Config, c: Counts, len: nat, i: nat)
    requires c.Family() + c.sn <= len && i < len && i != len - c.sn
    ensures DispatchAsWritten(cfg, c, len, i) == Dispatch(cfg, c, len, i)
  {
  }

  /** The block sizes of a pass over `p`: a group's table length when the
      loop may clip that group, 0 otherwise. */
  lemma CountsOfBlocks(cfg: Config, p: Partition)
    ensures Consistent(cfg, CountsOf(cfg, p))
    ensures forall g :: Clippable(cfg, g) ==> BlockSize(CountsOf(cfg, p), g) == |p.Get(g)|
    ensures forall g :: !Clippable(cfg, g) ==> BlockSize(CountsOf(cfg, p), g) == 0
  {
  }

  /** When the corrected dispatch maps a position to no row, no row of a
      clippable block sits at that position. */
  lemma DispatchNoneOutside(cfg: Config, c: Counts, len: nat, i: nat)
    requires Consistent(cfg, c) && c.Family() + c.sn <= len
    requires Dispatch(cfg, c, len, i).None?
    ensures forall t: Target :: Clippable(cfg, t.group) && t.row < BlockSize(c, t.group) ==> GlobalIndex(c, len, t) != i
  {
    forall t: Target | Clippable(cfg, t.group) && t.row < BlockSize(c, t.group)
      ensures GlobalIndex(c, len, t) != i
    {
      DispatchCovers(cfg, c, len, t);
    }
  }

  // ---------------------------------------------------------------------
  // The clipping loop

  /** The rows the clipping could ever move. */
  function ClippableRows(p: Partition): nat {
    |p.cepheids| + |p.anchors| + |p.milkyWay| + |p.sneHubble|
  }

  /** Moving a row of a clippable group removes one clippable row and leaves
      the other groups as they were. */
  lemma MoveRowCounts(cfg: Config, s: Split, t: Target)
    requires Clippable(cfg, t.group) && t.row < |s.active.Get(t.group)|
    ensures ClippableRows(MoveRow(s, t.group, t.row).active) + 1 == ClippableRows(s.active)
    ensures forall g :: !Clippable(cfg, g) ==>
              MoveRow(s, t.group, t.row).active.Get(g) == s.active.Get(g)
              && MoveRow(s, t.group, t.row).excluded.Get(g) == s.excluded.Get(g)
  {
    var r := MoveRow(s, t.group, t.row);
    assert r.active.cepheids == r.active.Get(Cepheids) && s.active.cepheids == s.active.Get(Cepheids);
    assert r.active.anchors == r.active.Get(CepheidAnchors) && s.active.anchors == s.active.Get(CepheidAnchors);
    assert r.active.milkyWay == r.active.Get(CepheidMW) && s.active.milkyWay == s.active.Get(CepheidMW);
    assert r.active.sneHubble == r.active.Get(SNeHubble) && s.active.sneHubble == s.active.Get(SNeHubble);
  }

  /** The loop condition fails on the pass over `active`. */
  ghost predicate Stopped(fit: Partition -> FitResult, sqrt: real -> NonNegReal, cfg: Config,
                          active: Partition, signed: bool) {
    var e := Evaluate(fit, sqrt, cfg, active, signed);
    e.Ok? && !Continues(e.value, cfg.kappa)
  }

  /** The row a continuing pass selects: the first position holding the
      worst value, mapped to its group and row by the corrected `Dispatch`
      (supernova test `>=`; `TargetAsWritten` is the strict test as
      written). `None` when that position belongs to no row the loop may
      move. */
  function Selected(cfg: Config, active: Partition, e: Pass): (r: Result<Option<Target>>)
    requires e.counts == CountsOf(cfg, active) && e.counts.Family() + e.counts.sn <= |e.errors|
    ensures r.Err? <==> FirstIndex(e.errors, e.worst).None?
    ensures r.Err? ==> r.fault == WorstNotFound
    ensures r.Ok? && r.value.Some? ==>
              && Clippable(cfg, r.value.value.group) && r.value.value.row < |active.Get(r.value.value.group)|
              && GlobalIndex(e.counts, |e.errors|, r.value.value) == FirstIndex(e.errors, e.worst).value
  {
    match FirstIndex(e.errors, e.worst)
    case None => Err(WorstNotFound)
    case Some(i) =>
      CountsOfBlocks(cfg, active);
      Ok(Dispatch(cfg, e.counts, |e.errors|, i))
  }

  /** A selected row is a row of a clippable active table. */
  lemma SelectedInTable(cfg: Config, active: Partition, e: Pass, t: Target)
    requires e.counts == CountsOf(cfg, active) && e.counts.Family() + e.counts.sn <= |e.errors|
    requires Selected(cfg, active, e) == Ok(Some(t))
    ensures Clippable(cfg, t.group) && t.row < |active.Get(t.group)|
  {
  }

  /** When no row is selected, no row of a clippable active table sits at
      the first position holding the worst value. */
  lemma SelectedNoneOutside(cfg: Config, active: Partition, e: Pass)
    requires e.counts == CountsOf(cfg, active) && e.counts.Family() + e.counts.sn <= |e.errors|
    requires Selected(cfg, active, e) == Ok(None)
    ensures forall t: Target :: Clippable(cfg, t.group) && t.row < |active.Get(t.group)| ==>
              GlobalIndex(e.counts, |e.errors|, t) != FirstIndex(e.errors, e.worst).value
  {
    CountsOfBlocks(cfg, active);
    DispatchNoneOutside(cfg, e.counts, |e.errors|, FirstIndex(e.errors, e.worst).value);
  }

  /** Moves the selected row, with everything the loop needs to know about it. */
  function Step(cfg: Config, s: Split, t: Target): (r: Split)
    requires Clippable(cfg, t.group) && t.row < |s.active.Get(t.group)|
    ensures ClippableRows(r.active) + 1 == ClippableRows(s.active)
    ensures Conserved(s, r) && ExcludedGrows(s, r)
    ensures forall g :: !Clippable(cfg, g) ==> r.active.Get(g) == s.active.Get(g) && r.excluded.Get(g) == s.excluded.Get(g)
  {
    MoveRowCounts(cfg, s, t);
    MoveRowConserves(s, t.group, t.row);
    MoveRow(s, t.group, t.row)
  }

  /** What one pass decides: stop, fit again without moving a row, or move
      this row. */
  datatype Decision = Done | Again | Move(target: Target)

  /** The loop condition on a pass `ev` over `active`, and what happens when
      it holds. When the worst position belongs to no movable row, nothing
      is moved and the tables are fitted again. After the signed first pass
      that next fit compares absolute values, so the loop goes on
      (`Again`); after an absolute pass the same fit would repeat forever,
      which ends the loop with `NoProgress`. */
  function Decide(cfg: Config, active: Partition, signed: bool, ev: Result<Pass>): (r: Result<Decision>)
    requires ev.Ok? ==> ev.value.counts == CountsOf(cfg, active)
                        && ev.value.counts.Family() + ev.value.counts.sn <= |ev.value.errors|
    ensures ev.Err? ==> r == Err(ev.fault)
    ensures r == Ok(Done) <==> ev.Ok? && !Continues(ev.value, cfg.kappa)
    ensures r.Ok? && r.value.Move? ==>
              ev.Ok? && Continues(ev.value, cfg.kappa) && Selected(cfg, active, ev.value) == Ok(Some(r.value.target))
    ensures r.Ok? && r.value.Move? ==>
              Clippable(cfg, r.value.target.group) && r.value.target.row < |active.Get(r.value.target.group)|
    ensures r == Ok(Again) <==>
              signed && ev.Ok? && Continues(ev.value, cfg.kappa) && Selected(cfg, active, ev.value) == Ok(None)
    ensures ev.Ok? ==> (r == Err(NoProgress) <==>
              !signed && Continues(ev.value, cfg.kappa) && Selected(cfg, active, ev.value) == Ok(None))
  {
    match ev
    case Err(f) => Err(f)
    case Ok(e) =>
      if !Continues(e, cfg.kappa) then Ok(Done)
      else match Selected(cfg, active, e)
        case Err(f) => Err(f)
        case Ok(None) => if signed then Ok(Again) else Err(NoProgress)
        case Ok(Some(t)) => SelectedInTable(cfg, active, e, t); Ok(Move(t))
  }

  /** A continuing pass moves the row it selects. */
  lemma DecideMovesSelected(cfg: Config, active: Partition, signed: bool, e: Pass, t: Target)
    requires e.counts == CountsOf(cfg, active) && e.counts.Family() + e.counts.sn <= |e.errors|
    requires Continues(e, cfg.kappa) && Selected(cfg, active, e) == Ok(Some(t))
    ensures Decide(cfg, active, signed, Ok(e)) == Ok(Move(t))
  {
  }

  /** A continuing pass whose worst value cannot be located fails with
      `WorstNotFound`. */
  lemma DecideSelectionFails(cfg: Config, active: Partition, signed: bool, e: Pass)
    requires e.counts == CountsOf(cfg, active) && e.counts.Family() + e.counts.sn <= |e.errors|
    requires Continues(e, cfg.kappa) && Selected(cfg, active, e).Err?
    ensures Decide(cfg, active, signed, Ok(e)) == Err(WorstNotFound)
  {
  }

  /** What the loop records: the final tables, the number of rows moved and
      the number of fits made. */
  datatype Clipped = Clipped(split: Split, moves: nat, passes: nat)

  /** The loop from a given state, over any way `decide` of judging a pass;
      `signed` marks the first pass. A move the tables cannot carry out, or
      a pass that neither stops nor moves after the first, ends the loop with
      `NoProgress`; with `Decide` as the judge the first never happens and
      the second only where the source would fit the same tables forever. */
  function ClipFrom(decide: (Partition, bool) -> Result<Decision>, cfg: Config,
                    s: Split, signed: bool): (r: Result<Clipped>)
    ensures decide(s.active, signed).Err? ==> r == Err(decide(s.active, signed).fault)
    ensures decide(s.active, signed) == Ok(Done) ==> r == Ok(Clipped(s, 0, 1))
    ensures r.Ok? ==> Conserved(s, r.value.split) && ExcludedGrows(s, r.value.split)
    ensures r.Ok? ==> ClippableRows(s.active) == ClippableRows(r.value.split.active) + r.value.moves
    ensures r.Ok? ==> r.value.moves < r.value.passes <= r.value.moves + (if signed then 2 else 1)
    ensures r.Ok? ==> decide(r.value.split.active, signed && r.value.passes == 1) == Ok(Done)
    ensures r.Ok? ==> forall g :: !Clippable(cfg, g) ==>
              r.value.split.active.Get(g) == s.active.Get(g) && r.value.split.excluded.Get(g) == s.excluded.Get(g)
    decreases ClippableRows(s.active), if signed then 1 else 0
  {
    match decide(s.active, signed)
    case Err(f) => Err(f)
    case Ok(Done) => Ok(Clipped(s, 0, 1))
    case Ok(Again) =>
      if !signed then Err(NoProgress)
      else
        var rest :- ClipFrom(decide, cfg, s, false);
        Ok(Clipped(rest.split, rest.moves, rest.passes + 1))
    case Ok(Move(t)) =>
      if !(Clippable(cfg, t.group) && t.row < |s.active.Get(t.group)|) then Err(NoProgress)
      else
        var next := Step(cfg, s, t);
        match ClipFrom(decide, cfg, next, false)
        case Err(f) => Err(f)
        case Ok(rest) =>
          ConservedTransitive(s, next, rest.split);
          ExcludedGrowsTransitive(s, next, rest.split);
          Ok(Clipped(rest.split, rest.moves + 1, rest.passes + 1))
  }

  /** A judge the loop can always follow: it fails, if at all, only with
      the fault `f`, asks for a refit without a move only on the signed
      first pass, and moves only rows that exist in a clippable table. */
  ghost predicate Followable(decide: (Partition, bool) -> Result<Decision>, cfg: Config, f: Fault) {
    forall a: Partition, sg: bool ::
      && (decide(a, sg).Ok? || decide(a, sg) == Err(f))
      && (decide(a, sg) == Ok(Again) ==> sg)
      && (decide(a, sg).Ok? && decide(a, sg).value.Move? ==>
            Clippable(cfg, decide(a, sg).value.target.group)
            && decide(a, sg).value.target.row < |a.Get(decide(a, sg).value.target.group)|)
  }

  /** Under a judge it can always follow, the loop ends, either with tables
      or with the judge's one fault: every move takes one clippable row
      away, so the loop cannot go on forever. */
  lemma {:induction false} ClipFromTotal(decide: (Partition, bool) -> Result<Decision>, cfg: Config,
                                         s: Split, signed: bool, f: Fault)
    requires Followable(decide, cfg, f)
    ensures ClipFrom(decide, cfg, s, signed).Ok? || ClipFrom(decide, cfg, s, signed) == Err(f)
    decreases ClippableRows(s.active), if signed then 1 else 0
  {
    match decide(s.active, signed)
    case Err(_) =>
    case Ok(Done) =>
    case Ok(Again) =>
      ClipFromTotal(decide, cfg, s, false, f);
    case Ok(Move(t)) =>
      ClipFromTotal(decide, cfg, Step(cfg, s, t), false, f);
  }

  /** A first pass that moves a row makes a run that ends well count at
      least one move, and the moved row ends up among the excluded rows of
      its group. */
  lemma ClipFromMoves(decide: (Partition, bool) -> Result<Decision>, cfg: Config,
                      s: Split, signed: bool, t: Target)
    requires decide(s.active, signed) == Ok(Move(t))
    requires Clippable(cfg, t.group) && t.row < |s.active.Get(t.group)|
    requires ClipFrom(decide, cfg, s, signed).Ok?
    ensures ClipFrom(decide, cfg, s, signed).value.moves >= 1
    ensures s.active.Get(t.group)[t.row] in multiset(ClipFrom(decide, cfg, s, signed).value.split.excluded.Get(t.group))
  {
    var next := Step(cfg, s, t);
    var rest := ClipFrom(decide, cfg, next, false).value;
    var moved := s.active.Get(t.group)[t.row];
    assert next.excluded.Get(t.group) == s.excluded.Get(t.group) + [moved];
    assert next.excluded.Get(t.group) <= rest.split.excluded.Get(t.group);
    assert rest.split.excluded.Get(t.group)[|next.excluded.Get(t.group)| - 1] == moved;
  }

  /** The excluded tables at the start: empty, except that the supernova
      table starts as the supernovae outside the fitted redshift window. */
  function InitialSplit(cfg: Config, data: Partition, sneOther: Table): (s: Split)
    ensures s.active == data
    ensures forall g :: s.excluded.Get(g) == (if g == SNeHubble && cfg.fitAB then sneOther else [])
  {
    Split(data, EmptyPartition().(sneHubble := if cfg.fitAB then sneOther else []))
  }

  /** Started from the initial split, the loop keeps the supernovae outside
      the fitted window at the head of the excluded supernova table, and it
      leaves the supernova tables alone when the supernovae are not fitted. */
  lemma ClipFromSupernovae(decide: (Partition, bool) -> Result<Decision>, cfg: Config,
                           data: Partition, sneOther: Table)
    ensures var r := ClipFrom(decide, cfg, InitialSplit(cfg, data, sneOther), true);
            r.Ok? && cfg.fitAB ==> sneOther <= r.value.split.excluded.sneHubble
    ensures var r := ClipFrom(decide, cfg, InitialSplit(cfg, data, sneOther), true);
            r.Ok? && !cfg.fitAB ==>
              r.value.split.active.sneHubble == data.sneHubble && r.value.split.excluded.sneHubble == []
  {
    var init := InitialSplit(cfg, data, sneOther);
    var r := ClipFrom(decide, cfg, init, true);
    if r.Ok? {
      var out := r.value.split;
      assert init.excluded.Get(SNeHubble) <= out.excluded.Get(SNeHubble);
      assert !cfg.fitAB ==> out.active.Get(SNeHubble) == init.active.Get(SNeHubble)
                            && out.excluded.Get(SNeHubble) == init.excluded.Get(SNeHubble);
    }
  }

  /** The number of rows the source reports as excluded from group `g`,
      `None` for a group it reports nothing about. The supernovae outside
      the fitted window are not counted. */
  function Reported(cfg: Config, sneOther: Table, out: Split, g: Group): (n: Option<int>)
    ensures n.Some? <==> Clippable(cfg, g)
  {
    match g
    case Cepheids => if cfg.includeCepheids then Some(|out.excluded.cepheids|) else None
    case CepheidAnchors => if cfg.includeCepheids then Some(|out.excluded.anchors|) else None
    case CepheidMW => if cfg.includeCepheids && cfg.includeMW then Some(|out.excluded.milkyWay|) else None
    case SNeHubble => if cfg.fitAB then Some(|out.excluded.sneHubble| - |sneOther|) else None
    case _ => None
  }

  /** A reported count, or 0 for a group that is not reported. */
  function ReportedOrZero(cfg: Config, sneOther: Table, out: Split, g: Group): int {
    match Reported(cfg, sneOther, out, g)
    case Some(k) => k
    case None => 0
  }

  function ReportedTotal(cfg: Config, sneOther: Table, out: Split): int {
    ReportedOrZero(cfg, sneOther, out, Cepheids) + ReportedOrZero(cfg, sneOther, out, CepheidAnchors)
    + ReportedOrZero(cfg, sneOther, out, CepheidMW) + ReportedOrZero(cfg, sneOther, out, SNeHubble)
  }

  /** Per group, the reported count is the number of rows that left the
      active table. */
  lemma ReportedGroup(cfg: Config, data: Partition, sneOther: Table, out: Split, g: Group)
    requires Conserved(InitialSplit(cfg, data, sneOther), out)
    requires !Clippable(cfg, g) ==> out.active.Get(g) == data.Get(g)
    requires g in {Cepheids, CepheidAnchors, CepheidMW, SNeHubble}
    ensures ReportedOrZero(cfg, sneOther, out, g) == |data.Get(g)| - |out.active.Get(g)|
  {
    ConservedCounts(InitialSplit(cfg, data, sneOther), out, g);
  }

  /** The reported counts add up to the number of rows the loop moved. */
  lemma ClipFromReported(decide: (Partition, bool) -> Result<Decision>, cfg: Config,
                         data: Partition, sneOther: Table)
    ensures var r := ClipFrom(decide, cfg, InitialSplit(cfg, data, sneOther), true);
            r.Ok? ==> ReportedTotal(cfg, sneOther, r.value.split) == r.value.moves
  {
    var init := InitialSplit(cfg, data, sneOther);
    var r := ClipFrom(decide, cfg, init, true);
    if r.Ok? {
      var out := r.value.split;
      ReportedGroup(cfg, data, sneOther, out, Cepheids);
      ReportedGroup(cfg, data, sneOther, out, CepheidAnchors);
      ReportedGroup(cfg, data, sneOther, out, CepheidMW);
      ReportedGroup(cfg, data, sneOther, out, SNeHubble);
      assert ClippableRows(data) == |data.Get(Cepheids)| + |data.Get(CepheidAnchors)|
                                    + |data.Get(CepheidMW)| + |data.Get(SNeHubble)|;
      assert ClippableRows(out.active) == |out.active.Get(Cepheids)| + |out.active.Get(CepheidAnchors)|
                                          + |out.active.Get(CepheidMW)| + |out.active.Get(SNeHubble)|;
    }
  }

  /** The judge of the corrected loop: each pass fits the given tables and
      decides on the result. */
  function Judge(fit: Partition -> FitResult, sqrt: real -> NonNegReal, cfg: Config)
    : (decide: (Partition, bool) -> Result<Decision>)
    ensures forall a: Partition, sg: bool :: decide(a, sg) == Decide(cfg, a, sg, Evaluate(fit, sqrt, cfg, a, sg))
  {
    (a: Partition, sg: bool) => Decide(cfg, a, sg, Evaluate(fit, sqrt, cfg, a, sg))
  }

  /** single_kappa_clipping, with the supernova test of the dispatch
      corrected to `>=` (see `RunAsWritten` for the loop as written). The
      `kappa` argument is never read: the loop compares against the
      configured `cfg.kappa`. */
  function SingleKappaClipping(fit: Partition -> FitResult, sqrt: real -> NonNegReal, cfg: Config,
                               data: Partition, sneOther: Table, kappa: real): (r: Result<Clipped>)
    ensures Evaluate(fit, sqrt, cfg, data, true).Err? ==> r.Err?
    ensures Stopped(fit, sqrt, cfg, data, true) ==> r == Ok(Clipped(InitialSplit(cfg, data, sneOther), 0, 1))
    ensures r.Ok? ==> Conserved(InitialSplit(cfg, data, sneOther), r.value.split)
    ensures r.Ok? ==> Stopped(fit, sqrt, cfg, r.value.split.active, r.value.passes == 1)
    ensures r.Ok? && cfg.fitAB ==> sneOther <= r.value.split.excluded.sneHubble
    ensures r.Ok? && !cfg.fitAB ==>
              r.value.split.active.sneHubble == data.sneHubble && r.value.split.excluded.sneHubble == []
    ensures r.Ok? ==> ReportedTotal(cfg, sneOther, r.value.split) == r.value.moves
  {
    var decide := Judge(fit, sqrt, cfg);
    ClipFromSupernovae(decide, cfg, data, sneOther);
    ClipFromReported(decide, cfg, data, sneOther);
    ClipFrom(decide, cfg, InitialSplit(cfg, data, sneOther), true)
  }

  /** When every pass ends in a decision or in numpy's error on an emptied
      block, so does the call: it returns tables, or `EmptyBlock` once the
      moves have emptied a scanned block. Rows only ever leave the active
      tables, so the loop cannot go on forever. */
  lemma SingleKappaClippingTotal(fit: Partition -> FitResult, sqrt: real -> NonNegReal, cfg: Config,
                                 data: Partition, sneOther: Table, kappa: real)
    requires forall a: Partition, sg: bool ::
               Decide(cfg, a, sg, Evaluate(fit, sqrt, cfg, a, sg)).Ok?
               || Decide(cfg, a, sg, Evaluate(fit, sqrt, cfg, a, sg)) == Err(EmptyBlock)
    ensures SingleKappaClipping(fit, sqrt, cfg, data, sneOther, kappa).Ok?
            || SingleKappaClipping(fit, sqrt, cfg, data, sneOther, kappa) == Err(EmptyBlock)
  {
    var decide := Judge(fit, sqrt, cfg);
    assert Followable(decide, cfg, EmptyBlock);
    ClipFromTotal(decide, cfg, InitialSplit(cfg, data, sneOther), true, EmptyBlock);
  }

  /** A fit that reproduces every fitted row exactly: as many zero
      observations as there are rows in the scanned blocks, no parameters,
      and an empty design row for each. */
  function ExactFit(cfg: Config): Partition -> FitResult {
    (p: Partition) =>
      var n := CountsOf(cfg, p).Family() + CountsOf(cfg, p).sn;
      FitResult(seq(n, _ => 0.0), [], seq(n, _ => []))
  }

  /** Every residual of the exact fit is 0. */
  lemma ExactFitResiduals(cfg: Config, a: Partition)
    ensures var fr := ExactFit(cfg)(a);
            forall j :: 0 <= j < |fr.y| ==> fr.y[j] - Dot(fr.design[j], Parameters(fr.estimates)) == 0.0
  {
    var fr := ExactFit(cfg)(a);
    var n := CountsOf(cfg, a).Family() + CountsOf(cfg, a).sn;
    assert fr.y == seq(n, _ => 0.0) && fr.design == seq(n, _ => []) && fr.estimates == [];
    assert Parameters(fr.estimates) == [];
  }

  /** A pass of the exact fit that gets past the class maxima finds the
      worst value 0 at the first position. */
  lemma ExactFitWorst(sqrt: real -> NonNegReal, cfg: Config, a: Partition, sg: bool)
    requires cfg.includeCepheids && cfg.fitAB
    requires Evaluate(ExactFit(cfg), sqrt, cfg, a, sg).Ok?
    ensures var e := Evaluate(ExactFit(cfg), sqrt, cfg, a, sg).value;
            0 < e.counts.Family() && FirstIndex(e.errors, e.worst) == Some(0)
  {
    var e := Evaluate(ExactFit(cfg), sqrt, cfg, a, sg).value;
    ExactFitResiduals(cfg, a);
    assert forall j :: 0 <= j < |e.errors| ==> e.errors[j] == 0.0;
    assert e.worst == 0.0;
  }

  /** With every class enabled and an exact fit, a pass over any tables
      stops, moves a row, or meets an emptied block: the residuals are all
      0, so the worst value is 0 and its first position is the first
      Cepheid-family row. */
  lemma ExactFitPass(sqrt: real -> NonNegReal, kappa: real, a: Partition, sg: bool)
    ensures var cfg := Config(true, true, true, kappa);
            var d := Decide(cfg, a, sg, Evaluate(ExactFit(cfg), sqrt, cfg, a, sg));
            d.Ok? || d == Err(EmptyBlock)
  {
    var cfg := Config(true, true, true, kappa);
    var ev := Evaluate(ExactFit(cfg), sqrt, cfg, a, sg);
    assert WellShaped(ExactFit(cfg)(a), CountsOf(cfg, a));
    if ev.Ok? && Continues(ev.value, cfg.kappa) {
      var e := ev.value;
      ExactFitWorst(sqrt, cfg, a, sg);
      var t := Dispatch(cfg, e.counts, |e.errors|, 0).value;
      DecideMovesSelected(cfg, a, sg, e, t);
    }
  }

  /** The hypothesis of `SingleKappaClippingTotal` holds for the exact fit
      with every class enabled, whatever the square root and `kappa`. */
  lemma ExactFitFollowable(sqrt: real -> NonNegReal, kappa: real)
    ensures var cfg := Config(true, true, true, kappa);
            forall a: Partition, sg: bool ::
              Decide(cfg, a, sg, Evaluate(ExactFit(cfg), sqrt, cfg, a, sg)).Ok?
              || Decide(cfg, a, sg, Evaluate(ExactFit(cfg), sqrt, cfg, a, sg)) == Err(EmptyBlock)
  {
    forall a: Partition, sg: bool {
      ExactFitPass(sqrt, kappa, a, sg);
    }
  }

  /** With every class enabled, a run on the exact fit returns tables or
      stops at an emptied block; it never loops or loses the worst value. */
  lemma ExactFitEnds(sqrt: real -> NonNegReal, kappa: real, data: Partition, sneOther: Table, k: real)
    ensures var cfg := Config(true, true, true, kappa);
            var r := SingleKappaClipping(ExactFit(cfg), sqrt, cfg, data, sneOther, k);
            r.Ok? || r == Err(EmptyBlock)
  {
    ExactFitFollowable(sqrt, kappa);
    var cfg := Config(true, true, true, kappa);
    SingleKappaClippingTotal(ExactFit(cfg), sqrt, cfg, data, sneOther, k);
  }

  /** When the first fit selects a row, a call that ends well has moved at
      least one row, and that row is among the excluded rows of its group. */
  lemma SingleKappaClippingMoves(fit: Partition -> FitResult, sqrt: real -> NonNegReal, cfg: Config,
                                 data: Partition, sneOther: Table, kappa: real, t: Target)
    requires Decide(cfg, data, true, Evaluate(fit, sqrt, cfg, data, true)) == Ok(Move(t))
    requires Clippable(cfg, t.group) && t.row < |data.Get(t.group)|
    requires SingleKappaClipping(fit, sqrt, cfg, data, sneOther, kappa).Ok?
    ensures SingleKappaClipping(fit, sqrt, cfg, data, sneOther, kappa).value.moves >= 1
    ensures data.Get(t.group)[t.row]
              in multiset(SingleKappaClipping(fit, sqrt, cfg, data, sneOther, kappa).value.split.excluded.Get(t.group))
  {
    ClipFromMoves(Judge(fit, sqrt, cfg), cfg, InitialSplit(cfg, data, sneOther), true, t);
  }

  lemma KappaArgumentIgnored(fit: Partition -> FitResult, sqrt: real -> NonNegReal, cfg: Config,
                             data: Partition, sneOther: Table, k1: real, k2: real)
    ensures SingleKappaClipping(fit, sqrt, cfg, data, sneOther, k1)
            == SingleKappaClipping(fit, sqrt, cfg, data, sneOther, k2)
  {
  }

  /** Every residual the pass scans for the worst one lies below `kappa`
      standard deviations once the loop has stopped on a non-empty vector. */
  lemma StoppedBound(cfg: Config, e: Pass)
    requires e.counts.Family() + e.counts.sn <= |e.errors|
    requires ClassWorst(cfg, e.counts, e.errors) == Ok(e.worst)
    requires e.std.Some? && !Continues(e, cfg.kappa)
    ensures forall j :: 0 <= j < |e.errors| && InClassBlock(cfg, e.counts, |e.errors|, j) ==>
              e.errors[j] < Threshold(cfg.kappa, e.std.value)
  {
    var bound := Threshold(cfg.kappa, e.std.value);
    forall j | 0 <= j < |e.errors| && InClassBlock(cfg, e.counts, |e.errors|, j)
      ensures e.errors[j] < bound
    {
      assert e.errors[j] <= e.worst < bound;
    }
  }

  // ---------------------------------------------------------------------
  // The loop as written

  /** What the loop as written does after a pass `ev` over the active
      tables of `s`. `None`: the condition fails and the loop ends;
      `Some(next)`: the loop goes on from `next`. When the strict supernova
      test maps the worst position to no row, nothing is dropped and the
      loop goes on from the same tables. */
  function PassAsWritten(cfg: Config, s: Split, ev: Result<Pass>): (r: Result<Option<Split>>)
    requires ev.Ok? ==> ev.value.counts == CountsOf(cfg, s.active)
                        && ev.value.counts.Family() + ev.value.counts.sn <= |ev.value.errors|
    ensures ev.Err? ==> r == Err(ev.fault)
    ensures ev.Ok? ==> (r == Ok(None) <==> !Continues(ev.value, cfg.kappa))
    ensures r.Ok? && r.value.Some? ==> Conserved(s, r.value.value) && ExcludedGrows(s, r.value.value)
  {
    var e :- ev;
    if !Continues(e, cfg.kappa) then Ok(None)
    else match TargetAsWritten(cfg, s.active, e)
      case Err(f) => Err(f)
      case Ok(None) => Ok(Some(s))
      case Ok(Some(t)) => Ok(Some(Step(cfg, s, t)))
  }

  /** The row the loop as written moves: the first position holding the
      worst value, dispatched with the test `index > len(y) - N_SN`. */
  function TargetAsWritten(cfg: Config, active: Partition, e: Pass): (r: Result<Option<Target>>)
    requires e.counts == CountsOf(cfg, active) && e.counts.Family() + e.counts.sn <= |e.errors|
    ensures r.Err? <==> FirstIndex(e.errors, e.worst).None?
    ensures r.Err? ==> r.fault == WorstNotFound
    ensures r.Ok? ==> r.value == DispatchAsWritten(cfg, e.counts, |e.errors|, FirstIndex(e.errors, e.worst).value)
    ensures r.Ok? && r.value.Some? ==>
              Clippable(cfg, r.value.value.group) && r.value.value.row < |active.Get(r.value.value.group)|
  {
    match FirstIndex(e.errors, e.worst)
    case None => Err(WorstNotFound)
    case Some(i) =>
      CountsOfBlocks(cfg, active);
      Ok(DispatchAsWritten(cfg, e.counts, |e.errors|, i))
  }

  /** Off the first supernova row the corrected selection and the
      selection as written pick the same row, or both none. */
  lemma SelectedAsWritten(cfg: Config, active: Partition, e: Pass, i: nat)
    requires e.counts == CountsOf(cfg, active) && e.counts.Family() + e.counts.sn <= |e.errors|
    requires FirstIndex(e.errors, e.worst) == Some(i) && i != |e.errors| - e.counts.sn
    ensures Selected(cfg, active, e) == TargetAsWritten(cfg, active, e)
  {
    DispatchAsWrittenAgrees(cfg, e.counts, |e.errors|, i);
  }

  /** The corrected decision stops exactly when the pass as written stops. */
  lemma DecideAsWrittenStops(cfg: Config, s: Split, signed: bool, e: Pass)
    requires e.counts == CountsOf(cfg, s.active) && e.counts.Family() + e.counts.sn <= |e.errors|
    ensures Decide(cfg, s.active, signed, Ok(e)) == Ok(Done) <==> PassAsWritten(cfg, s, Ok(e)) == Ok(None)
  {
  }

  /** When the worst value is not among the errors, the corrected decision
      fails with `WorstNotFound` exactly when the loop goes on. */
  lemma DecideMissingWorst(cfg: Config, s: Split, signed: bool, e: Pass)
    requires e.counts == CountsOf(cfg, s.active) && e.counts.Family() + e.counts.sn <= |e.errors|
    requires FirstIndex(e.errors, e.worst).None?
    ensures Decide(cfg, s.active, signed, Ok(e)) == Err(WorstNotFound) <==> Continues(e, cfg.kappa)
  {
  }

  /** Off the first supernova row, a corrected decision that moves no row
      matches a pass as written that leaves the tables as they are. */
  lemma DecideAsWrittenStays(cfg: Config, s: Split, signed: bool, e: Pass, i: nat)
    requires e.counts == CountsOf(cfg, s.active) && e.counts.Family() + e.counts.sn <= |e.errors|
    requires FirstIndex(e.errors, e.worst) == Some(i) && i != |e.errors| - e.counts.sn
    ensures Decide(cfg, s.active, signed, Ok(e)) in {Ok(Again), Err(NoProgress)}
            ==> PassAsWritten(cfg, s, Ok(e)) == Ok(Some(s))
  {
    SelectedAsWritten(cfg, s.active, e, i);
  }

  /** Off the first supernova row, the row the corrected decision moves is
      the row the pass as written moves. */
  lemma DecideAsWrittenMoves(cfg: Config, s: Split, signed: bool, e: Pass, i: nat, t: Target)
    requires e.counts == CountsOf(cfg, s.active) && e.counts.Family() + e.counts.sn <= |e.errors|
    requires FirstIndex(e.errors, e.worst) == Some(i) && i != |e.errors| - e.counts.sn
    requires Decide(cfg, s.active, signed, Ok(e)) == Ok(Move(t))
    requires Clippable(cfg, t.group) && t.row < |s.active.Get(t.group)|
    ensures PassAsWritten(cfg, s, Ok(e)) == Ok(Some(Step(cfg, s, t)))
  {
    SelectedAsWritten(cfg, s.active, e, i);
  }

  /** The passes of the loop as written, each fitting the active tables of
      the split it is given; a pass that goes on conserves the rows. */
  function PassesAsWritten(fit: Partition -> FitResult, sqrt: real -> NonNegReal, cfg: Config)
    : (pass: (Split, bool) -> Result<Option<Split>>)
    ensures forall s: Split, signed: bool :: pass(s, signed).Ok? && pass(s, signed).value.Some? ==>
              Conserved(s, pass(s, signed).value.value) && ExcludedGrows(s, pass(s, signed).value.value)
  {
    (s: Split, signed: bool) => PassAsWritten(cfg, s, Evaluate(fit, sqrt, cfg, s.active, signed))
  }

  /** At most `fuel` passes of a loop: `None` when the passes run out before
      the loop ends. A loop that ends does so on a pass that stops. */
  function RunAsWritten(pass: (Split, bool) -> Result<Option<Split>>, s: Split, signed: bool, fuel: nat)
    : (r: Option<Result<Split>>)
    ensures fuel > 0 && pass(s, signed) == Ok(None) ==> r == Some(Ok(s))
    ensures fuel > 0 && pass(s, signed).Err? ==> r == Some(Err(pass(s, signed).fault))
    ensures r.Some? && r.value.Ok? ==> pass(r.value.value, signed) == Ok(None) || pass(r.value.value, false) == Ok(None)
    decreases fuel
  {
    if fuel == 0 then None
    else match pass(s, signed)
      case Err(f) => Some(Err(f))
      case Ok(None) => Some(Ok(s))
      case Ok(Some(next)) => RunAsWritten(pass, next, false, fuel - 1)
  }

  /** A loop whose absolute-value pass goes on from the very tables it was
      given never ends. */
  lemma {:induction false} FixedPointNeverStops(pass: (Split, bool) -> Result<Option<Split>>, s: Split, fuel: nat)
    requires pass(s, false) == Ok(Some(s))
    ensures RunAsWritten(pass, s, false, fuel) == None
    decreases fuel
  {
    if fuel > 0 {
      FixedPointNeverStops(pass, s, fuel - 1);
    }
  }

  /** A continuing pass whose worst value sits first at the first supernova
      row drops nothing: the loop goes on from the same tables. */
  lemma AsWrittenRepeats(cfg: Config, s: Split, e: Pass)
    requires e.counts == CountsOf(cfg, s.active) && e.counts.Family() + e.counts.sn <= |e.errors|
    requires Continues(e, cfg.kappa) && cfg.fitAB && e.counts.sn > 0
    requires FirstIndex(e.errors, e.worst) == Some(|e.errors| - e.counts.sn)
    ensures PassAsWritten(cfg, s, Ok(e)) == Ok(Some(s))
  {
    FirstSupernovaNeverMoved(cfg, e.counts, |e.errors|);
  }

  /** Hence, once an absolute-value pass is in that situation, the loop as
      written never ends, however many passes it is given. */
  lemma AsWrittenNeverStops(fit: Partition -> FitResult, sqrt: real -> NonNegReal,
                            cfg: Config, s: Split, e: Pass, fuel: nat)
    requires Evaluate(fit, sqrt, cfg, s.active, false) == Ok(e) && Continues(e, cfg.kappa)
    requires cfg.fitAB && e.counts.sn > 0
    requires FirstIndex(e.errors, e.worst) == Some(|e.errors| - e.counts.sn)
    ensures RunAsWritten(PassesAsWritten(fit, sqrt, cfg), s, false, fuel) == None
  {
    AsWrittenRepeats(cfg, s, e);
    FixedPointNeverStops(PassesAsWritten(fit, sqrt, cfg), s, fuel);
  }

  /** In the same situation the corrected loop moves the first supernova row. */
  lemma CorrectedMovesFirstSupernova(cfg: Config, active: Partition, signed: bool, e: Pass)
    requires e.counts == CountsOf(cfg, active) && e.counts.Family() + e.counts.sn <= |e.errors| && Continues(e, cfg.kappa)
    requires cfg.fitAB && e.counts.sn > 0
    requires FirstIndex(e.errors, e.worst) == Some(|e.errors| - e.counts.sn)
    ensures Decide(cfg, active, signed, Ok(e)) == Ok(Move(Target(SNeHubble, 0)))
  {
    FirstSupernovaNeverMoved(cfg, e.counts, |e.errors|);
  }
}
