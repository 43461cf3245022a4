/** Building the K-correction grids from Table A1 of Anderson (2022)
    (`interpolate_function` in code/relativistic_corrections.py).

    Each grid axis is a column's distinct values in order of first
    appearance; each band's grid is a dense 5-D array of zeros into which
    every table row writes its K-correction at the cell its coordinates
    name. The multilinear interpolator built on top of a grid is a library
    routine and stays abstract: it is the parameter `makeInterp`. */
module CorrectionGrid {
  import opened Results
  import opened Sequences

  /** One row of Table A1: five grid coordinates and the K-corrections in
      three HST bands. */
  datatype TableRow = TableRow(
    teff: real,     // effective temperature
    logg: real,     // surface gravity
    feh: real,      // [Fe/H]
    z: real,        // redshift
    ebv: real,      // colour excess E(B-V)
    f814wK: real,   // K-correction in F814W (I)
    f160wK: real,   // K-correction in F160W (H)
    f555wK: real)   // K-correction in F555W (V)

  datatype Coordinate = Teff | Logg | FeH | Z | EBV

  function Coord(row: TableRow, c: Coordinate): real {
    match c
    case Teff => row.teff
    case Logg => row.logg
    case FeH => row.feh
    case Z => row.z
    case EBV => row.ebv
  }

  datatype Band = I | H | V

  function BandValue(row: TableRow, b: Band): real {
    match b
    case I => row.f814wK
    case H => row.f160wK
    case V => row.f555wK
  }

  function Column(table: seq<TableRow>, c: Coordinate): (col: seq<real>)
    ensures |col| == |table| && forall k :: 0 <= k < |table| ==> col[k] == Coord(table[k], c)
  {
    seq(|table|, k requires 0 <= k < |table| => Coord(table[k], c))
  }

  // ---------------------------------------------------------------------
  // Axes

  /** `drop_duplicates().values`: each value once, at its first appearance. */
  function Dedup(col: seq<real>): (d: seq<real>)
    ensures NoDuplicates(d)
    ensures forall x :: x in d <==> x in col
    decreases |col|
  {
    if |col| == 0 then []
    else
      var d := Dedup(col[..|col| - 1]);
      var x := col[|col| - 1];
      assert forall y :: y in col <==> y in col[..|col| - 1] || y == x by {
        assert col == col[..|col| - 1] + [x];
      }
      if x in d then d else d + [x]
  }

  /** A column that already holds no repeated value is its own axis. */
  lemma {:induction false} DedupDistinct(col: seq<real>)
    requires NoDuplicates(col)
    ensures Dedup(col) == col
    decreases |col|
  {
    if |col| > 0 {
      var init := col[..|col| - 1];
      DedupDistinct(init);
      assert col[|col| - 1] !in init;
      assert col == init + [col[|col| - 1]];
    }
  }

  /** Building an axis twice changes nothing. */
  lemma DedupIdempotent(col: seq<real>)
    ensures Dedup(Dedup(col)) == Dedup(col)
  {
    DedupDistinct(Dedup(col));
  }

  /** The axis lists the values in the order in which the column first
      shows them. */
  lemma {:induction false} DedupFirstAppearance(col: seq<real>, i: nat, j: nat)
    requires i < j < |Dedup(col)|
    ensures Dedup(col)[i] in col && Dedup(col)[j] in col
    ensures FirstIndex(col, Dedup(col)[i]).value < FirstIndex(col, Dedup(col)[j]).value
    decreases |col|
  {
    var init := col[..|col| - 1];
    var x := col[|col| - 1];
    var d := Dedup(init);
    assert col == init + [x];
    FirstIndexPrefix(init, x);
    if j < |d| {
      DedupFirstAppearance(init, i, j);
      FirstIndexExtend(init, x, d[i]);
      FirstIndexExtend(init, x, d[j]);
    } else {
      assert Dedup(col)[j] == x && x !in d && x !in init;
      FirstIndexExtend(init, x, d[i]);
    }
  }

  /** Appending a value keeps the first position of every value already present. */
  lemma FirstIndexExtend(s: seq<real>, x: real, v: real)
    requires v in s
    ensures FirstIndex(s + [x], v) == FirstIndex(s, v)
  {
    var k := FirstIndex(s, v).value;
    var t := s + [x];
    assert t[k] == v;
    assert forall m :: 0 <= m < k ==> t[m] == s[m];
    FirstIndexOfFirst(t, v, k);
  }

  /** A value first appearing at the end of `s + [x]` has its first position there. */
  lemma FirstIndexPrefix(s: seq<real>, x: real)
    ensures x !in s ==> FirstIndex(s + [x], x) == Some(|s|)
  {
    if x !in s {
      var t := s + [x];
      assert forall m :: 0 <= m < |s| ==> t[m] == s[m];
      FirstIndexOfFirst(t, x, |s|);
    }
  }

  /** The first position is determined by where `v` sits and that it sits nowhere before. */
  lemma FirstIndexOfFirst(t: seq<real>, v: real, k: nat)
    requires k < |t| && t[k] == v && forall m :: 0 <= m < k ==> t[m] != v
    ensures FirstIndex(t, v) == Some(k)
  {
    assert v in t;
    var r := FirstIndex(t, v).value;
    assert t[r] == v;
  }

  /** The five axes of one table. */
  datatype Axes = Axes(teff: seq<real>, logg: seq<real>, feh: seq<real>, z: seq<real>, ebv: seq<real>) {
    function Get(c: Coordinate): seq<real> {
      match c
      case Teff => teff
      case Logg => logg
      case FeH => feh
      case Z => z
      case EBV => ebv
    }
  }

  function AxesOf(table: seq<TableRow>): Axes {
    Axes(Dedup(Column(table, Teff)), Dedup(Column(table, Logg)), Dedup(Column(table, FeH)),
         Dedup(Column(table, Z)), Dedup(Column(table, EBV)))
  }

  // ---------------------------------------------------------------------
  // Filling the 5-D arrays

  /** An index into the 5-D array, one position per axis. */
  datatype Cell = Cell(a: nat, b: nat, c: nat, d: nat, e: nat)

  /** The cell is inside the array `np.zeros(shape=(|Teff|, |logg|, |FeH|, |z|, |EBV|))`. */
  predicate InShape(ax: Axes, cell: Cell) {
    cell.a < |ax.teff| && cell.b < |ax.logg| && cell.c < |ax.feh| && cell.d < |ax.z| && cell.e < |ax.ebv|
  }

  /** The cell a row's coordinates name: `np.where(axis == value)` on each
      axis, `None` when some coordinate lies on no axis. */
  function CellOf(ax: Axes, row: TableRow): (r: Option<Cell>)
    ensures r.Some? ==> InShape(ax, r.value)
    ensures r.Some? ==>
              && ax.teff[r.value.a] == row.teff && ax.logg[r.value.b] == row.logg && ax.feh[r.value.c] == row.feh
              && ax.z[r.value.d] == row.z && ax.ebv[r.value.e] == row.ebv
    ensures r.None? <==>
              row.teff !in ax.teff || row.logg !in ax.logg || row.feh !in ax.feh || row.z !in ax.z || row.ebv !in ax.ebv
  {
    match (FirstIndex(ax.teff, row.teff), FirstIndex(ax.logg, row.logg), FirstIndex(ax.feh, row.feh),
           FirstIndex(ax.z, row.z), FirstIndex(ax.ebv, row.ebv))
    case (Some(a), Some(b), Some(c), Some(d), Some(e)) => Some(Cell(a, b, c, d, e))
    case _ => None
  }

  /** A dense array, stored as its non-zero-initialised cells. */
  datatype Grid = Grid(axes: Axes, written: map<Cell, real>) {
    /** The array entry at `cell`: 0 where no row wrote. */
    function At(cell: Cell): real {
      if cell in written then written[cell] else 0.0
    }
  }

  /** The loop over the table's rows in order, writing band `b` of each row
      at its cell; a later row overwrites an earlier one at the same cell. */
  function Fill(ax: Axes, rows: seq<TableRow>, b: Band): (w: map<Cell, real>)
    ensures forall cell :: cell in w ==> InShape(ax, cell)
    decreases |rows|
  {
    if |rows| == 0 then map[]
    else
      var last := rows[|rows| - 1];
      var w := Fill(ax, rows[..|rows| - 1], b);
      match CellOf(ax, last)
      case None => w
      case Some(cell) => w[cell := BandValue(last, b)]
  }

  /** The value at a cell is the band value of the last row naming it. */
  lemma {:induction false} FillLastWrite(ax: Axes, rows: seq<TableRow>, b: Band, k: nat)
    requires k < |rows| && CellOf(ax, rows[k]).Some?
    requires forall m :: k < m < |rows| ==> CellOf(ax, rows[m]) != CellOf(ax, rows[k])
    ensures Grid(ax, Fill(ax, rows, b)).At(CellOf(ax, rows[k]).value) == BandValue(rows[k], b)
    decreases |rows|
  {
    var init := rows[..|rows| - 1];
    var cell := CellOf(ax, rows[k]).value;
    if k < |rows| - 1 {
      assert init[k] == rows[k];
      assert forall m :: k < m < |init| ==> init[m] == rows[m];
      FillLastWrite(ax, init, b, k);
      assert CellOf(ax, rows[|rows| - 1]) != Some(cell);
    }
  }

  /** A cell no row names keeps the 0 of `np.zeros`. */
  lemma {:induction false} FillUntouched(ax: Axes, rows: seq<TableRow>, b: Band, cell: Cell)
    requires forall k :: 0 <= k < |rows| ==> CellOf(ax, rows[k]) != Some(cell)
    ensures cell !in Fill(ax, rows, b) && Grid(ax, Fill(ax, rows, b)).At(cell) == 0.0
    decreases |rows|
  {
    if |rows| > 0 {
      var init := rows[..|rows| - 1];
      assert forall k :: 0 <= k < |init| ==> init[k] == rows[k];
      FillUntouched(ax, init, b, cell);
    }
  }

  /** Every row of the table names a cell of the grids built from it. */
  lemma TableRowsHaveCells(table: seq<TableRow>, k: nat)
    requires k < |table|
    ensures CellOf(AxesOf(table), table[k]).Some?
  {
    var row := table[k];
    assert row.teff in Column(table, Teff) && row.logg in Column(table, Logg) && row.feh in Column(table, FeH)
           && row.z in Column(table, Z) && row.ebv in Column(table, EBV) by {
      assert Column(table, Teff)[k] == row.teff && Column(table, Logg)[k] == row.logg;
      assert Column(table, FeH)[k] == row.feh && Column(table, Z)[k] == row.z && Column(table, EBV)[k] == row.ebv;
    }
  }

  /** When no two rows of the table share their five coordinates, as in
      Table A1, every row's value is found at its own cell. */
  lemma GridHoldsEveryRow(table: seq<TableRow>, b: Band, k: nat)
    requires k < |table|
    requires forall m, n :: 0 <= m < n < |table| ==> CellOf(AxesOf(table), table[m]) != CellOf(AxesOf(table), table[n])
    ensures CellOf(AxesOf(table), table[k]).Some?
    ensures BuildGrid(table, b).At(CellOf(AxesOf(table), table[k]).value) == BandValue(table[k], b)
  {
    TableRowsHaveCells(table, k);
    FillLastWrite(AxesOf(table), table, b, k);
  }

  function BuildGrid(table: seq<TableRow>, b: Band): (g: Grid)
    ensures g.axes == AxesOf(table)
  {
    var ax := AxesOf(table);
    Grid(ax, Fill(ax, table, b))
  }

  /** The I grid always; the H and V grids only for Cepheids. */
  datatype Grids = Grids(i: Grid, h: Option<Grid>, v: Option<Grid>)

  function BuildGrids(table: seq<TableRow>, isCep: bool): (gs: Grids)
    ensures gs.i == BuildGrid(table, I)
    ensures gs.h.Some? <==> isCep
    ensures gs.v.Some? <==> isCep
    ensures isCep ==> gs.h.value == BuildGrid(table, H) && gs.v.value == BuildGrid(table, V)
  {
    Grids(BuildGrid(table, I),
          if isCep then Some(BuildGrid(table, H)) else None,
          if isCep then Some(BuildGrid(table, V)) else None)
  }

  // ---------------------------------------------------------------------
  // Interpolators

  /** A band interpolator, evaluated at a point (Teff, logg, [Fe/H], z, E(B-V)). */
  datatype Point = Point(teff: real, logg: real, feh: real, z: real, ebv: real) {
    function Get(c: Coordinate): real {
      match c
      case Teff => teff
      case Logg => logg
      case FeH => feh
      case Z => z
      case EBV => ebv
    }
  }

  type Interp = Point -> real

  /** The interpolators of one table: I always, H and V only for Cepheids. */
  datatype Interpolators = Interpolators(i: Interp, h: Option<Interp>, v: Option<Interp>)

  /** interpolate_function: the grids of the table, each handed to the
      library's interpolator constructor `makeInterp`. */
  function InterpolateFunction(makeInterp: Grid -> Interp, table: seq<TableRow>, isCep: bool)
    : (r: Interpolators)
    ensures r.i == makeInterp(BuildGrid(table, I))
    ensures r.h.Some? <==> isCep
    ensures r.v.Some? <==> isCep
    ensures isCep ==> r.h.value == makeInterp(BuildGrid(table, H)) && r.v.value == makeInterp(BuildGrid(table, V))
  {
    var gs := BuildGrids(table, isCep);
    Interpolators(makeInterp(gs.i),
                  if isCep then Some(makeInterp(gs.h.value)) else None,
                  if isCep then Some(makeInterp(gs.v.value)) else None)
  }
}
