/** The dataset partition: measurement tables keyed by group, with value
    semantics. Removing a row copies the remaining rows, which are then
    numbered contiguously from zero again by their position in the sequence;
    pandas' `drop(...).reset_index(drop=True)` is exactly this. */
module Tables {
  import opened Results

  /** One measurement row. Only the columns that the corrections and the
      clipping read or write are named; every other column of the source's
      tables is carried along unchanged and is not represented. */
  datatype Row = Row(
    logP: real,               // log10 of the pulsation period in days (Cepheids)
    z: real,                  // redshift
    mW: real,                 // Wesenheit magnitude (Cepheids)
    m: real,                  // apparent magnitude (TRGB)
    colorVI: real,            // colour V-I
    metallicity: real,        // [M/H] (Cepheids)
    columnMW: Option<real>    // a column named `MW`, absent until the legacy correction writes it
  )

  type Table = seq<Row>

  /** The group labels of the source's dictionary of tables. */
  datatype Group = Cepheids | CepheidAnchors | CepheidMW | TRGB | TRGBAnchors | SNeHubble

  datatype Partition = Partition(
    cepheids: Table,
    anchors: Table,
    milkyWay: Table,
    trgb: Table,
    trgbAnchors: Table,
    sneHubble: Table)
  {
    function Get(g: Group): Table {
      match g
      case Cepheids => cepheids
      case CepheidAnchors => anchors
      case CepheidMW => milkyWay
      case TRGB => trgb
      case TRGBAnchors => trgbAnchors
      case SNeHubble => sneHubble
    }

    /** Replaces the table of one group; every other group keeps its table. */
    function Set(g: Group, t: Table): (p: Partition)
      ensures p.Get(g) == t
      ensures forall h :: h != g ==> p.Get(h) == Get(h)
    {
      match g
      case Cepheids => this.(cepheids := t)
      case CepheidAnchors => this.(anchors := t)
      case CepheidMW => this.(milkyWay := t)
      case TRGB => this.(trgb := t)
      case TRGBAnchors => this.(trgbAnchors := t)
      case SNeHubble => this.(sneHubble := t)
    }
  }

  function EmptyPartition(): Partition {
    Partition([], [], [], [], [], [])
  }

  /** Applies a row update to every row of a table, keeping the order. */
  function MapRows(t: Table, f: Row -> Row): (r: Table)
    ensures |r| == |t| && forall k :: 0 <= k < |t| ==> r[k] == f(t[k])
  {
    seq(|t|, k requires 0 <= k < |t| => f(t[k]))
  }

  /** Drops row `i` and closes the gap: rows before `i` keep their position,
      rows after it move up by one. */
  function Remove(t: Table, i: nat): (r: Table)
    requires i < |t|
    ensures |r| == |t| - 1
    ensures forall k :: 0 <= k < i ==> r[k] == t[k]
    ensures forall k :: i <= k < |r| ==> r[k] == t[k + 1]
  {
    t[..i] + t[i + 1..]
  }

  /** Putting the removed row back where it was gives the table back. */
  lemma {:induction false} RemoveInsertRoundTrip(t: Table, i: nat)
    requires i < |t|
    ensures Remove(t, i)[..i] + [t[i]] + Remove(t, i)[i..] == t
  {
    var r := Remove(t, i);
    var u := r[..i] + [t[i]] + r[i..];
    assert |u| == |t|;
    forall k | 0 <= k < |t|
      ensures u[k] == t[k]
    {
      if k < i {
        assert u[k] == r[k];
      } else if k > i {
        assert u[k] == r[k - 1];
      }
    }
  }

  /** Removing a row loses that row and nothing else. */
  lemma {:induction false} RemoveMultiset(t: Table, i: nat)
    requires i < |t|
    ensures multiset(Remove(t, i)) + multiset{t[i]} == multiset(t)
  {
    assert t == t[..i] + [t[i]] + t[i + 1..];
    calc {
      multiset(t);
      multiset(t[..i] + [t[i]] + t[i + 1..]);
      multiset(t[..i]) + multiset{t[i]} + multiset(t[i + 1..]);
      multiset(t[..i] + t[i + 1..]) + multiset{t[i]};
    }
  }

  /** The active tables and the tables of excluded rows, side by side. */
  datatype Split = Split(active: Partition, excluded: Partition)

  /** Moves row `i` of group `g` from the active tables to the end of the
      excluded table of the same group. */
  function MoveRow(s: Split, g: Group, i: nat): (r: Split)
    requires i < |s.active.Get(g)|
    ensures r.active.Get(g) == Remove(s.active.Get(g), i)
    ensures r.excluded.Get(g) == s.excluded.Get(g) + [s.active.Get(g)[i]]
    ensures forall h :: h != g ==> r.active.Get(h) == s.active.Get(h) && r.excluded.Get(h) == s.excluded.Get(h)
  {
    var t := s.active.Get(g);
    Split(s.active.Set(g, Remove(t, i)), s.excluded.Set(g, s.excluded.Get(g) + [t[i]]))
  }

  /** Per group, the active and the excluded rows together are the same
      multiset of rows before and after. */
  ghost predicate Conserved(s: Split, r: Split) {
    forall g ::
      multiset(r.active.Get(g)) + multiset(r.excluded.Get(g))
      == multiset(s.active.Get(g)) + multiset(s.excluded.Get(g))
  }

  /** Conservation of rows implies conservation of row counts. */
  lemma ConservedCounts(s: Split, r: Split, g: Group)
    requires Conserved(s, r)
    ensures |r.active.Get(g)| + |r.excluded.Get(g)| == |s.active.Get(g)| + |s.excluded.Get(g)|
  {
    assert |multiset(r.active.Get(g)) + multiset(r.excluded.Get(g))|
           == |multiset(s.active.Get(g)) + multiset(s.excluded.Get(g))|;
  }

  /** Every excluded table of `s` is kept, in order, at the start of the
      matching excluded table of `r`. */
  ghost predicate ExcludedGrows(s: Split, r: Split) {
    forall g :: s.excluded.Get(g) <= r.excluded.Get(g)
  }

  lemma {:induction false} MoveRowConserves(s: Split, g: Group, i: nat)
    requires i < |s.active.Get(g)|
    ensures Conserved(s, MoveRow(s, g, i))
    ensures ExcludedGrows(s, MoveRow(s, g, i))
  {
    var r := MoveRow(s, g, i);
    RemoveMultiset(s.active.Get(g), i);
    forall h
      ensures s.excluded.Get(h) <= r.excluded.Get(h)
    {
      if h == g {
        assert r.excluded.Get(h) == s.excluded.Get(h) + [s.active.Get(g)[i]];
      }
    }
  }

  lemma ConservedTransitive(s: Split, m: Split, r: Split)
    requires Conserved(s, m) && Conserved(m, r)
    ensures Conserved(s, r)
  {
  }

  lemma ExcludedGrowsTransitive(s: Split, m: Split, r: Split)
    requires ExcludedGrows(s, m) && ExcludedGrows(m, r)
    ensures ExcludedGrows(s, r)
  {
    forall g
      ensures s.excluded.Get(g) <= r.excluded.Get(g)
    {
      assert s.excluded.Get(g) <= m.excluded.Get(g);
      assert m.excluded.Get(g) <= r.excluded.Get(g);
    }
  }
}
