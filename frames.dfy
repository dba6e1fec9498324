/** Labelled two-dimensional tables (the copy-number matrix: one row per
    gene, one column per sample) and the pandas operations the scripts
    apply to them: column restriction, `applymap`, label-based `loc` and
    `dropna(how='all')` along either axis. A missing cell (NaN) is None. */
module Frames {
  import opened Wrappers
  import opened Tables

  datatype Row<T> = Row(key: string, cells: seq<T>)

  datatype Frame<T> = Frame(columns: seq<string>, rows: seq<Row<T>>)

  /** Every row has one cell per column. */
  predicate Shaped<T>(f: Frame<T>)
  {
    forall i | 0 <= i < |f.rows| :: |f.rows[i].cells| == |f.columns|
  }

  /** The entries of `xs` at positions `ks`. */
  function Pick<T>(xs: seq<T>, ks: seq<nat>): (r: seq<T>)
    requires forall k | 0 <= k < |ks| :: ks[k] < |xs|
    ensures |r| == |ks|
    ensures forall k | 0 <= k < |ks| :: r[k] == xs[ks[k]]
  {
    seq(|ks|, k requires 0 <= k < |ks| => xs[ks[k]])
  }

  /** The columns at positions `ks`, in that order, for every row. */
  function PickColumns<T>(f: Frame<T>, ks: seq<nat>): (r: Frame<T>)
    requires Shaped(f)
    requires forall k | 0 <= k < |ks| :: ks[k] < |f.columns|
    ensures Shaped(r) && r.columns == Pick(f.columns, ks) && |r.rows| == |f.rows|
    ensures forall i | 0 <= i < |f.rows| :: r.rows[i].key == f.rows[i].key
    ensures forall i, k | 0 <= i < |f.rows| && 0 <= k < |ks| :: r.rows[i].cells[k] == f.rows[i].cells[ks[k]]
  {
    Frame(Pick(f.columns, ks),
      seq(|f.rows|, i requires 0 <= i < |f.rows| => Row(f.rows[i].key, Pick(f.rows[i].cells, ks))))
  }

  // ---------------------------------------------------------------------------
  // df.loc[:, df.columns.isin(keep)]

  function InSet(keep: set<string>): string -> bool
  {
    (c: string) => c in keep
  }

  /** The positions of the columns whose name is in `keep`. */
  function KeptColumns<T>(f: Frame<T>, keep: set<string>): (ks: seq<nat>)
    ensures forall k | 0 <= k < |ks| :: ks[k] < |f.columns| && f.columns[ks[k]] in keep
    ensures forall k, l | 0 <= k < l < |ks| :: ks[k] < ks[l]
    ensures forall j | 0 <= j < |f.columns| && f.columns[j] in keep :: j in ks
  {
    KeptIndices(f.columns, InSet(keep))
  }

  /** The columns whose name is in `keep`, in their order; rows and cells unchanged. */
  function KeepColumns<T>(f: Frame<T>, keep: set<string>): (r: Frame<T>)
    requires Shaped(f)
    ensures Shaped(r) && |r.rows| == |f.rows|
    ensures r.columns == Select(f.columns, InSet(keep))
    ensures |r.columns| == |KeptColumns(f, keep)|
    ensures forall k | 0 <= k < |r.columns| :: r.columns[k] == f.columns[KeptColumns(f, keep)[k]]
    ensures forall i | 0 <= i < |f.rows| :: r.rows[i].key == f.rows[i].key
    ensures forall i, k | 0 <= i < |f.rows| && 0 <= k < |r.columns| ::
      r.rows[i].cells[k] == f.rows[i].cells[KeptColumns(f, keep)[k]]
  {
    SelectAt(f.columns, InSet(keep));
    PickColumns(f, KeptColumns(f, keep))
  }

  // ---------------------------------------------------------------------------
  // df.applymap(g), where g may raise (None)

  function MapCells<T, U>(cells: seq<T>, g: T -> Option<U>): (r: Option<seq<U>>)
    ensures r.None? <==> exists j | 0 <= j < |cells| :: g(cells[j]).None?
    ensures r.Some? ==> |r.value| == |cells| && forall j | 0 <= j < |cells| :: g(cells[j]) == Some(r.value[j])
  {
    if cells == [] then Some([])
    else
      var last := cells[|cells| - 1];
      match MapCells(cells[..|cells| - 1], g)
      case None => None
      case Some(init) =>
        match g(last)
        case None => None
        case Some(v) => Some(init + [v])
  }

  function MapRows<T, U>(rows: seq<Row<T>>, g: T -> Option<U>): (r: Option<seq<Row<U>>>)
    ensures r.None? <==> exists i | 0 <= i < |rows| :: MapCells(rows[i].cells, g).None?
    ensures r.Some? ==> |r.value| == |rows| && forall i | 0 <= i < |rows| ::
      r.value[i].key == rows[i].key && MapCells(rows[i].cells, g) == Some(r.value[i].cells)
  {
    if rows == [] then Some([])
    else
      var last := rows[|rows| - 1];
      match MapRows(rows[..|rows| - 1], g)
      case None => None
      case Some(init) =>
        match MapCells(last.cells, g)
        case None => None
        case Some(cells) => Some(init + [Row(last.key, cells)])
  }

  /** `f.applymap(g)`: the same labels, every cell replaced by g of it;
      raises (None) as soon as g raises on any cell. */
  function ApplyMap<T, U>(f: Frame<T>, g: T -> Option<U>): (r: Option<Frame<U>>)
    ensures r.None? <==> exists i, j | 0 <= i < |f.rows| && 0 <= j < |f.rows[i].cells| :: g(f.rows[i].cells[j]).None?
    ensures r.Some? ==> r.value.columns == f.columns && |r.value.rows| == |f.rows|
    ensures r.Some? ==> forall i | 0 <= i < |f.rows| ::
      && r.value.rows[i].key == f.rows[i].key
      && |r.value.rows[i].cells| == |f.rows[i].cells|
      && forall j | 0 <= j < |f.rows[i].cells| :: g(f.rows[i].cells[j]) == Some(r.value.rows[i].cells[j])
  {
    match MapRows(f.rows, g)
    case None => None
    case Some(rows) => Some(Frame(f.columns, rows))
  }

  // ---------------------------------------------------------------------------
  // df.loc[labels, cols] with labels that may be absent, then dropna(how='all')

  function Labels<T>(f: Frame<T>): (r: seq<string>)
    ensures |r| == |f.rows| && forall i | 0 <= i < |f.rows| :: r[i] == f.rows[i].key
  {
    seq(|f.rows|, i requires 0 <= i < |f.rows| => f.rows[i].key)
  }

  function Equals(x: string): string -> bool
  {
    (y: string) => y == x
  }

  /** Where `loc` puts one requested row (or column): the requested label and
      the position of the original it copies, or None for a label that is
      absent, which gives a row (or column) of missing cells. */
  datatype Slot = Slot(name: string, at: Option<nat>)

  /** The slot copies a position holding its label, or its label is absent. */
  predicate Points(xs: seq<string>, s: Slot)
  {
    if s.at.Some? then s.at.value < |xs| && xs[s.at.value] == s.name else s.name !in xs
  }

  /** The slots of one requested label `x`: every position holding it, in
      order, or one missing slot when it is absent. */
  function LabelSlots(xs: seq<string>, x: string): (r: seq<Slot>)
    ensures r != []
    ensures forall m | 0 <= m < |r| :: r[m].name == x && Points(xs, r[m])
    ensures forall j | 0 <= j < |xs| && xs[j] == x :: Slot(x, Some(j)) in r
    ensures x !in xs ==> r == [Slot(x, None)]
  {
    var ks := KeptIndices(xs, Equals(x));
    if ks == [] then [Slot(x, None)]
    else
      assert xs[ks[0]] == x;
      var r := seq(|ks|, m requires 0 <= m < |ks| => Slot(x, Some(ks[m])));
      assert forall j | 0 <= j < |xs| && xs[j] == x :: Slot(x, Some(j)) in r by {
        forall j | 0 <= j < |xs| && xs[j] == x ensures Slot(x, Some(j)) in r {
          var m :| 0 <= m < |ks| && ks[m] == j;
          assert r[m] == Slot(x, Some(j));
        }
      }
      r
  }

  /** The slots of the requested labels, label after label: every position of
      a present label (all rows of a duplicated label) and one missing slot
      for an absent label. */
  function Slots(xs: seq<string>, wanted: seq<string>): (r: seq<Slot>)
    ensures r == [] <==> wanted == []
    ensures forall m | 0 <= m < |r| :: r[m].name in wanted && Points(xs, r[m])
    ensures forall w, j | w in wanted && 0 <= j < |xs| && xs[j] == w :: Slot(w, Some(j)) in r
    ensures forall w | w in wanted && w !in xs :: Slot(w, None) in r
  {
    if wanted == [] then []
    else
      var init := wanted[..|wanted| - 1];
      var w := wanted[|wanted| - 1];
      assert forall v :: v in wanted <==> v in init || v == w;
      Slots(xs, init) + LabelSlots(xs, w)
  }

  /** The cell at row position `i` and column position `j`, missing when
      either one is an absent label. */
  function CellAt<T>(f: Frame<Option<T>>, i: Option<nat>, j: Option<nat>): Option<T>
    requires Shaped(f)
    requires i.Some? ==> i.value < |f.rows|
    requires j.Some? ==> j.value < |f.columns|
  {
    if i.Some? && j.Some? then f.rows[i.value].cells[j.value] else None
  }

  /** A non-empty request of which no label is present: `loc` raises KeyError. */
  predicate NoneFound(xs: seq<string>, wanted: seq<string>)
  {
    wanted != [] && forall w | w in wanted :: w !in xs
  }

  /** The slots point into the table: row slots at its rows, column slots at its columns. */
  predicate InFrame<T>(f: Frame<T>, rs: seq<Slot>, cs: seq<Slot>)
  {
    && (forall i | 0 <= i < |rs| :: rs[i].at.Some? ==> rs[i].at.value < |f.rows|)
    && (forall k | 0 <= k < |cs| :: cs[k].at.Some? ==> cs[k].at.value < |f.columns|)
  }

  /** The table laid out by the slots: one row per row slot and one column
      per column slot, each cell copied from the slots' positions. */
  function Slotted<T>(f: Frame<Option<T>>, rs: seq<Slot>, cs: seq<Slot>): (r: Frame<Option<T>>)
    requires Shaped(f) && InFrame(f, rs, cs)
    ensures Shaped(r) && |r.rows| == |rs| && |r.columns| == |cs|
    ensures forall k | 0 <= k < |cs| :: r.columns[k] == cs[k].name
    ensures forall i | 0 <= i < |rs| :: r.rows[i].key == rs[i].name
    ensures forall i, k | 0 <= i < |rs| && 0 <= k < |cs| :: r.rows[i].cells[k] == CellAt(f, rs[i].at, cs[k].at)
  {
    Frame(Map(cs, (s: Slot) => s.name), seq(|rs|, i requires 0 <= i < |rs| =>
      Row(rs[i].name, seq(|cs|, k requires 0 <= k < |cs| => CellAt(f, rs[i].at, cs[k].at)))))
  }

  /** `f.loc[labels, cols]` with list-like keys on both axes, as pandas does
      it before 1.0: KeyError (None) when no requested label of an axis is
      present; otherwise one row per slot of `labels` and one column per slot
      of `cols`, absent labels giving missing cells. */
  function Reindex<T>(f: Frame<Option<T>>, labels: seq<string>, cols: seq<string>): (r: Option<Frame<Option<T>>>)
    requires Shaped(f)
    ensures r.None? <==> NoneFound(Labels(f), labels) || NoneFound(f.columns, cols)
    ensures r.Some? ==> InFrame(f, Slots(Labels(f), labels), Slots(f.columns, cols))
    ensures r.Some? ==> r.value == Slotted(f, Slots(Labels(f), labels), Slots(f.columns, cols))
  {
    if NoneFound(Labels(f), labels) || NoneFound(f.columns, cols) then None
    else Some(Slotted(f, Slots(Labels(f), labels), Slots(f.columns, cols)))
  }


  /** A requested label present at position `j` has the slot `m` copying it. */
  lemma SlotOf(xs: seq<string>, wanted: seq<string>, j: nat) returns (m: nat)
    requires j < |xs| && xs[j] in wanted
    ensures m < |Slots(xs, wanted)| && Slots(xs, wanted)[m] == Slot(xs[j], Some(j))
  {
    var rs := Slots(xs, wanted);
    assert Slot(xs[j], Some(j)) in rs;
    m :| 0 <= m < |rs| && rs[m] == Slot(xs[j], Some(j));
  }

  /** Every cell of the table under a requested label and a requested
      column is copied by `loc`, at row `m` and column `n`. */
  lemma ReindexKeeps<T>(f: Frame<Option<T>>, labels: seq<string>, cols: seq<string>, a: nat, b: nat)
    returns (m: nat, n: nat)
    requires Shaped(f) && a < |f.rows| && b < |f.columns|
    requires f.rows[a].key in labels && f.columns[b] in cols
    ensures Reindex(f, labels, cols).Some?
    ensures var r := Reindex(f, labels, cols).value;
      && m < |r.rows| && n < |r.columns|
      && r.rows[m].key == f.rows[a].key && r.columns[n] == f.columns[b]
      && r.rows[m].cells[n] == f.rows[a].cells[b]
  {
    assert Labels(f)[a] == f.rows[a].key;
    var rs := Slots(Labels(f), labels);
    var cs := Slots(f.columns, cols);
    m := SlotOf(Labels(f), labels, a);
    n := SlotOf(f.columns, cols, b);
    assert !NoneFound(Labels(f), labels) && !NoneFound(f.columns, cols);
    var r := Slotted(f, rs, cs);
    assert Reindex(f, labels, cols) == Some(r);
    assert r.rows[m].cells[n] == CellAt(f, Some(a), Some(b));
  }

  /** The row has at least one present cell. */
  predicate HasValue<T>(row: Row<Option<T>>)
  {
    exists j | 0 <= j < |row.cells| :: row.cells[j].Some?
  }

  function HasValueRule<T>(): Row<Option<T>> -> bool
  {
    (row: Row<Option<T>>) => HasValue(row)
  }

  /** `dropna(how='all')`: drop the rows whose cells are all missing. */
  function DropEmptyRows<T>(f: Frame<Option<T>>): (r: Frame<Option<T>>)
    ensures r.columns == f.columns && |r.rows| <= |f.rows|
    ensures forall row | row in r.rows :: row in f.rows && HasValue(row)
    ensures forall row | row in f.rows && HasValue(row) :: row in r.rows
    ensures Shaped(f) ==> Shaped(r)
  {
    var r := Frame(f.columns, Select(f.rows, HasValueRule()));
    assert Shaped(f) ==> forall row | row in r.rows :: |row.cells| == |f.columns|;
    r
  }

  /** Column `j` has at least one present cell. */
  ghost predicate ColumnHasValue<T>(f: Frame<Option<T>>, j: nat)
    requires Shaped(f) && j < |f.columns|
  {
    exists i | 0 <= i < |f.rows| :: f.rows[i].cells[j].Some?
  }

  /** The positions below `n` of the columns with a present cell, in increasing order. */
  function NonEmptyColumns<T>(f: Frame<Option<T>>, n: nat): (ks: seq<nat>)
    requires Shaped(f) && n <= |f.columns|
    ensures forall k | 0 <= k < |ks| :: ks[k] < n && ColumnHasValue(f, ks[k])
    ensures forall k, l | 0 <= k < l < |ks| :: ks[k] < ks[l]
    ensures forall j | 0 <= j < n && ColumnHasValue(f, j) :: j in ks
  {
    if n == 0 then []
    else
      var init := NonEmptyColumns(f, n - 1);
      if exists i | 0 <= i < |f.rows| :: f.rows[i].cells[n - 1].Some? then init + [n - 1] else init
  }

  /** `dropna(how='all', axis=1)`: drop the columns whose cells are all missing. */
  function DropEmptyColumns<T>(f: Frame<Option<T>>): (r: Frame<Option<T>>)
    requires Shaped(f)
    ensures Shaped(r) && |r.rows| == |f.rows|
    ensures forall i | 0 <= i < |f.rows| :: r.rows[i].key == f.rows[i].key
  {
    PickColumns(f, NonEmptyColumns(f, |f.columns|))
  }

  /** Dropping the empty columns keeps every present cell and the column it is in. */
  lemma DropEmptyColumnsKeeps<T>(f: Frame<Option<T>>, i: nat, j: nat)
    requires Shaped(f) && i < |f.rows| && j < |f.columns| && f.rows[i].cells[j].Some?
    ensures exists k | 0 <= k < |DropEmptyColumns(f).columns| ::
      DropEmptyColumns(f).columns[k] == f.columns[j] && DropEmptyColumns(f).rows[i].cells[k] == f.rows[i].cells[j]
  {
    var ks := NonEmptyColumns(f, |f.columns|);
    assert ColumnHasValue(f, j);
    var k :| 0 <= k < |ks| && ks[k] == j;
    assert DropEmptyColumns(f).columns[k] == f.columns[j];
  }

  /** After dropping the empty columns, every column has a present cell. */
  lemma DropEmptyColumnsNonEmpty<T>(f: Frame<Option<T>>, k: nat)
    requires Shaped(f) && k < |DropEmptyColumns(f).columns|
    ensures ColumnHasValue(DropEmptyColumns(f), k)
  {
    var ks := NonEmptyColumns(f, |f.columns|);
    var r := DropEmptyColumns(f);
    assert ColumnHasValue(f, ks[k]);
    var i :| 0 <= i < |f.rows| && f.rows[i].cells[ks[k]].Some?;
    assert r.rows[i].cells[k] == f.rows[i].cells[ks[k]];
  }
}
