/** The data preparation of the corrected-fold-change plots: the copy-number
    rows are chosen by the gene prefixes of the fold-change index, parsed
    into absolute copy numbers and LOH flags, the segment chromosomes are
    renamed, the per-sample result files are matched by name, and the
    box-plot rows are filtered. */
module CorrectedPlots {
  import opened Wrappers
  import opened Text
  import opened Tables
  import opened Frames
  import opened CopyNumber

  // ---------------------------------------------------------------------------
  // Copy-number rows of the fold-change genes

  /** `{i.split('_')[0] for i in crispr.index}`. */
  function GenePrefixes(index: seq<string>): (r: set<string>)
    ensures forall p :: p in r <==> exists i | i in index :: p == BeforeFirst(i, '_')
  {
    set i | i in index :: BeforeFirst(i, '_')
  }

  /** The prefixes of the index, each once, in the order of first appearance:
      the listing of the prefix set that the model uses for `loc`. */
  function PrefixOrder(index: seq<string>): (r: seq<string>)
    ensures forall p :: p in r <==> p in GenePrefixes(index)
    ensures forall i, j | 0 <= i < j < |r| :: r[i] != r[j]
  {
    if index == [] then []
    else
      var init := index[..|index| - 1];
      var p := BeforeFirst(index[|index| - 1], '_');
      PrefixesOfLast(index);
      var order := PrefixOrder(init);
      if p in order then order else order + [p]
  }

  lemma PrefixesOfLast(index: seq<string>)
    requires index != []
    ensures GenePrefixes(index) == GenePrefixes(index[..|index| - 1]) + {BeforeFirst(index[|index| - 1], '_')}
  {
    var init := index[..|index| - 1];
    assert index == init + [index[|index| - 1]];
  }

  /** `cnv.loc[prefixes, crispr.columns].dropna(how='all').dropna(how='all', axis=1)`:
      `loc` raises KeyError (None) when no gene prefix is a row of the
      copy-number table, or no fold-change column is one of its columns. */
  function SelectCopyNumber(cnv: Frame<Option<string>>, index: seq<string>, cols: seq<string>): (r: Option<Frame<Option<string>>>)
    requires Shaped(cnv)
    ensures r.None? <==>
      || (index != [] && forall p | p in GenePrefixes(index) :: p !in Labels(cnv))
      || (cols != [] && forall c | c in cols :: c !in cnv.columns)
    ensures r.Some? ==> Shaped(r.value)
  {
    assert index != [] ==> BeforeFirst(index[0], '_') in GenePrefixes(index);
    match Reindex(cnv, PrefixOrder(index), cols)
    case None => None
    case Some(picked) => Some(DropEmptyColumns(DropEmptyRows(picked)))
  }

  /** Every cell of the selection is copied from a copy-number row labelled
      with its gene prefix and a copy-number column with its fold-change name
      (`a` and `b`), or is missing because that label or column is absent. */
  lemma SelectedCell(cnv: Frame<Option<string>>, index: seq<string>, cols: seq<string>, i: nat, k: nat)
    returns (a: Option<nat>, b: Option<nat>)
    requires Shaped(cnv) && SelectCopyNumber(cnv, index, cols).Some?
    requires i < |SelectCopyNumber(cnv, index, cols).value.rows| && k < |SelectCopyNumber(cnv, index, cols).value.columns|
    ensures var sel := SelectCopyNumber(cnv, index, cols).value;
      && sel.columns[k] in cols
      && sel.rows[i].key in GenePrefixes(index)
      && (if a.Some? then a.value < |cnv.rows| && cnv.rows[a.value].key == sel.rows[i].key else sel.rows[i].key !in Labels(cnv))
      && (if b.Some? then b.value < |cnv.columns| && cnv.columns[b.value] == sel.columns[k] else sel.columns[k] !in cnv.columns)
      && sel.rows[i].cells[k] == CellAt(cnv, a, b)
  {
    var order := PrefixOrder(index);
    var rs := Slots(Labels(cnv), order);
    var cs := Slots(cnv.columns, cols);
    var picked := Reindex(cnv, order, cols).value;
    var kept := DropEmptyRows(picked);
    var ks := NonEmptyColumns(kept, |kept.columns|);
    var sel := SelectCopyNumber(cnv, index, cols).value;
    assert sel == PickColumns(kept, ks);
    assert kept.rows[i] in picked.rows;
    var m :| 0 <= m < |picked.rows| && picked.rows[m] == kept.rows[i];
    a, b := rs[m].at, cs[ks[k]].at;
    assert Points(Labels(cnv), rs[m]) && Points(cnv.columns, cs[ks[k]]);
    assert sel.rows[i].key == rs[m].name;
    assert sel.columns[k] == cs[ks[k]].name;
    assert sel.rows[i].cells[k] == kept.rows[i].cells[ks[k]] == picked.rows[m].cells[ks[k]];
  }

  /** Every selected row has a present cell, and names a row of the copy-number table. */
  lemma SelectedRow(cnv: Frame<Option<string>>, index: seq<string>, cols: seq<string>, i: nat)
    requires Shaped(cnv) && SelectCopyNumber(cnv, index, cols).Some?
    requires i < |SelectCopyNumber(cnv, index, cols).value.rows|
    ensures HasValue(SelectCopyNumber(cnv, index, cols).value.rows[i])
    ensures SelectCopyNumber(cnv, index, cols).value.rows[i].key in Labels(cnv)
  {
    var picked := Reindex(cnv, PrefixOrder(index), cols).value;
    var kept := DropEmptyRows(picked);
    var sel := SelectCopyNumber(cnv, index, cols).value;
    assert kept.rows[i] in kept.rows;
    var j :| 0 <= j < |kept.rows[i].cells| && kept.rows[i].cells[j].Some?;
    DropEmptyColumnsKeeps(kept, i, j);
    var k :| 0 <= k < |sel.columns| && sel.rows[i].cells[k] == kept.rows[i].cells[j];
    var a, b := SelectedCell(cnv, index, cols, i, k);
    assert Labels(cnv)[a.value] == sel.rows[i].key;
  }

  /** Nothing is lost: every present cell of the copy-number table under a
      gene prefix and a fold-change column is in the selection, at some row
      `i` with that label and some column `k` with that name; a duplicated
      label keeps every one of its rows. */
  lemma SelectedComplete(cnv: Frame<Option<string>>, index: seq<string>, cols: seq<string>, a: nat, b: nat)
    returns (i: nat, k: nat)
    requires Shaped(cnv)
    requires a < |cnv.rows| && b < |cnv.columns| && cnv.rows[a].cells[b].Some?
    requires cnv.rows[a].key in GenePrefixes(index) && cnv.columns[b] in cols
    ensures SelectCopyNumber(cnv, index, cols).Some?
    ensures var sel := SelectCopyNumber(cnv, index, cols).value;
      && i < |sel.rows| && k < |sel.columns|
      && sel.rows[i].key == cnv.rows[a].key
      && sel.columns[k] == cnv.columns[b]
      && sel.rows[i].cells[k] == cnv.rows[a].cells[b]
  {
    var picked := Reindex(cnv, PrefixOrder(index), cols);
    var m, n := ReindexKeeps(cnv, PrefixOrder(index), cols, a, b);
    var kept := DropEmptyRows(picked.value);
    var sel := SelectCopyNumber(cnv, index, cols).value;
    assert HasValue(picked.value.rows[m]);
    assert picked.value.rows[m] in kept.rows;
    i :| 0 <= i < |kept.rows| && kept.rows[i] == picked.value.rows[m];
    DropEmptyColumnsKeeps(kept, i, n);
    k :| 0 <= k < |sel.columns| && sel.columns[k] == kept.columns[n] && sel.rows[i].cells[k] == kept.rows[i].cells[n];
  }

  // ---------------------------------------------------------------------------
  // Absolute copy number and LOH flag

  /** `cnv_abs` and `cnv_loh`: the two tables parsed from the selection. */
  datatype Parsed = Parsed(abs: Frame<int>, loh: Frame<string>)

  /** The two `applymap` calls; either one raises (None) on a missing cell,
      and on a cell whose first field is not an integer or that has fewer
      than three fields. */
  function ParseCopyNumber(selected: Frame<Option<string>>): (r: Option<Parsed>)
    ensures r.None? <==> exists i, j | 0 <= i < |selected.rows| && 0 <= j < |selected.rows[i].cells| ::
      AbsoluteCopyNumber(selected.rows[i].cells[j]).None? || LossOfHeterozygosity(selected.rows[i].cells[j]).None?
    ensures r.Some? ==> r.value.abs.columns == selected.columns && r.value.loh.columns == selected.columns
    ensures r.Some? ==> |r.value.abs.rows| == |r.value.loh.rows| == |selected.rows|
    ensures r.Some? ==> forall i | 0 <= i < |selected.rows| ::
      && r.value.abs.rows[i].key == selected.rows[i].key
      && r.value.loh.rows[i].key == selected.rows[i].key
      && |r.value.abs.rows[i].cells| == |r.value.loh.rows[i].cells| == |selected.rows[i].cells|
    ensures r.Some? ==> forall i, j | 0 <= i < |selected.rows| && 0 <= j < |selected.rows[i].cells| ::
      && selected.rows[i].cells[j].Some?
      && var fields := Split(selected.rows[i].cells[j].value, ',');
      && |fields| >= 3
      && ParseInt(fields[0]) == Some(r.value.abs.rows[i].cells[j])
      && fields[2] == r.value.loh.rows[i].cells[j]
  {
    var abs := ApplyMap(selected, AbsoluteCopyNumber);
    var loh := ApplyMap(selected, LossOfHeterozygosity);
    if abs.Some? && loh.Some? then Some(Parsed(abs.value, loh.value)) else None
  }

  /** A selection of well-formed cells parses back to the copy numbers and
      LOH flags it was written from. */
  lemma ParseWrittenCell(selected: Frame<Option<string>>, i: nat, j: nat, abs: int, second: string, loh: string, more: seq<string>)
    requires ParseCopyNumber(selected).Some?
    requires i < |selected.rows| && j < |selected.rows[i].cells|
    requires selected.rows[i].cells[j] == Some(CellText(abs, second, loh, more))
    requires ',' !in second && ',' !in loh
    requires forall k | 0 <= k < |more| :: ',' !in more[k]
    ensures ParseCopyNumber(selected).value.abs.rows[i].cells[j] == abs
    ensures ParseCopyNumber(selected).value.loh.rows[i].cells[j] == loh
  {
    ParseCell(abs, second, loh, more);
  }

  // ---------------------------------------------------------------------------
  // Segment chromosomes

  /** `cnv_seg['chr'].replace(23, 'X').replace(24, 'Y').astype(str)`: the
      renamed column tells two segments apart exactly when their chromosome
      numbers differ, and X and Y stand for 23 and 24. */
  function SegmentChromosomes(chrs: seq<int>): (r: seq<string>)
    ensures |r| == |chrs|
    ensures forall i | 0 <= i < |chrs| :: (r[i] == "X" <==> chrs[i] == 23) && (r[i] == "Y" <==> chrs[i] == 24)
    ensures forall i, j | 0 <= i < |chrs| && 0 <= j < |chrs| :: r[i] == r[j] <==> chrs[i] == chrs[j]
  {
    var r := seq(|chrs|, i requires 0 <= i < |chrs| => RenameChromosome(chrs[i]));
    assert forall i, j | 0 <= i < |chrs| && 0 <= j < |chrs| && r[i] == r[j] :: chrs[i] == chrs[j] by {
      forall i, j | 0 <= i < |chrs| && 0 <= j < |chrs| && r[i] == r[j] ensures chrs[i] == chrs[j] {
        RenameChromosomeInjective(chrs[i], chrs[j]);
      }
    }
    r
  }

  // ---------------------------------------------------------------------------
  // Per-sample result files

  /** The directory of the per-sample results. */
  const CrispyDir := "data/crispy/"

  /** `os.path.join('data/crispy/', f)` for a directory entry. */
  function SamplePath(f: string): string
  {
    CrispyDir + f
  }

  /** The paths kept by `f.startswith('data/crispy/%s_' % sample)`: exactly
      the entries that start with the sample name and '_', in listing order. */
  function SampleFiles(entries: seq<string>, sample: string): (r: seq<string>)
    ensures r == Map(Select(entries, (f: string) => StartsWith(f, sample + "_")), SamplePath)
  {
    SampleFilesRule(sample);
    SelectMap(entries, SamplePath, (p: string) => StartsWith(p, CrispyDir + sample + "_"), (f: string) => StartsWith(f, sample + "_"));
    Select(Map(entries, SamplePath), (p: string) => StartsWith(p, CrispyDir + sample + "_"))
  }

  lemma SampleFilesRule(sample: string)
    ensures forall f :: StartsWith(SamplePath(f), CrispyDir + sample + "_") == StartsWith(f, sample + "_")
  {
    forall f ensures StartsWith(SamplePath(f), CrispyDir + sample + "_") == StartsWith(f, sample + "_") {
      assert CrispyDir + sample + "_" == CrispyDir + (sample + "_");
      StartsWithAfter(CrispyDir, f, sample + "_");
    }
  }

  /** One sgRNA row of a per-sample result: copy number and the two fold changes. */
  datatype GuideRow = GuideRow(cnv: Option<int>, logfc: Option<real>, logfcNorm: Option<real>)

  /** `pd.concat` of the matched files; `read` stands for reading the file
      at a path, and an empty list of files raises (None). */
  function SampleTable(entries: seq<string>, sample: string, read: string -> seq<GuideRow>): (r: Option<seq<GuideRow>>)
    ensures r.None? <==> SampleFiles(entries, sample) == []
    ensures r.Some? ==> forall x | x in r.value :: exists k | 0 <= k < |SampleFiles(entries, sample)| :: x in read(SampleFiles(entries, sample)[k])
    ensures r.Some? ==> forall k, x | 0 <= k < |SampleFiles(entries, sample)| && x in read(SampleFiles(entries, sample)[k]) :: x in r.value
  {
    Concatenated(Map(SampleFiles(entries, sample), read))
  }

  /** The sample's table cannot be built exactly when no entry starts with
      the sample name and '_'. */
  lemma SampleTableFails(entries: seq<string>, sample: string, read: string -> seq<GuideRow>)
    ensures SampleTable(entries, sample, read).None? <==> forall f | f in entries :: !StartsWith(f, sample + "_")
  {
    var sel := Select(entries, (f: string) => StartsWith(f, sample + "_"));
    if sel != [] {
      assert sel[0] in sel;
      assert SampleFiles(entries, sample)[0] == SamplePath(sel[0]);
    }
  }

  // ---------------------------------------------------------------------------
  // Box-plot rows

  predicate Present(x: GuideRow)
  {
    x.cnv.Some? && x.logfc.Some? && x.logfcNorm.Some?
  }

  /** `dropna(subset=['cnv', 'logfc', 'logfc_norm'])` then `cnv != -1`:
      one pass keeping the rows with all three values and a known copy number. */
  function BoxPlotRows(rows: seq<GuideRow>): (r: seq<GuideRow>)
    ensures r == Select(rows, (x: GuideRow) => Present(x) && x.cnv.value != -1)
    ensures forall x | x in r :: x in rows && Present(x) && x.cnv.value != -1
    ensures forall x | x in rows && Present(x) && x.cnv.value != -1 :: x in r
  {
    SelectSelect(rows, Present, (x: GuideRow) => x.cnv != Some(-1), (x: GuideRow) => Present(x) && x.cnv.value != -1);
    Select(Select(rows, Present), (x: GuideRow) => x.cnv != Some(-1))
  }
}
