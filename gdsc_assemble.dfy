/** The GDSC assembly script: absolute copy numbers of the samples with
    sgRNA fold changes, the per-sample Crispy result files keyed by sample,
    the genes and samples shared by the three fold-change tables, the
    essential-gene AUC table, and the copy-number classes of the
    non-expressed-gene box plots. */
module GdscAssemble {
  import opened Wrappers
  import opened Text
  import opened Tables
  import opened Frames
  import opened CopyNumber

  // ---------------------------------------------------------------------------
  // Absolute copy numbers

  /** The fold-change samples as a set, for `isin`. */
  function SampleSet(fcColumns: seq<string>): set<string>
  {
    set c | c in fcColumns
  }

  /** `cnv.loc[:, cnv.columns.isin(list(fc_sgrna))].applymap(lambda v: int(v.split(',')[0]))`:
      the gene-level cells of the samples that have sgRNA fold changes,
      parsed to absolute copy numbers; any cell that does not parse stops
      the script (None). */
  function AbsoluteCopyNumbers(cnv: Frame<Option<string>>, fcColumns: seq<string>): (r: Option<Frame<int>>)
    requires Shaped(cnv)
    ensures r.Some? ==> forall c :: c in r.value.columns <==> c in cnv.columns && c in fcColumns
    ensures r.Some? ==> |r.value.rows| == |cnv.rows| && forall i | 0 <= i < |cnv.rows| :: r.value.rows[i].key == cnv.rows[i].key
    ensures r.None? <==> exists i, j | 0 <= i < |cnv.rows| && 0 <= j < |cnv.columns| ::
      cnv.columns[j] in fcColumns && AbsoluteCopyNumber(cnv.rows[i].cells[j]).None?
  {
    KeptCellsFail(cnv, fcColumns);
    ApplyMap(KeepColumns(cnv, SampleSet(fcColumns)), AbsoluteCopyNumber)
  }

  /** The restricted table has a cell that does not parse exactly when the
      original table has one under a fold-change sample. */
  lemma KeptCellsFail(cnv: Frame<Option<string>>, fcColumns: seq<string>)
    requires Shaped(cnv)
    ensures ApplyMap(KeepColumns(cnv, SampleSet(fcColumns)), AbsoluteCopyNumber).None? <==>
      exists i, j | 0 <= i < |cnv.rows| && 0 <= j < |cnv.columns| ::
        cnv.columns[j] in fcColumns && AbsoluteCopyNumber(cnv.rows[i].cells[j]).None?
  {
    var kept := KeepColumns(cnv, SampleSet(fcColumns));
    if ApplyMap(kept, AbsoluteCopyNumber).None? {
      var i, k :| 0 <= i < |kept.rows| && 0 <= k < |kept.rows[i].cells| && AbsoluteCopyNumber(kept.rows[i].cells[k]).None?;
      KeptCellFails(cnv, fcColumns, i, k);
    }
    if exists i, j | 0 <= i < |cnv.rows| && 0 <= j < |cnv.columns| ::
        cnv.columns[j] in fcColumns && AbsoluteCopyNumber(cnv.rows[i].cells[j]).None? {
      var i, j :| 0 <= i < |cnv.rows| && 0 <= j < |cnv.columns| &&
        cnv.columns[j] in fcColumns && AbsoluteCopyNumber(cnv.rows[i].cells[j]).None?;
      SampleCellKept(cnv, fcColumns, i, j);
    }
  }

  /** A failing cell of the restricted table is a failing cell of the
      original table under a fold-change sample. */
  lemma KeptCellFails(cnv: Frame<Option<string>>, fcColumns: seq<string>, i: nat, k: nat)
    requires Shaped(cnv)
    requires i < |cnv.rows| && k < |KeepColumns(cnv, SampleSet(fcColumns)).columns|
    requires AbsoluteCopyNumber(KeepColumns(cnv, SampleSet(fcColumns)).rows[i].cells[k]).None?
    ensures exists i, j | 0 <= i < |cnv.rows| && 0 <= j < |cnv.columns| ::
      cnv.columns[j] in fcColumns && AbsoluteCopyNumber(cnv.rows[i].cells[j]).None?
  {
    var j := KeptColumns(cnv, SampleSet(fcColumns))[k];
    assert cnv.columns[j] in fcColumns;
  }

  /** Every cell of the original table under a fold-change sample is a cell
      of the restricted table. */
  lemma SampleCellKept(cnv: Frame<Option<string>>, fcColumns: seq<string>, i: nat, j: nat)
    requires Shaped(cnv)
    requires i < |cnv.rows| && j < |cnv.columns| && cnv.columns[j] in fcColumns
    ensures exists k | 0 <= k < |KeepColumns(cnv, SampleSet(fcColumns)).columns| ::
      KeepColumns(cnv, SampleSet(fcColumns)).rows[i].cells[k] == cnv.rows[i].cells[j]
  {
    var ks := KeptColumns(cnv, SampleSet(fcColumns));
    assert cnv.columns[j] in SampleSet(fcColumns);
    assert j in ks;
    var k :| 0 <= k < |ks| && ks[k] == j;
    assert KeepColumns(cnv, SampleSet(fcColumns)).rows[i].cells[k] == cnv.rows[i].cells[j];
  }

  /** Every parsed copy number is the first field of the cell it came from,
      in the same row, under a column of the same name. */
  lemma AbsoluteCopyNumberCells(cnv: Frame<Option<string>>, fcColumns: seq<string>, i: nat, k: nat)
    requires Shaped(cnv)
    requires AbsoluteCopyNumbers(cnv, fcColumns).Some?
    requires i < |cnv.rows| && k < |AbsoluteCopyNumbers(cnv, fcColumns).value.columns|
    ensures exists j | 0 <= j < |cnv.columns| ::
      && cnv.columns[j] == AbsoluteCopyNumbers(cnv, fcColumns).value.columns[k]
      && cnv.rows[i].cells[j].Some?
      && ParseInt(BeforeFirst(cnv.rows[i].cells[j].value, ',')) == Some(AbsoluteCopyNumbers(cnv, fcColumns).value.rows[i].cells[k])
  {
    var kept := KeepColumns(cnv, SampleSet(fcColumns));
    var r := AbsoluteCopyNumbers(cnv, fcColumns).value;
    assert ApplyMap(kept, AbsoluteCopyNumber) == Some(r);
    var j := KeptColumns(cnv, SampleSet(fcColumns))[k];
    assert kept.rows[i].cells[k] == cnv.rows[i].cells[j];
    assert AbsoluteCopyNumber(kept.rows[i].cells[k]) == Some(r.rows[i].cells[k]);
  }

  // ---------------------------------------------------------------------------
  // Crispy result files

  const CrispyPrefix := "crispy_gdsc_fold_change_gene_unsupervised_"

  /** The '_' fields of CrispyPrefix. */
  const PrefixFields: seq<string> := ["crispy", "gdsc", "fold", "change", "gene", "unsupervised"]

  /** The directory entries holding Crispy results, in listing order. */
  function CrispyFiles(entries: seq<string>): (r: seq<string>)
    ensures forall f :: f in r <==> f in entries && StartsWith(f, CrispyPrefix)
  {
    Select(entries, (f: string) => StartsWith(f, CrispyPrefix))
  }

  /** `os.path.splitext(f)[0].split('_')[6]`: the sample a result file is
      for; IndexError (None) when the stem has fewer than seven '_' fields. */
  function CrispyKey(f: string): (r: Option<string>)
    ensures r.Some? ==> '_' !in r.value
    ensures r.Some? <==> |Split(Stem(f), '_')| >= 7
  {
    var fields := Split(Stem(f), '_');
    if |fields| >= 7 then Some(fields[6]) else None
  }

  /** The prefix contributes the six fields before the sample. */
  lemma SplitAfterPrefix(s: string)
    ensures Split(CrispyPrefix + s, '_') == PrefixFields + Split(s, '_')
  {
    var t5 := "unsupervised" + ['_'] + s;
    var t4 := "gene" + ['_'] + t5;
    var t3 := "change" + ['_'] + t4;
    var t2 := "fold" + ['_'] + t3;
    var t1 := "gdsc" + ['_'] + t2;
    var t0 := "crispy" + ['_'] + t1;
    SplitAfterPiece("unsupervised", s, '_');
    SplitAfterPiece("gene", t5, '_');
    SplitAfterPiece("change", t4, '_');
    SplitAfterPiece("fold", t3, '_');
    SplitAfterPiece("gdsc", t2, '_');
    SplitAfterPiece("crispy", t1, '_');
    PrefixPieces(PrefixFields[0], PrefixFields[1], PrefixFields[2], PrefixFields[3], PrefixFields[4], PrefixFields[5], Split(s, '_'));
    PrefixText(s);
  }

  /** Six leading pieces, one at a time or all at once. */
  lemma PrefixPieces<T>(a: T, b: T, c: T, d: T, e: T, f: T, rest: seq<T>)
    ensures [a] + ([b] + ([c] + ([d] + ([e] + ([f] + rest))))) == [a, b, c, d, e, f] + rest
  {
  }

  /** CrispyPrefix is its six fields, each followed by '_'. */
  lemma PrefixText(s: string)
    ensures "crispy" + ['_'] + ("gdsc" + ['_'] + ("fold" + ['_'] + ("change" + ['_'] + ("gene" + ['_'] + ("unsupervised" + ['_'] + s))))) == CrispyPrefix + s
  {
    var t0 := "crispy" + ['_'] + ("gdsc" + ['_'] + ("fold" + ['_'] + ("change" + ['_'] + ("gene" + ['_'] + ("unsupervised" + ['_'] + s)))));
    assert |t0| == |CrispyPrefix| + |s|;
    forall i | 0 <= i < |t0| ensures t0[i] == (CrispyPrefix + s)[i] {
    }
  }

  /** The key of '<prefix><sample>.<ext>' is the sample up to its first '_'
      (all of it when it has none). */
  lemma CrispyKeyOfFile(s: string, ext: string)
    requires '.' !in ext
    ensures CrispyKey(CrispyPrefix + s + "." + ext) == Some(BeforeFirst(s, '_'))
  {
    var x := CrispyPrefix + s;
    assert x[0] == 'c';
    StemOfExtension(x, ext, 0);
    SplitAfterPrefix(s);
    var fields := Split(x, '_');
    assert fields[6] == Split(s, '_')[0];
  }

  /** `{key(f): table(f) for f in files}`: each key maps to its file, a later
      file overriding an earlier one with the same key; a file whose key
      cannot be computed stops the script (None). */
  function KeyedBy(files: seq<string>, key: string -> Option<string>): (r: Option<map<string, string>>)
    ensures r.None? <==> exists f | f in files :: key(f).None?
    ensures r.Some? ==> forall k :: k in r.value <==> exists f | f in files :: key(f) == Some(k)
    ensures r.Some? ==> forall k | k in r.value :: r.value[k] in files && key(r.value[k]) == Some(k)
  {
    if files == [] then Some(map[])
    else
      var init := files[..|files| - 1];
      var f := files[|files| - 1];
      assert forall g :: g in files <==> g in init || g == f;
      match KeyedBy(init, key)
      case None => None
      case Some(m) =>
        match key(f)
        case None => None
        case Some(k) => Some(m[k := f])
  }

  /** The last file with a given key is the one kept. */
  lemma {:induction false} KeyedByLastWins(files: seq<string>, key: string -> Option<string>, i: nat)
    requires KeyedBy(files, key).Some?
    requires i < |files| && key(files[i]).Some?
    requires forall j | i < j < |files| :: key(files[j]) != key(files[i])
    ensures key(files[i]).value in KeyedBy(files, key).value
    ensures KeyedBy(files, key).value[key(files[i]).value] == files[i]
  {
    var init := files[..|files| - 1];
    if i < |files| - 1 {
      assert init[i] == files[i];
      assert forall j | i < j < |init| :: init[j] == files[j];
      KeyedByLastWins(init, key, i);
    }
  }

  /** `fc_crispy`: the Crispy result files keyed by their sample. */
  function FcCrispy(files: seq<string>): (r: Option<map<string, string>>)
    ensures r.None? <==> exists f | f in files :: CrispyKey(f).None?
    ensures r.Some? ==> forall k | k in r.value :: r.value[k] in files && CrispyKey(r.value[k]) == Some(k)
  {
    KeyedBy(files, CrispyKey)
  }

  /** Every sample of a result file of the form '<prefix><sample>_….<ext>'
      is a key of `fc_crispy`, and the last such file is the one kept. */
  lemma FcCrispyOfFiles(files: seq<string>, i: nat, s: string, ext: string)
    requires FcCrispy(files).Some?
    requires i < |files| && files[i] == CrispyPrefix + s + "." + ext && '.' !in ext
    requires forall j | i < j < |files| :: CrispyKey(files[j]) != Some(BeforeFirst(s, '_'))
    ensures BeforeFirst(s, '_') in FcCrispy(files).value
    ensures FcCrispy(files).value[BeforeFirst(s, '_')] == files[i]
  {
    CrispyKeyOfFile(s, ext);
    KeyedByLastWins(files, CrispyKey, i);
  }

  // ---------------------------------------------------------------------------
  // Shared genes and samples

  /** The labels present in all three tables (indices for genes, columns for samples). */
  function Common(a: seq<string>, b: seq<string>, c: seq<string>): (r: set<string>)
    ensures forall x :: x in r <==> x in a && x in b && x in c
    ensures r <= set x | x in a
  {
    set x | x in a && x in b && x in c
  }

  // ---------------------------------------------------------------------------
  // Essential-gene AUCs

  /** The three fold-change tables, in the order the script scores them. */
  const Methods: seq<string> := ["crispy", "ccleanr", "original"]

  /** The inner loop of `res_auc`: the AUC of each of the three tables for
      sample `s`, computed by `auc(table, sample)` (the cumulative-sum AUC,
      a foreign computation). */
  method AucRow(s: string, auc: (string, string) -> real) returns (row: map<string, real>)
    ensures row.Keys == {"crispy", "ccleanr", "original"}
    ensures forall n | n in row :: row[n] == auc(n, s)
  {
    row := map[];
    var j := 0;
    while j < |Methods|
      invariant 0 <= j <= |Methods|
      invariant forall n :: n in row <==> n in Methods[..j]
      invariant forall n | n in row :: row[n] == auc(n, s)
    {
      assert Methods[..j + 1] == Methods[..j] + [Methods[j]];
      row := row[Methods[j] := auc(Methods[j], s)];
      j := j + 1;
    }
    assert Methods[..j] == Methods;
  }

  /** The outer loop filling `res_auc`: one row of AUCs per shared sample. */
  method ResAuc(samples: set<string>, auc: (string, string) -> real) returns (res: map<string, map<string, real>>)
    ensures res.Keys == samples
    ensures forall s | s in res :: res[s].Keys == {"crispy", "ccleanr", "original"}
    ensures forall s, n | s in res && n in res[s] :: res[s][n] == auc(n, s)
  {
    res := map[];
    var remaining := samples;
    while remaining != {}
      invariant remaining <= samples
      invariant res.Keys == samples - remaining
      invariant forall s | s in res :: res[s].Keys == {"crispy", "ccleanr", "original"}
      invariant forall s, n | s in res && n in res[s] :: res[s][n] == auc(n, s)
      decreases |remaining|
    {
      var s :| s in remaining;
      var row := AucRow(s, auc);
      res := res[s := row];
      remaining := remaining - {s};
    }
  }

  // ---------------------------------------------------------------------------
  // Copy-number effect in non-expressed genes

  /** One (sample, gene) row of the non-expressed-gene table: the three fold
      changes and the absolute copy number, each possibly missing. */
  datatype GeneSampleRow = GeneSampleRow(original: Option<real>, crispy: Option<real>, ccleanr: Option<real>, cnv: Option<int>)

  predicate Complete(x: GeneSampleRow)
  {
    x.original.Some? && x.crispy.Some? && x.ccleanr.Some? && x.cnv.Some?
  }

  /** `dropna().query('cnv != -1')`: the complete rows with a known copy number. */
  function PlotRows(rows: seq<GeneSampleRow>): (r: seq<GeneSampleRow>)
    ensures forall x | x in r :: x in rows && Complete(x) && x.cnv.value != -1
    ensures forall x | x in rows && Complete(x) && x.cnv.value != -1 :: x in r
  {
    Select(Select(rows, Complete), (x: GeneSampleRow) => x.cnv != Some(-1))
  }

  /** `cnv_d`: the copy-number class of every plotted row. */
  function CnvClasses(rows: seq<GeneSampleRow>): (r: seq<string>)
    requires forall x | x in rows :: x.cnv.Some?
    ensures |r| == |rows|
    ensures forall i | 0 <= i < |rows| :: r[i] == CnvBucket(rows[i].cnv.value)
  {
    seq(|rows|, i requires 0 <= i < |rows| => CnvBucket(rows[i].cnv.value))
  }

  /** Every plotted row with a non-negative copy number falls in one of the
      eleven classes of the box-plot order. */
  lemma PlotClassesInOrder(rows: seq<GeneSampleRow>, i: nat)
    requires i < |PlotRows(rows)|
    requires PlotRows(rows)[i].cnv.value >= 0
    ensures CnvClasses(PlotRows(rows))[i] in BucketOrder
  {
    var p := PlotRows(rows);
    assert p[i] in p;
    CnvBucketInOrder(p[i].cnv.value);
  }
}
