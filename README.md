# crispy scripts: library curation, BRASS assembly and copy-number tables

This project models the table-processing logic of five scripts of the
crispy CRISPR-Cas9 analysis repository in Dafny, and proves what those
scripts promise about their outputs.

- **GeckoV2 library** (`scripts/geckov2/__init__.py`, module `GeckoV2`):
  - `bin_bkdist` labels a distance between cut sites.
  - `lib_off_targets` reports every sgRNA that cuts at more than one
    (chromosome, start) site. For each one it gives the numbers of cuts,
    chromosomes and genes, the spread of its starts, and the bin of that
    spread.
  - `get_crispr_library` drops non-targeting rows and off-target sgRNAs
    when asked, and computes `end = start + |sgrna| + |PAM|`.
- **BRASS import** (modules `Bedpe` and `SgrnaBrass`): `import_brass_bedpe`
  takes the sample before the first ',', keeps the calls with `bkdist` above
  the threshold, and, with `splitreads`, drops unassembled calls. The
  annotation variant then projects each call onto a BED row.
- **BRASS assembly loop** (module `SgrnaBrass`): every
  '.brass.annot.bedpe' entry of the directory is imported and relabelled
  with the sample named by its file, and the per-file tables are
  concatenated.
- **Gene annotation** (`scripts/crispy/plotting/annotate_bedpe.py`, module
  `AnnotateBedpe`):
  - the `annotate_brass_bedpe` loop, with its file names and its
    `collapse != '.'` filter;
  - the descending sort by count;
  - the ROC labels of `plot_sv_ratios_arocs`;
  - the per-sample score dictionary.
- **Copy-number cells** (module `CopyNumber`): the `"abs,…,loh"` cell
  parser, chromosome renaming 23 → X and 24 → Y, and the `0..9 / 10+`
  copy-number classes.
- **Tables** (modules `Tables` and `Frames`): pandas tables are modelled as
  sequences of rows, or as labelled frames whose cells may be missing.
  Boolean masks, `apply`, `applymap`, `loc`, `dropna` and `concat` are
  functions on these values.
- **GDSC assembly** (`scripts/gdsc_assemble.py`, module `GdscAssemble`):
  - the copy-number columns of the fold-change samples;
  - the Crispy result files and their sample keys;
  - the intersections and the double loop filling `res_auc`;
  - the box-plot rows and their copy-number classes.
- **Corrected plots** (`src/benchmark/corrected_plots.py`, module
  `CorrectedPlots`):
  - copy-number rows chosen by the gene prefixes of the fold-change index,
    then emptied rows and columns dropped;
  - the absolute-copy-number and LOH tables;
  - renamed segment chromosomes;
  - the per-sample result files;
  - the box-plot row filter.

Python and pandas raise in several places the scripts do not guard. In the
model each of these becomes an error value (`Option` or `Result`), never a
precondition:

- `split('_')[1]` on a guide without '_';
- `astype(int)` on a missing position;
- `int()` on a field that is not an integer;
- `split(',')[2]` on a short cell;
- `split` on a missing (NaN) cell;
- `pd.concat([])`;
- `loc` when no requested label of an axis is present.

In particular, `applymap` on the copy-number selection fails when any
selected cell is missing. `dropna(how='all')` does not remove single
missing cells.

With both flags false, `get_crispr_library` still runs `astype(int)` on
`Pos` (scripts/geckov2/__init__.py:105), so a row without a position makes
the call fail (`PositionMissing`). `GetCrisprLibraryKeepsEverything` states
the keep-every-row property for libraries whose rows all have a position.

I/O is a parameter: `read` stands for parsing a file and `annotate` for the
pybedtools gene mapping. Directory listings are sequences of entry names,
and the AUC computations are functions passed in.

## Model

| member | source | states |
|---|---|---|
| GeckoV2.BinBkdist | scripts/geckov2/__init__.py:35-57 | the label is one of the seven bins; 'diff. chr.' iff distance is -1, '0' iff 0, and each of the four interval labels iff the distance lies strictly inside its open interval |
| GeckoV2.BinBkdistOtherwise | scripts/geckov2/__init__.py:54-57 | '>10 Mb' exactly for distances below -1, for the bounds 1, 10000, 100000 and 1000000, and for 10000000 or more |
| GeckoV2.GeneOf | scripts/geckov2/__init__.py:66 | the gene (second '_' field) exists iff the guide holds a '_', and holds no '_' itself |
| GeckoV2.GuideFields | scripts/geckov2/__init__.py:65-66 | for a guide written as '_'-joined fields, sgrna is the first field and gene the second |
| GeckoV2.Starts | scripts/geckov2/__init__.py:81 | the start positions of an sgRNA are exactly the positions of its mapped rows |
| GeckoV2.Least | scripts/geckov2/__init__.py:81 | `np.min`: a member no greater than any other |
| GeckoV2.Greatest | scripts/geckov2/__init__.py:81 | `np.max`: a member no smaller than any other |
| GeckoV2.StartsOfMapped | scripts/geckov2/__init__.py:81 | every sgRNA of the mapped rows has at least one start, so min and max exist |
| GeckoV2.LibOffTargets | scripts/geckov2/__init__.py:60-87 | fails iff some mapped guide has no gene field; otherwise keyed by exactly the sgRNAs with more than one distinct (chromosome, start) cut, each with its summary |
| GeckoV2.OffTargetIffTwoSites | scripts/geckov2/__init__.py:69-72 | more than one cut iff two mapped rows of the sgRNA differ in chromosome or start |
| GeckoV2.Distance | scripts/geckov2/__init__.py:81-82 | the distance is non-negative iff the sgRNA maps to one chromosome, and −1 otherwise |
| GeckoV2.Summary | scripts/geckov2/__init__.py:71-83 | a mapped sgRNA has at least one cut and one chromosome; ngenes is the size of the gene set; the distance is non-negative iff nchrs is 1; the bin is bin_bkdist of the distance |
| GeckoV2.SummaryCounts | scripts/geckov2/__init__.py:71-79 | a reported sgRNA has ncuts > 1, at least one chromosome and at least one gene |
| GeckoV2.SpreadOnOneChromosome | scripts/geckov2/__init__.py:81-82 | two distinct cuts on one chromosome have different starts, so max − min ≥ 1 |
| GeckoV2.SummaryDistance | scripts/geckov2/__init__.py:81-82 | distance ≥ 1 on one chromosome and −1 on several |
| GeckoV2.SummaryOfOffTarget | scripts/geckov2/__init__.py:71-83 | the bin is bin_bkdist(distance), 'diff. chr.' exactly when several chromosomes, and never '0' |
| GeckoV2.OffTargetDistances | scripts/geckov2/__init__.py:71-85 | the same facts for every row of the returned table |
| GeckoV2.SummarySpread | scripts/geckov2/__init__.py:81-82 | on one chromosome the distance is the largest gap between the starts of two mapped rows of the sgRNA: no gap exceeds it and two rows attain it |
| GeckoV2.CuratedIsKept | scripts/geckov2/__init__.py:96-101 | the two optional filters together keep exactly the rows of the combined keep rule, in order |
| GeckoV2.Row | scripts/geckov2/__init__.py:105-106 | the row keeps its mapping; sgrna and gene are the guide's first two fields, start the position, end = start + len(sgrna) + len(PAM) |
| GeckoV2.GetCrisprLibrary | scripts/geckov2/__init__.py:90-108 | fails with GuideWithoutGene iff some guide lacks '_'; fails with PositionMissing iff some kept row has no position; otherwise returns the kept rows in order, each well formed |
| GeckoV2.GetCrisprLibraryRows | scripts/geckov2/__init__.py:96-101 | every returned row comes from the library; with drop_non_targeting it is targeted; with remove_off_targets its sgRNA is not an off-target |
| GeckoV2.GetCrisprLibraryKeepsEverything | scripts/geckov2/__init__.py:90-108 | with both flags false and every position present, all rows are kept in order |
| GeckoV2.GetCrisprLibraryMembership | scripts/geckov2/__init__.py:99-101 | with remove_off_targets, a row is kept iff it passes the targeting filter and its sgRNA is not reported by lib_off_targets |
| Bedpe.CorrectSample | scripts/crispy/plotting/sgrna_brass.py:18 | the new sample is the longest ','-free prefix of the old one; no other field changes |
| Bedpe.CorrectSampleIdempotent | scripts/crispy/plotting/sgrna_brass.py:18 | correcting twice equals correcting once |
| Bedpe.ImportBrassBedpe | scripts/crispy/plotting/sgrna_brass.py:13-27 | every surviving call has bkdist > threshold, is assembled when splitreads is set, and has a ','-free sample |
| Bedpe.ImportOnlyFilters | scripts/crispy/plotting/sgrna_brass.py:13-27 | the result is the calls passing both filters, in order, with only the sample rewritten |
| Bedpe.ImportMembership | scripts/crispy/plotting/sgrna_brass.py:13-27 | a call is in the result iff it is the corrected form of an input call that passes the filters |
| Bedpe.ImportWithoutSplitreads | scripts/crispy/plotting/sgrna_brass.py:24-25 | without splitreads the assembly step removes nothing |
| Bedpe.ThresholdMinusTwo | scripts/crispy/plotting/sgrna_brass.py:21 | with threshold −2, every call with bkdist ≥ −1 passes the distance filter |
| Bedpe.ToBed | scripts/crispy/plotting/annotate_bedpe.py:34-39 | '#chr' is 'chr' followed by chr1, start is start1, end is end2, svclass is copied |
| Bedpe.ToBedDetermines | scripts/crispy/plotting/annotate_bedpe.py:35-38 | two BED rows are equal iff the calls agree on chr1, start1, end2 and svclass |
| Bedpe.ImportBrassBed | scripts/crispy/plotting/annotate_bedpe.py:18-41 | one BED row per imported call, in order |
| Bedpe.ImportBrassBedRows | scripts/crispy/plotting/annotate_bedpe.py:24-39 | the BED table is the projection of exactly the input calls passing the three filters |
| Bedpe.SampleOf | scripts/crispy/plotting/sgrna_brass.py:42 | the derived sample holds no '.' |
| Bedpe.SampleOfEntry | scripts/crispy/plotting/sgrna_brass.py:42 | for a path dir/f, the sample is the text of f before its first '.' |
| Bedpe.SampleOfExample | scripts/crispy/plotting/sgrna_brass.py:42 | 'BB65-RCC.brass.annot.bedpe' gives 'BB65-RCC' |
| Bedpe.StemOfBrassEntry | scripts/crispy/plotting/annotate_bedpe.py:63 | for a BRASS entry, basename minus extension is the entry without '.bedpe' |
| Bedpe.BedFile | scripts/crispy/plotting/annotate_bedpe.py:63 | the BED file is '<dir>/' + stem + '.bed', and the stem can be read back from it |
| Bedpe.AnnotFile | scripts/crispy/plotting/annotate_bedpe.py:70 | the annotation file is '<dir>/' + stem + '.genes.gff.tab', the stem can be read back from it, and it differs from the BED file |
| Bedpe.OutputFilesOfBrassEntry | scripts/crispy/plotting/annotate_bedpe.py:63-70 | the .bed and .genes.gff.tab files are written next to the entry under its stem |
| SgrnaBrass.Load | scripts/crispy/plotting/sgrna_brass.py:39-42 | a file's table has no more rows than the file, and every row has bkdist > −2, is assembled and carries the sample of the file name |
| SgrnaBrass.AssembleBrass | scripts/crispy/plotting/sgrna_brass.py:30-46 | the loop's result is the concatenation of the per-file tables of the BRASS entries, or an error when there are none |
| SgrnaBrass.PartsOfBrassFiles | scripts/crispy/plotting/sgrna_brass.py:35 | only entries ending in '.brass.annot.bedpe' are read, one table each, in listing order |
| SgrnaBrass.AssembleFailsWithoutFiles | scripts/crispy/plotting/sgrna_brass.py:46 | the concatenation fails iff the directory has no BRASS entry |
| SgrnaBrass.AssembledCalls | scripts/crispy/plotting/sgrna_brass.py:34-46 | every assembled call has bkdist > −2, is assembled, and carries the sample named by the first '.' field of a BRASS entry |
| SgrnaBrass.SampleOverlap | scripts/crispy/plotting/sgrna_brass.py:52 | a sample is in the overlap iff it is a fold-change column and the sample of some assembled call |
| AnnotateBedpe.Insert | scripts/crispy/plotting/annotate_bedpe.py:67 | inserting into a count-descending table keeps it descending and adds exactly the new row |
| AnnotateBedpe.SortByCount | scripts/crispy/plotting/annotate_bedpe.py:67 | the result is descending by count and a permutation of the input |
| AnnotateBedpe.Combined | scripts/crispy/plotting/annotate_bedpe.py:78-81 | fails iff no table was annotated; otherwise exactly the rows of the tables with collapse ≠ '.' |
| AnnotateBedpe.AnnotateBrassBedpe | scripts/crispy/plotting/annotate_bedpe.py:54-83 | the loop returns `Combined(AnnotParts(...))`, the filtered concatenation of the annotated tables, and writes `Written(...)`; no returned row has collapse '.' |
| AnnotateBedpe.LoopStep | scripts/crispy/plotting/annotate_bedpe.py:56-75 | one more entry adds its annotated table and its two output files exactly when its import is non-empty |
| AnnotateBedpe.AnnotPartsOfAnnotated | scripts/crispy/plotting/annotate_bedpe.py:56-62 | the tables come from exactly the BRASS entries whose import is non-empty, in listing order |
| AnnotateBedpe.WrittenOfAnnotated | scripts/crispy/plotting/annotate_bedpe.py:62-71 | files are written for exactly those entries, two each, in order |
| AnnotateBedpe.AnnotateFailsWhenNothingKept | scripts/crispy/plotting/annotate_bedpe.py:78 | the concatenation fails iff every BRASS entry imports to an empty table |
| AnnotateBedpe.AnnotatedRows | scripts/crispy/plotting/annotate_bedpe.py:54-83 | every returned row has collapse ≠ '.', is a gene hit of some entry's BED table, and carries that entry's sample |
| AnnotateBedpe.ClassOrder | scripts/crispy/plotting/annotate_bedpe.py:87 | the default order is deletion, inversion, tandem-duplication; a given order is used as is |
| AnnotateBedpe.RocLabel | scripts/crispy/plotting/annotate_bedpe.py:92 | the label is 0 or 1, and 1 iff the class name occurs in collapse |
| AnnotateBedpe.RocLabelOfListed | scripts/crispy/plotting/annotate_bedpe.py:92 | a collapse string listing the class is labelled 1 |
| AnnotateBedpe.RocLabelOfShort | scripts/crispy/plotting/annotate_bedpe.py:92 | a class name longer than collapse is labelled 0 |
| AnnotateBedpe.RocLabels | scripts/crispy/plotting/annotate_bedpe.py:92 | one label per row, 1 iff the class occurs in that row's collapse |
| AnnotateBedpe.GroupRows | scripts/crispy/plotting/annotate_bedpe.py:117 | exactly the complete rows of the group: row k is the input row at the k-th position that belongs to the group and is complete, so order and repeats are kept |
| AnnotateBedpe.Groups | scripts/crispy/plotting/annotate_bedpe.py:116 | exactly the group values that occur |
| AnnotateBedpe.PerGroupScores | scripts/crispy/plotting/annotate_bedpe.py:114-119 | one entry per group, each the score of that group's complete rows |
| CopyNumber.AbsoluteCopyNumber | scripts/gdsc_assemble.py:39 | a missing cell fails; otherwise the result is int() of the first ',' field |
| CopyNumber.LossOfHeterozygosity | src/benchmark/corrected_plots.py:34 | the flag exists iff the cell is present with at least three fields, and holds no ',' |
| CopyNumber.ParseCell | scripts/gdsc_assemble.py:39 | a cell written as abs,…,loh parses back to abs and loh |
| CopyNumber.RenameChromosome | scripts/gdsc_assemble.py:34 | 'X' iff 23, 'Y' iff 24, otherwise a decimal string that parses back to the number |
| CopyNumber.RenameChromosomeInjective | scripts/gdsc_assemble.py:34 | different chromosome numbers keep different names |
| CopyNumber.CnvBucket | scripts/gdsc_assemble.py:98 | '10+' iff n ≥ 10; below 10 the class parses back to n |
| CopyNumber.CnvBucketInOrder | scripts/gdsc_assemble.py:98-101 | the class is in the plotting order iff n ≥ 0, at position min(n, 10) |
| Frames.KeepColumns | scripts/gdsc_assemble.py:38 | the kept columns are the selected ones in their original order, and every row keeps its key and those cells |
| Frames.ApplyMap | scripts/gdsc_assemble.py:39 | fails iff some cell fails; otherwise same keys and columns, every cell replaced by its image |
| Frames.Slots | src/benchmark/corrected_plots.py:32 | `loc`'s rows for a list of labels: every position of each present label (all rows of a duplicated label), one missing slot for each absent label |
| Frames.Reindex | src/benchmark/corrected_plots.py:32 | KeyError iff a non-empty request has no present label on one axis; otherwise one row per row slot and one column per column slot, each cell copied from the slots' positions |
| Frames.ReindexKeeps | src/benchmark/corrected_plots.py:32 | every cell under a requested label and a requested column is in the result, under the same label and column |
| Frames.DropEmptyRows | src/benchmark/corrected_plots.py:32 | exactly the rows with a present cell are kept, and the table keeps its shape |
| Frames.DropEmptyColumnsKeeps | src/benchmark/corrected_plots.py:32 | dropping empty columns keeps every present cell under its column |
| Frames.DropEmptyColumnsNonEmpty | src/benchmark/corrected_plots.py:32 | every remaining column has a present cell |
| GdscAssemble.AbsoluteCopyNumbers | scripts/gdsc_assemble.py:38-39 | columns are exactly the copy-number columns that are fold-change samples; rows keep their keys; fails iff a cell in those columns fails to parse |
| GdscAssemble.KeptCellsFail | scripts/gdsc_assemble.py:38-39 | parsing the kept columns fails iff some cell under a fold-change column fails |
| GdscAssemble.SampleCellKept | scripts/gdsc_assemble.py:38 | every cell under a fold-change column is kept |
| GdscAssemble.AbsoluteCopyNumberCells | scripts/gdsc_assemble.py:39 | each result cell is the parsed first field of the present cell under the same row and column |
| GdscAssemble.CrispyFiles | scripts/gdsc_assemble.py:49 | exactly the entries starting with 'crispy_gdsc_fold_change_gene_unsupervised_' |
| GdscAssemble.CrispyKey | scripts/gdsc_assemble.py:50 | the key exists iff the stem has at least seven '_' fields, and holds no '_' |
| GdscAssemble.SplitAfterPrefix | scripts/gdsc_assemble.py:49-50 | the prefix contributes exactly six '_' fields |
| GdscAssemble.CrispyKeyOfFile | scripts/gdsc_assemble.py:50 | the key of '<prefix><s>.<ext>' is the part of s before its first '_' |
| GdscAssemble.FcCrispy | scripts/gdsc_assemble.py:50 | fails iff some file has no sample key; otherwise every key maps to a listed file whose key it is |
| GdscAssemble.KeyedBy | scripts/gdsc_assemble.py:50 | the dictionary comprehension fails iff some file has no key; otherwise its keys are exactly the file keys and each maps to a file carrying that key |
| GdscAssemble.KeyedByLastWins | scripts/gdsc_assemble.py:50 | the last file with a given key is the one kept |
| GdscAssemble.FcCrispyOfFiles | scripts/gdsc_assemble.py:49-50 | a result file '<prefix><s>.<ext>' puts the sample before the first '_' of s in `fc_crispy`, and the last such file is kept |
| GdscAssemble.Common | scripts/gdsc_assemble.py:57-58 | exactly the names present in all three |
| GdscAssemble.AucRow | scripts/gdsc_assemble.py:64-67 | one AUC for each of crispy, ccleanr and original, each the AUC of that table for the sample |
| GdscAssemble.ResAuc | scripts/gdsc_assemble.py:61-68 | one row per common sample, each with the three methods' AUCs |
| GdscAssemble.PlotRows | scripts/gdsc_assemble.py:91-96 | exactly the complete rows whose copy number is not −1 |
| GdscAssemble.CnvClasses | scripts/gdsc_assemble.py:98 | one class per row, the class of its copy number |
| GdscAssemble.PlotClassesInOrder | scripts/gdsc_assemble.py:98-101 | every plotted row with a non-negative copy number has a class in the box-plot order |
| CorrectedPlots.GenePrefixes | src/benchmark/corrected_plots.py:32 | a prefix is in the set iff it is the text before the first '_' of some index entry |
| CorrectedPlots.PrefixOrder | src/benchmark/corrected_plots.py:32 | lists exactly the prefix set, without repetition |
| CorrectedPlots.SelectCopyNumber | src/benchmark/corrected_plots.py:32 | KeyError iff no gene prefix is a row label, or no fold-change column is a column, of the copy-number table; otherwise a well-shaped table |
| CorrectedPlots.SelectedCell | src/benchmark/corrected_plots.py:32 | every selected row is a gene prefix, every column a fold-change column, and every cell is copied from a copy-number row and column with those labels, or missing because one is absent |
| CorrectedPlots.SelectedRow | src/benchmark/corrected_plots.py:32 | every selected row has a present cell and is a row of the copy-number table |
| CorrectedPlots.SelectedComplete | src/benchmark/corrected_plots.py:32 | every present copy-number cell under a gene prefix and a fold-change column is in the selection under the same labels, including every row of a duplicated label |
| CorrectedPlots.ParseCopyNumber | src/benchmark/corrected_plots.py:33-34 | fails iff some selected cell is missing, has a non-integer first field or fewer than three fields; otherwise both tables keep the labels, and each cell is int of the first field and the third field |
| CorrectedPlots.ParseWrittenCell | src/benchmark/corrected_plots.py:33-34 | a cell written as abs,…,loh gives back abs and loh in the two tables |
| CorrectedPlots.SegmentChromosomes | src/benchmark/corrected_plots.py:38 | X and Y stand exactly for 23 and 24, and two segments get the same name iff they have the same chromosome number |
| CorrectedPlots.SampleFiles | src/benchmark/corrected_plots.py:43-46 | the kept paths are exactly the entries starting with '<sample>_', joined to 'data/crispy/', in listing order |
| CorrectedPlots.SampleTable | src/benchmark/corrected_plots.py:46 | fails iff no file is matched; otherwise exactly the rows of the matched files |
| CorrectedPlots.SampleTableFails | src/benchmark/corrected_plots.py:46 | the concatenation fails iff no entry starts with '<sample>_' |
| CorrectedPlots.BoxPlotRows | src/benchmark/corrected_plots.py:113-114 | the two filters equal one pass keeping, in order, exactly the rows with cnv, logfc and logfc_norm present and cnv ≠ −1 |

## Left out

- The library-representation statistics (Gini, Lorenz curves, percentiles, dropouts) are left out. They are floating-point computations in a class that is not part of this model.
- `notebooks/dualguide/GILibsRepresentation.py` is left out: it is Excel I/O, plotting and calls into that class.
- `notebooks/minlib/DabrafHT29.py` is left out: its normalisation lives in a class that is not part of this model, and the rest is float interpolation, correlations and plotting.
- `src/shrna_corr.py` is not part of this model: it is correlations, ROC/AUC and float rounding.
- ROC curves, AUCs, rank fractions (`rankdata`), cumulative sums and correlations are float numerics from sklearn and scipy. Wherever a table of them is filled, they are function parameters.
- The pybedtools gene mapping is a foreign call and is the parameter `annotate`. It always asks for 'collapse,count'.
- File reading and writing, `os.listdir`, `print`, figure saving and all seaborn and matplotlib drawing are left out. This includes the plotting loops that advance `pos` and the cytoband shading.
- GeckoV2.LibOffTargets: the result is a map keyed by sgRNA. The row order of `sort_values('ncuts')`, an unstable sort, is not modelled.
- GeckoV2.Summary: genes are a set and `ngenes` is its size. The ';'-joined string and its set-iteration order are not modelled, assuming gene names hold no ';'.
- AnnotateBedpe.SortByCount: the order of rows with equal counts is not stated, because pandas' default sort is not stable.
- Frames.Reindex: `loc` with list-like keys follows pandas before 1.0: absent labels give missing cells, and KeyError is raised only when no requested label of an axis is present. Pandas 1.0 and later raise KeyError as soon as any requested label is absent; the model does not follow that behaviour.
- CorrectedPlots.PrefixOrder: `loc` with a Python set lists the prefixes in set-iteration order. The model uses first-appearance order and proves nothing about row order.
- CopyNumber.AbsoluteCopyNumber: the model accepts one optional sign ('+' or '-') followed by ASCII decimal digits. Python's `int()` also accepts surrounding whitespace, '_' digit separators and non-ASCII digits; the model rejects those.
- Float columns holding integer values (`cnv` before `astype(int)`, `Pos`) are modelled as optional integers.
- The pandas index alignment of the per-sample reshaping is not modelled: the `crispy_original` and `crispy_corrected` frames, the `unstack` concatenation of the non-expressed-gene table, and the per-sample AUC tables. `PlotRows` models the filter applied after that alignment.
- The expressions whose value the scripts discard are not modelled, such as the translocation selection at the end of the sgRNA script.
