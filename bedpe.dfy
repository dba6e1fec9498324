/** BRASS structural-variant calls (BEDPE records): the import filter both
    plotting scripts share, the projection to 4-column BED rows, and the
    names derived from a '.brass.annot.bedpe' file. */
module Bedpe {
  import opened Text
  import opened Tables

  /** One BRASS call. `rest` holds the BEDPE columns no rule here looks at;
      they are carried through unchanged. */
  datatype Call = Call(
    chr1: string,
    start1: int,
    end2: int,
    svclass: string,
    sample: string,
    bkdist: int,
    assemblyScore: string,
    rest: seq<string>)

  // ---------------------------------------------------------------------------
  // import_brass_bedpe

  /** `sample.split(',')[0]`: BRASS writes "tumour,normal" in the sample column. */
  function CorrectSample(c: Call): (r: Call)
    ensures ',' !in r.sample && r.sample <= c.sample
    ensures |r.sample| < |c.sample| ==> c.sample[|r.sample|] == ','
    ensures r.(sample := c.sample) == c
  {
    c.(sample := BeforeFirst(c.sample, ','))
  }

  /** Correcting a corrected sample name changes nothing. */
  lemma CorrectSampleIdempotent(c: Call)
    ensures CorrectSample(CorrectSample(c)) == CorrectSample(c)
  {
    BeforeFirstIdempotent(c.sample, ',');
  }

  /** The distance filter `bkdist > threshold` (strict). */
  function LongerThan(threshold: int): Call -> bool
  {
    (c: Call) => c.bkdist > threshold
  }

  /** The BRASS2 filter `assembly_score != '_'`. */
  function Assembled(c: Call): bool
  {
    c.assemblyScore != "_"
  }

  /** Both filters of import_brass_bedpe as one condition on a call. */
  function Passes(threshold: int, splitreads: bool): Call -> bool
  {
    (c: Call) => c.bkdist > threshold && (splitreads ==> Assembled(c))
  }

  /** import_brass_bedpe: correct the sample names, keep calls longer than the
      threshold and, with `splitreads`, only assembled calls. */
  function ImportBrassBedpe(calls: seq<Call>, threshold: int, splitreads: bool): (r: seq<Call>)
    ensures forall c | c in r :: c.bkdist > threshold && (splitreads ==> c.assemblyScore != "_")
    ensures forall c | c in r :: ',' !in c.sample
  {
    var long := Select(Map(calls, CorrectSample), LongerThan(threshold));
    if splitreads then Select(long, Assembled) else long
  }

  /** The import only filters: the result is the corrected surviving calls,
      in their original order, every field other than `sample` unchanged. */
  lemma ImportOnlyFilters(calls: seq<Call>, threshold: int, splitreads: bool)
    ensures ImportBrassBedpe(calls, threshold, splitreads) ==
      Map(Select(calls, Passes(threshold, splitreads)), CorrectSample)
  {
    var named := Map(calls, CorrectSample);
    var rule := Passes(threshold, splitreads);
    if splitreads {
      SelectSelect(named, LongerThan(threshold), Assembled, rule);
    } else {
      SelectSame(named, LongerThan(threshold), rule);
    }
    SelectMap(calls, CorrectSample, rule, rule);
  }

  /** A corrected call is in the import exactly when some input call passes
      both filters and corrects to it. */
  lemma ImportMembership(calls: seq<Call>, threshold: int, splitreads: bool, c: Call)
    ensures c in ImportBrassBedpe(calls, threshold, splitreads) <==>
      exists x | x in calls && Passes(threshold, splitreads)(x) :: c == CorrectSample(x)
  {
    ImportOnlyFilters(calls, threshold, splitreads);
    var kept := Select(calls, Passes(threshold, splitreads));
    MapMembership(kept, CorrectSample, c);
  }

  /** Without `splitreads` the assembly step removes nothing: the result is
      the distance filter alone. */
  lemma ImportWithoutSplitreads(calls: seq<Call>, threshold: int)
    ensures ImportBrassBedpe(calls, threshold, false) == Select(Map(calls, CorrectSample), LongerThan(threshold))
  {
  }

  /** With the threshold -2 of the sgRNA script, every call with bkdist >= -1
      (translocations carry -1) passes the distance filter. */
  lemma ThresholdMinusTwo(c: Call)
    requires c.bkdist >= -1
    ensures LongerThan(-2)(c)
  {
  }

  // ---------------------------------------------------------------------------
  // BED projection

  /** A BED row: '#chr', 'start', 'end', 'svclass'. */
  datatype BedRow = BedRow(chrom: string, start: int, end: int, svclass: string)

  /** '#chr' is 'chr' + chr1, 'start' is start1, 'end' is end2. */
  function ToBed(c: Call): (b: BedRow)
    ensures b.start == c.start1 && b.end == c.end2 && b.svclass == c.svclass
    ensures StartsWith(b.chrom, "chr") && b.chrom[3..] == c.chr1
  {
    BedRow("chr" + c.chr1, c.start1, c.end2, c.svclass)
  }

  /** Projection loses only what the BED file does not hold: two calls with
      the same chromosome, start, end and class give the same BED row, and
      a BED row determines the call's chr1, start1, end2 and svclass. */
  lemma ToBedDetermines(c: Call, d: Call)
    ensures ToBed(c) == ToBed(d) <==>
      c.chr1 == d.chr1 && c.start1 == d.start1 && c.end2 == d.end2 && c.svclass == d.svclass
  {
    if ToBed(c) == ToBed(d) {
      assert ToBed(c).chrom[3..] == ToBed(d).chrom[3..];
    }
  }

  /** import_brass_bedpe of the annotation script: the shared import
      followed by the BED projection, one row per surviving call, in order. */
  function ImportBrassBed(calls: seq<Call>, threshold: int, splitreads: bool): (r: seq<BedRow>)
    ensures |r| == |ImportBrassBedpe(calls, threshold, splitreads)|
    ensures forall i | 0 <= i < |r| :: r[i] == ToBed(ImportBrassBedpe(calls, threshold, splitreads)[i])
  {
    Map(ImportBrassBedpe(calls, threshold, splitreads), ToBed)
  }

  /** A BED row exists for a call exactly when the call passes both filters. */
  lemma ImportBrassBedRows(calls: seq<Call>, threshold: int, splitreads: bool)
    ensures ImportBrassBed(calls, threshold, splitreads) == Map(Select(calls, Passes(threshold, splitreads)), ToBed)
  {
    ImportOnlyFilters(calls, threshold, splitreads);
    var kept := Select(calls, Passes(threshold, splitreads));
    var lhs := ImportBrassBed(calls, threshold, splitreads);
    var rhs := Map(kept, ToBed);
    assert |lhs| == |rhs|;
    forall i | 0 <= i < |lhs| ensures lhs[i] == rhs[i] {
      assert Map(kept, CorrectSample)[i] == CorrectSample(kept[i]);
    }
  }

  // ---------------------------------------------------------------------------
  // File names

  const BrassSuffix := ".brass.annot.bedpe"

  /** The directory entries the scripts read. */
  predicate IsBrassFile(f: string)
  {
    EndsWith(f, BrassSuffix)
  }

  /** '{dir}/{f}' for a directory entry. */
  function PathOf(dir: string, f: string): string
  {
    dir + "/" + f
  }

  /** `os.path.splitext(os.path.basename(path))[0]`. */
  function StemOf(path: string): string
  {
    Stem(Basename(path))
  }

  /** `StemOf(path).split('.')[0]`: the sample a BRASS file belongs to. */
  function SampleOf(path: string): (r: string)
    ensures '.' !in r
  {
    BeforeFirst(StemOf(path), '.')
  }

  /** '{dir}/{stem}.bed'. */
  function BedFile(dir: string, path: string): (r: string)
    ensures StartsWith(r, dir + "/") && EndsWith(r, ".bed")
    ensures |r| == |dir| + |StemOf(path)| + 5 && r[|dir| + 1..|r| - 4] == StemOf(path)
  {
    dir + "/" + StemOf(path) + ".bed"
  }

  /** '{dir}/{stem}.genes.gff.tab'. */
  function AnnotFile(dir: string, path: string): (r: string)
    ensures StartsWith(r, dir + "/") && EndsWith(r, ".genes.gff.tab")
    ensures |r| == |dir| + |StemOf(path)| + 15 && r[|dir| + 1..|r| - 14] == StemOf(path)
    ensures r != BedFile(dir, path)
  {
    dir + "/" + StemOf(path) + ".genes.gff.tab"
  }

  /** The sample of '{dir}/{f}' is the part of the entry before its first '.'. */
  lemma SampleOfEntry(dir: string, f: string)
    requires '/' !in f
    ensures SampleOf(PathOf(dir, f)) == BeforeFirst(f, '.')
  {
    BasenameOfEntry(dir, f);
    StemKeepsFirstPart(f);
  }

  /** For a BRASS entry the stem is the entry without '.bedpe'. */
  lemma StemOfBrassEntry(dir: string, f: string)
    requires '/' !in f && IsBrassFile(f)
    ensures StemOf(PathOf(dir, f)) == f[..|f| - 6]
  {
    BasenameOfEntry(dir, f);
    var x := f[..|f| - 6];
    assert f[|f| - 18..] == BrassSuffix;
    assert x[|x| - 1] == f[|f| - 7] == 't';
    assert f == x + "." + "bedpe";
    StemOfExtension(x, "bedpe", |x| - 1);
  }

  /** The written file names of a BRASS entry: the entry with '.bedpe'
      replaced by '.bed' and by '.genes.gff.tab'. */
  lemma OutputFilesOfBrassEntry(dir: string, f: string)
    requires '/' !in f && IsBrassFile(f)
    ensures BedFile(dir, PathOf(dir, f)) == dir + "/" + f[..|f| - 6] + ".bed"
    ensures AnnotFile(dir, PathOf(dir, f)) == dir + "/" + f[..|f| - 6] + ".genes.gff.tab"
  {
    StemOfBrassEntry(dir, f);
  }

  /** The documented example: 'BB65-RCC.brass.annot.bedpe' belongs to sample 'BB65-RCC'. */
  lemma SampleOfExample(dir: string)
    ensures SampleOf(PathOf(dir, "BB65-RCC.brass.annot.bedpe")) == "BB65-RCC"
  {
    var x, y := "BB65-RCC", "brass.annot.bedpe";
    assert forall i | 0 <= i < |x| :: x[i] != '.';
    assert forall i | 0 <= i < |y| :: y[i] != '/';
    var f := x + "." + y;
    assert f == "BB65-RCC.brass.annot.bedpe";
    SampleOfEntry(dir, f);
    BeforeFirstOfPieces(x, '.', y);
  }
}
