/** GeCKOv2 (Achilles) sgRNA library curation: binning of the genomic
    distance between the cut sites of one sgRNA, detection of sgRNAs that
    cut at more than one site (off-targets), and the library table with
    off-targets and non-targeting guides optionally removed. */
module GeckoV2 {
  import opened Wrappers
  import opened Text
  import opened Tables

  // ---------------------------------------------------------------------------
  // Distance bins

  /** The seven labels bin_bkdist can give. */
  const DistanceBins: seq<string> :=
    ["diff. chr.", "0", "1-10 kb", "10-100 kb", "0.1-1 Mb", "1-10 Mb", ">10 Mb"]

  /** The label of a distance between cut sites (-1 meaning "on different
      chromosomes"). The bounds 10e3, 100e3, 1e6 and 10e6 are compared with
      integer distances and are written here as integers. Every bound is
      excluded from both intervals around it, so the distances 1, 10000,
      100000, 1000000 and 10000000 all fall through to '>10 Mb'. */
  function BinBkdist(distance: int): (bin: string)
    ensures bin in DistanceBins
    ensures bin == "diff. chr." <==> distance == -1
    ensures bin == "0" <==> distance == 0
    ensures bin == "1-10 kb" <==> 1 < distance < 10000
    ensures bin == "10-100 kb" <==> 10000 < distance < 100000
    ensures bin == "0.1-1 Mb" <==> 100000 < distance < 1000000
    ensures bin == "1-10 Mb" <==> 1000000 < distance < 10000000
  {
    if distance == -1 then "diff. chr."
    else if distance == 0 then "0"
    else if 1 < distance < 10000 then "1-10 kb"
    else if 10000 < distance < 100000 then "10-100 kb"
    else if 100000 < distance < 1000000 then "0.1-1 Mb"
    else if 1000000 < distance < 10000000 then "1-10 Mb"
    else ">10 Mb"
  }

  /** '>10 Mb' is the label of every distance outside the six other cases:
      the interval bounds themselves, and negatives other than -1. */
  lemma BinBkdistOtherwise(distance: int)
    ensures BinBkdist(distance) == ">10 Mb" <==>
      (distance < -1 || distance == 1 || distance == 10000 || distance == 100000 ||
       distance == 1000000 || distance >= 10000000)
  {
  }

  // ---------------------------------------------------------------------------
  // The sgRNA mappings table

  /** One row of the sgRNA mappings file. `guide` reads "<sgRNA>_<gene>..."; the
      chromosome, position and strand are missing for a non-targeting guide. */
  datatype Mapping = Mapping(
    guide: string,
    chromosome: Option<string>,
    pos: Option<int>,
    strand: Option<string>,
    pam: string)

  /** The row survives `dropna(subset=['Chromosome', 'Pos', 'Strand'])`. */
  predicate Targeted(m: Mapping)
  {
    m.chromosome.Some? && m.pos.Some? && m.strand.Some?
  }

  /** `Guide.split('_')[0]`. */
  function SgrnaOf(guide: string): string
  {
    BeforeFirst(guide, '_')
  }

  /** `Guide.split('_')[1]`, which raises IndexError (None) when the guide has no '_'. */
  function GeneOf(guide: string): (gene: Option<string>)
    ensures gene.None? <==> '_' !in guide
    ensures gene.Some? ==> '_' !in gene.value
  {
    var pieces := Split(guide, '_');
    var k := FirstIndex(guide, '_');
    assert |pieces| >= 2 <==> k < |guide|;
    if |pieces| >= 2 then
      assert guide[k] == '_';
      Some(pieces[1])
    else
      None
  }

  /** A guide written "<sgRNA>_<gene>_..." (pieces without '_') yields back
      its first piece as sgRNA and its second as gene. */
  lemma GuideFields(pieces: seq<string>)
    requires |pieces| >= 2
    requires forall k | 0 <= k < |pieces| :: '_' !in pieces[k]
    ensures SgrnaOf(Join(pieces, '_')) == pieces[0]
    ensures GeneOf(Join(pieces, '_')) == Some(pieces[1])
  {
    SplitJoin(pieces, '_');
  }

  /** `end = start + len(sgrna) + len(PAM)`. */
  function EndOf(start: int, sgrna: string, pam: string): int
  {
    start + |sgrna| + |pam|
  }

  /** The row is a mapping of sgRNA `s` that survives the dropna. */
  predicate OfSgrna(m: Mapping, s: string)
  {
    Targeted(m) && SgrnaOf(m.guide) == s
  }

  /** The cut id `chr + '_' + str(start)`; with an integer start it is injective, so a pair. */
  function Site(m: Mapping): (string, int)
    requires Targeted(m)
  {
    (m.chromosome.value, m.pos.value)
  }

  /** The sgRNAs of the mapped rows. */
  function Sgrnas(lib: seq<Mapping>): set<string>
  {
    set m | m in lib && Targeted(m) :: SgrnaOf(m.guide)
  }

  /** The distinct cut sites of sgRNA `s`. */
  function Cuts(lib: seq<Mapping>, s: string): set<(string, int)>
  {
    set m | m in lib && OfSgrna(m, s) :: Site(m)
  }

  /** The distinct chromosomes sgRNA `s` maps to. */
  function Chromosomes(lib: seq<Mapping>, s: string): set<string>
  {
    set m | m in lib && OfSgrna(m, s) :: m.chromosome.value
  }

  /** The distinct genes named by the guides of sgRNA `s`. */
  function Genes(lib: seq<Mapping>, s: string): set<string>
  {
    set m | m in lib && OfSgrna(m, s) && GeneOf(m.guide).Some? :: GeneOf(m.guide).value
  }

  /** The start positions of sgRNA `s`, one per mapped row. */
  function Starts(lib: seq<Mapping>, s: string): (r: seq<int>)
    ensures forall x :: x in r <==> exists m | m in lib :: OfSgrna(m, s) && m.pos.value == x
  {
    if lib == [] then []
    else
      assert forall m :: m in lib <==> m == lib[0] || m in lib[1..];
      (if OfSgrna(lib[0], s) then [lib[0].pos.value] else []) + Starts(lib[1..], s)
  }

  function Least(xs: seq<int>): (m: int)
    requires |xs| > 0
    ensures m in xs && forall x | x in xs :: m <= x
  {
    if |xs| == 1 then xs[0]
    else
      assert forall x :: x in xs <==> x == xs[0] || x in xs[1..];
      var t := Least(xs[1..]);
      if xs[0] <= t then xs[0] else t
  }

  function Greatest(xs: seq<int>): (m: int)
    requires |xs| > 0
    ensures m in xs && forall x | x in xs :: x <= m
  {
    if |xs| == 1 then xs[0]
    else
      assert forall x :: x in xs <==> x == xs[0] || x in xs[1..];
      var t := Greatest(xs[1..]);
      if xs[0] >= t then xs[0] else t
  }

  // ---------------------------------------------------------------------------
  // Off-target sgRNAs

  /** One row of the lib_off_targets table. `genes` is the set the source
      joins with ';' (in an unspecified order); `ngenes` counts its members. */
  datatype OffTarget = OffTarget(
    ncuts: nat,
    nchrs: nat,
    genes: set<string>,
    ngenes: nat,
    distance: int,
    distanceBin: string)

  /** The summary of sgRNA `s`: its numbers of cut sites, chromosomes and
      genes, and the spread of its start positions when it stays on one chromosome. */
  function Summary(lib: seq<Mapping>, s: string): (t: OffTarget)
    requires s in Sgrnas(lib)
    ensures t.ncuts >= 1 && t.nchrs >= 1 && t.ngenes == |t.genes|
    ensures t.distance >= 0 <==> t.nchrs == 1
    ensures t.distanceBin == BinBkdist(t.distance)
  {
    var m :| m in lib && OfSgrna(m, s);
    assert Site(m) in Cuts(lib, s) && m.chromosome.value in Chromosomes(lib, s);
    var distance := Distance(lib, s);
    OffTarget(|Cuts(lib, s)|, |Chromosomes(lib, s)|, Genes(lib, s), |Genes(lib, s)|, distance, BinBkdist(distance))
  }

  /** `amax - amin` of the starts when the sgRNA stays on one chromosome, else -1. */
  function Distance(lib: seq<Mapping>, s: string): (d: int)
    requires s in Sgrnas(lib)
    ensures d >= 0 <==> |Chromosomes(lib, s)| == 1
    ensures d < 0 ==> d == -1
  {
    StartsOfMapped(lib, s);
    var starts := Starts(lib, s);
    if |Chromosomes(lib, s)| == 1 then Greatest(starts) - Least(starts) else -1
  }

  /** A mapped sgRNA has at least one start position. */
  lemma StartsOfMapped(lib: seq<Mapping>, s: string)
    requires s in Sgrnas(lib)
    ensures |Starts(lib, s)| > 0
  {
    var m :| m in lib && Targeted(m) && SgrnaOf(m.guide) == s;
    assert m.pos.value in Starts(lib, s);
  }

  /** Some mapped row's guide has no gene part, so lib_off_targets raises IndexError. */
  predicate HasGuideWithoutGene(rows: seq<Mapping>)
  {
    exists m | m in rows :: Targeted(m) && '_' !in m.guide
  }

  /** lib_off_targets: the sgRNAs with more than one distinct cut site among
      the mapped rows, keyed by sgRNA, each with its summary. */
  function LibOffTargets(lib: seq<Mapping>): (r: Option<map<string, OffTarget>>)
    ensures r.None? <==> HasGuideWithoutGene(lib)
    ensures r.Some? ==> forall s :: s in r.value <==> |Cuts(lib, s)| > 1
    ensures r.Some? ==> forall s | s in r.value :: s in Sgrnas(lib) && r.value[s] == Summary(lib, s)
  {
    if exists m | m in lib :: Targeted(m) && GeneOf(m.guide).None? then None
    else
      assert forall s | |Cuts(lib, s)| > 1 :: s in Sgrnas(lib) by {
        forall s | |Cuts(lib, s)| > 1 ensures s in Sgrnas(lib) {
          var c :| c in Cuts(lib, s);
        }
      }
      Some(map s | s in Sgrnas(lib) && |Cuts(lib, s)| > 1 :: Summary(lib, s))
  }

  /** Two mapped rows of sgRNA `s` at different cut sites. */
  ghost predicate CutsAtTwoSites(lib: seq<Mapping>, s: string)
  {
    exists i, j | 0 <= i < |lib| && 0 <= j < |lib| ::
      OfSgrna(lib[i], s) && OfSgrna(lib[j], s) && Site(lib[i]) != Site(lib[j])
  }

  /** An sgRNA is an off-target exactly when two of its mapped rows cut at
      different sites. */
  lemma OffTargetIffTwoSites(lib: seq<Mapping>, s: string)
    ensures |Cuts(lib, s)| > 1 <==> CutsAtTwoSites(lib, s)
  {
    var cuts := Cuts(lib, s);
    if |cuts| > 1 {
      var a :| a in cuts;
      assert |cuts - {a}| == |cuts| - 1;
      var b :| b in cuts - {a};
      var ma :| ma in lib && OfSgrna(ma, s) && Site(ma) == a;
      var mb :| mb in lib && OfSgrna(mb, s) && Site(mb) == b;
      var i :| 0 <= i < |lib| && lib[i] == ma;
      var j :| 0 <= j < |lib| && lib[j] == mb;
      assert OfSgrna(lib[i], s) && OfSgrna(lib[j], s) && Site(lib[i]) != Site(lib[j]);
    }
    if CutsAtTwoSites(lib, s) {
      var i, j :| 0 <= i < |lib| && 0 <= j < |lib| &&
        OfSgrna(lib[i], s) && OfSgrna(lib[j], s) && Site(lib[i]) != Site(lib[j]);
      assert Site(lib[i]) in cuts;
      assert Site(lib[j]) in cuts - {Site(lib[i])};
      assert |cuts - {Site(lib[i])}| == |cuts| - 1;
    }
  }

  /** A one-element set has no other member. */
  lemma SingletonMembers<T>(xs: set<T>, a: T, b: T)
    requires |xs| == 1 && a in xs && b in xs
    ensures a == b
  {
    assert |xs - {a}| == 0;
    assert b in xs - {a} || b == a;
  }

  /** An sgRNA with several cut sites maps to at least one chromosome and,
      when every guide names a gene, to at least one gene. */
  lemma SummaryCounts(lib: seq<Mapping>, s: string)
    requires !HasGuideWithoutGene(lib)
    requires s in Sgrnas(lib) && |Cuts(lib, s)| > 1
    ensures Summary(lib, s).ncuts > 1 && Summary(lib, s).nchrs >= 1 && Summary(lib, s).ngenes >= 1
  {
    var m :| m in lib && Targeted(m) && SgrnaOf(m.guide) == s;
    assert m.chromosome.value in Chromosomes(lib, s);
    assert '_' in m.guide;
    assert GeneOf(m.guide).value in Genes(lib, s);
  }

  /** Two distinct cut sites on one chromosome have distinct starts, so the
      spread of the starts of such an sgRNA is at least 1. */
  lemma SpreadOnOneChromosome(lib: seq<Mapping>, s: string)
    requires |Chromosomes(lib, s)| == 1 && |Cuts(lib, s)| > 1
    ensures |Starts(lib, s)| > 0
    ensures Greatest(Starts(lib, s)) - Least(Starts(lib, s)) >= 1
  {
    var chrs := Chromosomes(lib, s);
    OffTargetIffTwoSites(lib, s);
    var i, j :| 0 <= i < |lib| && 0 <= j < |lib| &&
      OfSgrna(lib[i], s) && OfSgrna(lib[j], s) && Site(lib[i]) != Site(lib[j]);
    var a, b := lib[i], lib[j];
    assert a in lib && b in lib;
    assert a.chromosome.value in chrs && b.chromosome.value in chrs;
    SingletonMembers(chrs, a.chromosome.value, b.chromosome.value);
    assert a.pos.value != b.pos.value;
    var starts := Starts(lib, s);
    assert a.pos.value in starts && b.pos.value in starts;
  }

  /** On a single chromosome the distance of an sgRNA with several cut sites
      is at least 1; on several chromosomes it is -1. */
  lemma SummaryDistance(lib: seq<Mapping>, s: string)
    requires s in Sgrnas(lib) && |Cuts(lib, s)| > 1
    ensures Summary(lib, s).nchrs == 1 ==> Summary(lib, s).distance >= 1
    ensures Summary(lib, s).nchrs != 1 ==> Summary(lib, s).distance == -1
  {
    if |Chromosomes(lib, s)| == 1 {
      SpreadOnOneChromosome(lib, s);
    }
  }

  /** The summary of an sgRNA with several cut sites: its bin is never '0',
      and it is 'diff. chr.' exactly when the sgRNA maps to several chromosomes. */
  lemma SummaryOfOffTarget(lib: seq<Mapping>, s: string)
    requires !HasGuideWithoutGene(lib)
    requires s in Sgrnas(lib) && |Cuts(lib, s)| > 1
    ensures var t := Summary(lib, s);
      && t.ncuts > 1 && t.nchrs >= 1 && t.ngenes >= 1
      && (t.nchrs == 1 ==> t.distance >= 1 && t.distanceBin != "diff. chr.")
      && (t.nchrs > 1 ==> t.distance == -1 && t.distanceBin == "diff. chr.")
      && t.distanceBin != "0"
      && t.distanceBin == BinBkdist(t.distance)
  {
    SummaryCounts(lib, s);
    SummaryDistance(lib, s);
  }

  /** The same facts, read off the lib_off_targets table. */
  lemma OffTargetDistances(lib: seq<Mapping>, s: string)
    requires !HasGuideWithoutGene(lib)
    requires s in LibOffTargets(lib).value
    ensures var t := LibOffTargets(lib).value[s];
      && t.ncuts > 1 && t.nchrs >= 1 && t.ngenes >= 1
      && (t.nchrs == 1 ==> t.distance >= 1 && t.distanceBin != "diff. chr.")
      && (t.nchrs > 1 ==> t.distance == -1 && t.distanceBin == "diff. chr.")
      && t.distanceBin != "0"
      && t.distanceBin == BinBkdist(t.distance)
  {
    SummaryOfOffTarget(lib, s);
  }

  /** On one chromosome, `distance` is the largest gap between the starts of
      two mapped rows of the sgRNA: no gap exceeds it and two rows attain it. */
  lemma SummarySpread(lib: seq<Mapping>, s: string)
    requires s in Sgrnas(lib)
    requires |Chromosomes(lib, s)| == 1
    ensures forall a, b | a in lib && b in lib && OfSgrna(a, s) && OfSgrna(b, s) ::
      b.pos.value - a.pos.value <= Distance(lib, s)
    ensures exists a, b | a in lib && b in lib && OfSgrna(a, s) && OfSgrna(b, s) ::
      b.pos.value - a.pos.value == Distance(lib, s)
  {
    var lo, hi := StartsSpread(lib, s);
    assert Distance(lib, s) == hi.pos.value - lo.pos.value;
  }

  /** The rows holding the least and the greatest start of an sgRNA; every
      mapped row of the sgRNA starts between them. */
  lemma StartsSpread(lib: seq<Mapping>, s: string) returns (lo: Mapping, hi: Mapping)
    requires s in Sgrnas(lib)
    ensures |Starts(lib, s)| > 0
    ensures lo in lib && hi in lib && OfSgrna(lo, s) && OfSgrna(hi, s)
    ensures lo.pos.value == Least(Starts(lib, s)) && hi.pos.value == Greatest(Starts(lib, s))
    ensures forall m | m in lib && OfSgrna(m, s) :: lo.pos.value <= m.pos.value <= hi.pos.value
  {
    StartsOfMapped(lib, s);
    var starts := Starts(lib, s);
    lo :| lo in lib && OfSgrna(lo, s) && lo.pos.value == Least(starts);
    hi :| hi in lib && OfSgrna(hi, s) && hi.pos.value == Greatest(starts);
    forall m | m in lib && OfSgrna(m, s) ensures lo.pos.value <= m.pos.value <= hi.pos.value {
      assert m.pos.value in starts;
      assert Least(starts) <= m.pos.value <= Greatest(starts);
    }
  }

  // ---------------------------------------------------------------------------
  // The curated library

  /** The exceptions get_crispr_library can raise: IndexError from
      `Guide.split('_')[1]`, and ValueError from `astype(int)` on a missing position. */
  datatype LibError = GuideWithoutGene | PositionMissing

  /** A row of the curated library: the mapping row, with its sgRNA, gene,
      integer start and end. */
  datatype LibraryRow = LibraryRow(mapping: Mapping, sgrna: string, gene: string, start: int, end: int)

  /** The sgRNAs lib_off_targets reports (none when it raises). */
  function OffTargetSgrnas(lib: seq<Mapping>): set<string>
  {
    match LibOffTargets(lib)
    case Some(off) => off.Keys
    case None => {}
  }

  /** The mask `~lib['sgrna'].isin(off_targets.index)`. */
  function NotOffTarget(off: set<string>): Mapping -> bool
  {
    (m: Mapping) => SgrnaOf(m.guide) !in off
  }

  /** The two filtering steps of get_crispr_library, as the source runs them. */
  function Curated(lib: seq<Mapping>, dropNonTargeting: bool, removeOffTargets: bool): seq<Mapping>
  {
    var placed := if dropNonTargeting then Select(lib, Targeted) else lib;
    if removeOffTargets then Select(placed, NotOffTarget(OffTargetSgrnas(lib))) else placed
  }

  /** Which mappings get_crispr_library keeps, as one condition on a row. */
  function KeepRule(dropNonTargeting: bool, removeOffTargets: bool, off: set<string>): Mapping -> bool
  {
    (m: Mapping) => (dropNonTargeting ==> Targeted(m)) && (removeOffTargets ==> SgrnaOf(m.guide) !in off)
  }

  /** The mappings get_crispr_library keeps, in file order. */
  function KeptMappings(lib: seq<Mapping>, dropNonTargeting: bool, removeOffTargets: bool): seq<Mapping>
  {
    Select(lib, KeepRule(dropNonTargeting, removeOffTargets, OffTargetSgrnas(lib)))
  }

  /** The two filtering steps keep exactly the rows the single condition accepts, in order. */
  lemma CuratedIsKept(lib: seq<Mapping>, dropNonTargeting: bool, removeOffTargets: bool)
    ensures Curated(lib, dropNonTargeting, removeOffTargets) == KeptMappings(lib, dropNonTargeting, removeOffTargets)
  {
    var off := OffTargetSgrnas(lib);
    var rule := KeepRule(dropNonTargeting, removeOffTargets, off);
    if dropNonTargeting && removeOffTargets {
      SelectSelect(lib, Targeted, NotOffTarget(off), rule);
    } else if dropNonTargeting {
      SelectSame(lib, Targeted, rule);
    } else if removeOffTargets {
      SelectSame(lib, NotOffTarget(off), rule);
    } else {
      SelectAll(lib, rule);
    }
  }

  /** A library row agrees with its mapping: sgRNA and gene parsed from the
      guide, start the mapped position, end the start plus the lengths of the
      sgRNA and the PAM. */
  predicate WellFormed(row: LibraryRow)
  {
    && row.sgrna == SgrnaOf(row.mapping.guide)
    && GeneOf(row.mapping.guide) == Some(row.gene)
    && row.mapping.pos == Some(row.start)
    && row.end == row.start + |row.sgrna| + |row.mapping.pam|
  }

  /** The library row of a mapping whose guide names a gene and that has a position. */
  function Row(m: Mapping): (row: LibraryRow)
    requires m.pos.Some? && GeneOf(m.guide).Some?
    ensures row.mapping == m && WellFormed(row)
  {
    var sgrna := SgrnaOf(m.guide);
    LibraryRow(m, sgrna, GeneOf(m.guide).value, m.pos.value, EndOf(m.pos.value, sgrna, m.pam))
  }

  /** The mapping rows behind a library table. */
  function Mappings(rows: seq<LibraryRow>): seq<Mapping>
  {
    seq(|rows|, i requires 0 <= i < |rows| => rows[i].mapping)
  }

  /** get_crispr_library: parse sgRNA and gene of every guide, optionally drop
      unmapped guides, optionally drop off-target sgRNAs, then compute each
      row's integer start and end. */
  function GetCrisprLibrary(lib: seq<Mapping>, dropNonTargeting: bool, removeOffTargets: bool)
    : (r: Result<seq<LibraryRow>, LibError>)
    ensures r == Failure(GuideWithoutGene) <==> exists m | m in lib :: '_' !in m.guide
    ensures r == Failure(PositionMissing) <==>
      (forall m | m in lib :: '_' in m.guide) &&
      exists m | m in KeptMappings(lib, dropNonTargeting, removeOffTargets) :: m.pos.None?
    ensures r.Success? ==> Mappings(r.value) == KeptMappings(lib, dropNonTargeting, removeOffTargets)
    ensures r.Success? ==> forall row | row in r.value :: WellFormed(row)
  {
    if exists m | m in lib :: '_' !in m.guide then Failure(GuideWithoutGene)
    else
      var kept := Curated(lib, dropNonTargeting, removeOffTargets);
      CuratedIsKept(lib, dropNonTargeting, removeOffTargets);
      if exists m | m in kept :: m.pos.None? then Failure(PositionMissing)
      else Success(Rows(kept))
  }

  /** The library rows of mappings that all name a gene and have a position. */
  function Rows(kept: seq<Mapping>): (rows: seq<LibraryRow>)
    requires forall m | m in kept :: m.pos.Some? && GeneOf(m.guide).Some?
    ensures Mappings(rows) == kept
    ensures forall row | row in rows :: WellFormed(row)
  {
    var rows := seq(|kept|, i requires 0 <= i < |kept| => Row(kept[i]));
    assert Mappings(rows) == kept;
    rows
  }

  /** Every row of the curated library comes from a mapping of the file that
      passes the requested filters. */
  lemma GetCrisprLibraryRows(lib: seq<Mapping>, dropNonTargeting: bool, removeOffTargets: bool, row: LibraryRow)
    requires GetCrisprLibrary(lib, dropNonTargeting, removeOffTargets).Success?
    requires row in GetCrisprLibrary(lib, dropNonTargeting, removeOffTargets).value
    ensures row.mapping in lib
    ensures dropNonTargeting ==> Targeted(row.mapping)
    ensures removeOffTargets ==> row.sgrna !in OffTargetSgrnas(lib)
  {
    var rows := GetCrisprLibrary(lib, dropNonTargeting, removeOffTargets).value;
    var i :| 0 <= i < |rows| && rows[i] == row;
    assert Mappings(rows)[i] == row.mapping;
    assert row.mapping in KeptMappings(lib, dropNonTargeting, removeOffTargets);
  }

  /** With both flags off, every row is kept, in order, provided every guide
      names a gene and every row has a position. */
  lemma GetCrisprLibraryKeepsEverything(lib: seq<Mapping>)
    requires forall m | m in lib :: '_' in m.guide && m.pos.Some?
    ensures GetCrisprLibrary(lib, false, false).Success?
    ensures Mappings(GetCrisprLibrary(lib, false, false).value) == lib
  {
    SelectAll(lib, KeepRule(false, false, OffTargetSgrnas(lib)));
  }

  /** With remove_off_targets, a mapping is kept exactly when its sgRNA is not
      an off-target (and, with drop_non_targeting, it is mapped). */
  lemma GetCrisprLibraryMembership(lib: seq<Mapping>, dropNonTargeting: bool, m: Mapping)
    requires GetCrisprLibrary(lib, dropNonTargeting, true).Success?
    requires m in lib
    ensures m in Mappings(GetCrisprLibrary(lib, dropNonTargeting, true).value) <==>
      (dropNonTargeting ==> Targeted(m)) && SgrnaOf(m.guide) !in OffTargetSgrnas(lib)
  {
  }
}
