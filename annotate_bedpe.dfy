/** The gene annotation of BRASS calls: every BRASS file with at least one
    call left after the import is written as a BED file, mapped onto the
    gene annotation, sorted by the number of overlapping calls, labelled
    with its sample, and the tables are concatenated; genes without a call
    are dropped. Also the class labels of the ROC curves and the per-sample
    score table. */
module AnnotateBedpe {
  import opened Wrappers
  import opened Text
  import opened Tables
  import opened Bedpe

  /** One row of the gene annotation: the GFF gene (`feature` and the other
      GFF columns), the ','-joined classes of the calls overlapping it
      ('.' for none) and their number. */
  datatype GeneHit = GeneHit(feature: string, gff: seq<string>, collapse: string, count: int)

  /** A gene annotation row labelled with the sample of its file. */
  datatype SampleHit = SampleHit(hit: GeneHit, sample: string)

  // ---------------------------------------------------------------------------
  // sort_values('count', ascending=False)

  predicate SortedByCountDesc(hits: seq<GeneHit>)
  {
    forall i, j | 0 <= i < j < |hits| :: hits[i].count >= hits[j].count
  }

  /** A row with the largest count in front of a sorted table keeps it sorted. */
  lemma SortedCons(h: GeneHit, hits: seq<GeneHit>)
    requires SortedByCountDesc(hits)
    requires forall x | x in hits :: x.count <= h.count
    ensures SortedByCountDesc([h] + hits)
  {
    var r := [h] + hits;
    forall i, j | 0 <= i < j < |r| ensures r[i].count >= r[j].count {
      assert r[j] == hits[j - 1];
      if i > 0 {
        assert r[i] == hits[i - 1];
      } else {
        assert hits[j - 1] in hits;
      }
    }
  }

  /** Puts `h` in front of the first row with a smaller count. */
  function Insert(h: GeneHit, hits: seq<GeneHit>): (r: seq<GeneHit>)
    requires SortedByCountDesc(hits)
    ensures SortedByCountDesc(r)
    ensures multiset(r) == multiset(hits) + multiset{h}
  {
    if hits == [] then [h]
    else if h.count >= hits[0].count then
      SortedCons(h, hits);
      [h] + hits
    else
      var rest := Insert(h, hits[1..]);
      InsertBehindHead(h, hits, rest);
      [hits[0]] + rest
  }

  /** The head of a sorted table stays in front when a smaller row goes into its tail. */
  lemma InsertBehindHead(h: GeneHit, hits: seq<GeneHit>, rest: seq<GeneHit>)
    requires SortedByCountDesc(hits) && hits != [] && h.count < hits[0].count
    requires SortedByCountDesc(rest) && multiset(rest) == multiset(hits[1..]) + multiset{h}
    ensures SortedByCountDesc([hits[0]] + rest)
    ensures multiset([hits[0]] + rest) == multiset(hits) + multiset{h}
  {
    assert hits == [hits[0]] + hits[1..];
    forall x | x in rest ensures x.count <= hits[0].count {
      assert x in multiset(rest);
      assert x == h || x in hits[1..];
    }
    SortedCons(hits[0], rest);
  }

  /** The rows of `hits` ordered by decreasing count. */
  function SortByCount(hits: seq<GeneHit>): (r: seq<GeneHit>)
    ensures SortedByCountDesc(r)
    ensures multiset(r) == multiset(hits)
  {
    if hits == [] then []
    else
      assert hits == [hits[0]] + hits[1..];
      Insert(hits[0], SortByCount(hits[1..]))
  }

  // ---------------------------------------------------------------------------
  // annotate_brass_bedpe

  /** `assign(sample=s)`. */
  function Labelled(s: string): GeneHit -> SampleHit
  {
    (h: GeneHit) => SampleHit(h, s)
  }

  /** The filter `collapse != '.'`: the gene overlaps at least one call. */
  function HasCall(h: SampleHit): bool
  {
    h.hit.collapse != "."
  }

  /** The BED rows of the file behind directory entry `f`. `read` stands for
      parsing the file at a path. */
  function BedOf(dir: string, f: string, read: string -> seq<Call>, threshold: int, splitreads: bool): seq<BedRow>
  {
    ImportBrassBed(read(PathOf(dir, f)), threshold, splitreads)
  }

  /** The entries the loop annotates: BRASS files whose import is not empty. */
  function Annotated(dir: string, read: string -> seq<Call>, threshold: int, splitreads: bool): string -> bool
  {
    (f: string) => IsBrassFile(f) && |BedOf(dir, f, read, threshold, splitreads)| > 0
  }

  /** The table an annotated entry contributes: its BED rows mapped onto the
      genes by `annotate` (the gene mapping, a foreign computation), sorted
      by count, labelled with the sample of the file. */
  function AnnotTable(dir: string, read: string -> seq<Call>, threshold: int, splitreads: bool,
                      annotate: seq<BedRow> -> seq<GeneHit>): string -> seq<SampleHit>
  {
    (f: string) =>
      Map(SortByCount(annotate(BedOf(dir, f, read, threshold, splitreads))), Labelled(SampleOf(PathOf(dir, f))))
  }

  /** The two files written for an annotated entry: the BED file and the annotation table. */
  function Outputs(dir: string): string -> seq<string>
  {
    (f: string) => [BedFile(dir, PathOf(dir, f)), AnnotFile(dir, PathOf(dir, f))]
  }

  /** The list `bed_dfs` after the loop has seen `entries`. */
  function AnnotParts(dir: string, entries: seq<string>, read: string -> seq<Call>, threshold: int, splitreads: bool,
                      annotate: seq<BedRow> -> seq<GeneHit>): seq<seq<SampleHit>>
  {
    if entries == [] then []
    else
      var init := AnnotParts(dir, entries[..|entries| - 1], read, threshold, splitreads, annotate);
      var f := entries[|entries| - 1];
      if Annotated(dir, read, threshold, splitreads)(f) then init + [AnnotTable(dir, read, threshold, splitreads, annotate)(f)]
      else init
  }

  /** The files the loop has written after seeing `entries`, in order. */
  function Written(dir: string, entries: seq<string>, read: string -> seq<Call>, threshold: int, splitreads: bool): seq<string>
  {
    if entries == [] then []
    else
      var init := Written(dir, entries[..|entries| - 1], read, threshold, splitreads);
      var f := entries[|entries| - 1];
      if Annotated(dir, read, threshold, splitreads)(f) then init + Outputs(dir)(f) else init
  }

  /** The concatenation (ValueError, None, when no file was annotated) and
      the `collapse != '.'` filter. */
  function Combined(parts: seq<seq<SampleHit>>): (r: Option<seq<SampleHit>>)
    ensures r.None? <==> parts == []
    ensures r.Some? ==> forall h | h in r.value :: HasCall(h) && exists k | 0 <= k < |parts| :: h in parts[k]
    ensures r.Some? ==> forall k, h | 0 <= k < |parts| && h in parts[k] && HasCall(h) :: h in r.value
  {
    match Concatenated(parts)
    case None => None
    case Some(rows) => Some(Select(rows, HasCall))
  }

  /** One more entry seen by the loop. */
  lemma LoopStep(dir: string, entries: seq<string>, i: nat, read: string -> seq<Call>, threshold: int, splitreads: bool,
                 annotate: seq<BedRow> -> seq<GeneHit>)
    requires i < |entries|
    ensures AnnotParts(dir, entries[..i + 1], read, threshold, splitreads, annotate) ==
      AnnotParts(dir, entries[..i], read, threshold, splitreads, annotate) +
      (if Annotated(dir, read, threshold, splitreads)(entries[i])
       then [AnnotTable(dir, read, threshold, splitreads, annotate)(entries[i])] else [])
    ensures Written(dir, entries[..i + 1], read, threshold, splitreads) ==
      Written(dir, entries[..i], read, threshold, splitreads) +
      (if Annotated(dir, read, threshold, splitreads)(entries[i]) then Outputs(dir)(entries[i]) else [])
  {
    assert entries[..i + 1][..i] == entries[..i];
  }

  /** annotate_brass_bedpe over the directory listing `entries`; `written`
      lists the files the loop writes. */
  method AnnotateBrassBedpe(dir: string, entries: seq<string>, threshold: int, splitreads: bool,
                            read: string -> seq<Call>, annotate: seq<BedRow> -> seq<GeneHit>)
    returns (r: Option<seq<SampleHit>>, written: seq<string>)
    ensures r == Combined(AnnotParts(dir, entries, read, threshold, splitreads, annotate))
    ensures written == Written(dir, entries, read, threshold, splitreads)
    ensures r.Some? ==> forall h | h in r.value :: h.hit.collapse != "."
  {
    var bedDfs: seq<seq<SampleHit>> := [];
    written := [];
    var i := 0;
    while i < |entries|
      invariant 0 <= i <= |entries|
      invariant bedDfs == AnnotParts(dir, entries[..i], read, threshold, splitreads, annotate)
      invariant written == Written(dir, entries[..i], read, threshold, splitreads)
    {
      LoopStep(dir, entries, i, read, threshold, splitreads, annotate);
      var f := entries[i];
      if IsBrassFile(f) {
        var path := PathOf(dir, f);
        var bedDf := ImportBrassBed(read(path), threshold, splitreads);
        if |bedDf| > 0 {
          written := written + [BedFile(dir, path)];
          var bedAnnotDf := SortByCount(annotate(bedDf));
          written := written + [AnnotFile(dir, path)];
          bedDfs := bedDfs + [Map(bedAnnotDf, Labelled(SampleOf(path)))];
        }
      }
      i := i + 1;
    }
    assert entries[..i] == entries;
    if bedDfs == [] {
      r := None;
    } else {
      r := Some(Select(Concat(bedDfs), HasCall));
    }
  }

  /** Exactly the BRASS entries with a non-empty import are annotated, each
      once, in listing order. */
  lemma {:induction false} AnnotPartsOfAnnotated(dir: string, entries: seq<string>, read: string -> seq<Call>,
                                                 threshold: int, splitreads: bool, annotate: seq<BedRow> -> seq<GeneHit>)
    ensures AnnotParts(dir, entries, read, threshold, splitreads, annotate) ==
      Map(Select(entries, Annotated(dir, read, threshold, splitreads)), AnnotTable(dir, read, threshold, splitreads, annotate))
  {
    if entries != [] {
      AnnotPartsOfAnnotated(dir, entries[..|entries| - 1], read, threshold, splitreads, annotate);
    }
  }

  /** The loop writes two files per annotated entry, '{dir}/{stem}.bed' then
      '{dir}/{stem}.genes.gff.tab', in listing order. */
  lemma {:induction false} WrittenOfAnnotated(dir: string, entries: seq<string>, read: string -> seq<Call>,
                                              threshold: int, splitreads: bool)
    ensures Written(dir, entries, read, threshold, splitreads) ==
      Concat(Map(Select(entries, Annotated(dir, read, threshold, splitreads)), Outputs(dir)))
  {
    if entries != [] {
      WrittenOfAnnotated(dir, entries[..|entries| - 1], read, threshold, splitreads);
    }
  }

  /** The concatenation fails exactly when no BRASS file keeps a call after
      the import filters. */
  lemma AnnotateFailsWhenNothingKept(dir: string, entries: seq<string>, read: string -> seq<Call>,
                                      threshold: int, splitreads: bool, annotate: seq<BedRow> -> seq<GeneHit>)
    ensures Combined(AnnotParts(dir, entries, read, threshold, splitreads, annotate)).None? <==>
      forall f | f in entries && IsBrassFile(f) :: ImportBrassBedpe(read(PathOf(dir, f)), threshold, splitreads) == []
  {
    AnnotPartsOfAnnotated(dir, entries, read, threshold, splitreads, annotate);
    var sel := Select(entries, Annotated(dir, read, threshold, splitreads));
    if sel != [] {
      assert sel[0] in sel;
    }
  }

  /** Every assembled row is a gene with a call, labelled with the sample of
      a BRASS entry (the entry's text before its first '.') whose import is
      not empty, and it is a row of that entry's annotation. */
  lemma AnnotatedRows(dir: string, entries: seq<string>, read: string -> seq<Call>, threshold: int, splitreads: bool,
                      annotate: seq<BedRow> -> seq<GeneHit>, h: SampleHit)
    requires forall f | f in entries :: '/' !in f
    requires Combined(AnnotParts(dir, entries, read, threshold, splitreads, annotate)).Some?
    requires h in Combined(AnnotParts(dir, entries, read, threshold, splitreads, annotate)).value
    ensures h.hit.collapse != "."
    ensures exists f | f in entries && IsBrassFile(f) && |BedOf(dir, f, read, threshold, splitreads)| > 0 ::
      h.sample == BeforeFirst(f, '.') && h.hit in annotate(BedOf(dir, f, read, threshold, splitreads))
  {
    var parts := AnnotParts(dir, entries, read, threshold, splitreads, annotate);
    AnnotPartsOfAnnotated(dir, entries, read, threshold, splitreads, annotate);
    var sel := Select(entries, Annotated(dir, read, threshold, splitreads));
    var k :| 0 <= k < |parts| && h in parts[k];
    var f := sel[k];
    assert f in sel;
    var path := PathOf(dir, f);
    var sorted := SortByCount(annotate(BedOf(dir, f, read, threshold, splitreads)));
    assert parts[k] == Map(sorted, Labelled(SampleOf(path)));
    MapMembership(sorted, Labelled(SampleOf(path)), h);
    var x :| x in sorted && h == Labelled(SampleOf(path))(x);
    assert x in multiset(sorted);
    SampleOfEntry(dir, f);
  }

  // ---------------------------------------------------------------------------
  // ROC labels and per-sample scores

  /** The class order of the plots when none is given. */
  const DefaultOrder: seq<string> := ["deletion", "inversion", "tandem-duplication"]

  /** `order` defaulting to DefaultOrder. */
  function ClassOrder(order: Option<seq<string>>): (r: seq<string>)
    ensures order.Some? ==> r == order.value
    ensures order.None? ==> r == DefaultOrder
  {
    match order
    case Some(o) => o
    case None => DefaultOrder
  }

  /** `int(t in collapse)`: the ROC label of a gene for class `t`. */
  function RocLabel(t: string, collapse: string): (y: int)
    ensures y == 0 || y == 1
    ensures y == 1 <==> Occurs(t, collapse)
  {
    if Contains(collapse, t) then 1 else 0
  }

  /** A gene whose collapsed classes spell `t` somewhere is labelled 1 for `t`. */
  lemma RocLabelOfListed(a: string, t: string, b: string)
    ensures RocLabel(t, a + t + b) == 1
  {
    var s := a + t + b;
    assert s[|a|..|a| + |t|] == t;
    assert OccursAt(t, s, |a|);
  }

  /** A class name longer than the collapsed classes is never found in them. */
  lemma RocLabelOfShort(t: string, collapse: string)
    requires |t| > |collapse|
    ensures RocLabel(t, collapse) == 0
  {
  }

  /** `y_true` for class `t`: one label per row, in order. */
  function RocLabels(rows: seq<SampleHit>, t: string): (ys: seq<int>)
    ensures |ys| == |rows|
    ensures forall i | 0 <= i < |rows| :: ys[i] == 1 <==> Occurs(t, rows[i].hit.collapse)
  {
    Map(rows, (h: SampleHit) => RocLabel(t, h.hit.collapse))
  }

  /** The rows of group `g` without missing values: `query("groupby == g").dropna()`. */
  function GroupRows<T(==)>(rows: seq<T>, group: T -> string, complete: T -> bool, g: string): (r: seq<T>)
    ensures forall x | x in r :: x in rows && group(x) == g && complete(x)
    ensures forall x | x in rows && group(x) == g && complete(x) :: x in r
    ensures |r| == |KeptIndices(rows, InGroup(group, complete, g))|
    ensures forall k | 0 <= k < |r| :: r[k] == rows[KeptIndices(rows, InGroup(group, complete, g))[k]]
  {
    SelectAt(rows, InGroup(group, complete, g));
    Select(rows, InGroup(group, complete, g))
  }

  /** Row `x` belongs to group `g` and has no missing value. */
  function InGroup<T>(group: T -> string, complete: T -> bool, g: string): T -> bool
  {
    (x: T) => group(x) == g && complete(x)
  }

  /** The distinct values of the grouping column. */
  function Groups<T(==)>(rows: seq<T>, group: T -> string): (r: set<string>)
    ensures forall g :: g in r <==> exists x | x in rows :: group(x) == g
  {
    set x | x in rows :: group(x)
  }

  /** The loop of plot_sv_ratios_arocs_per_sample filling `y_aucs`: one score
      per group, computed by `score` (the multilabel ROC AUC, a foreign
      computation) on the group's complete rows. */
  method PerGroupScores<T(==), U>(rows: seq<T>, group: T -> string, complete: T -> bool, score: seq<T> -> U)
    returns (aucs: map<string, U>)
    ensures aucs.Keys == Groups(rows, group)
    ensures forall g | g in aucs :: aucs[g] == score(GroupRows(rows, group, complete, g))
  {
    aucs := map[];
    var remaining := Groups(rows, group);
    while remaining != {}
      invariant remaining <= Groups(rows, group)
      invariant aucs.Keys == Groups(rows, group) - remaining
      invariant forall g | g in aucs :: aucs[g] == score(GroupRows(rows, group, complete, g))
      decreases |remaining|
    {
      var g :| g in remaining;
      aucs := aucs[g := score(GroupRows(rows, group, complete, g))];
      remaining := remaining - {g};
    }
  }
}
