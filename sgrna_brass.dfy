/** The BRASS assembly loop of the sgRNA script: every '.brass.annot.bedpe'
    entry of the BRASS directory is imported with threshold -2 and the
    assembly filter, relabelled with the sample its file name gives, and
    the per-file tables are concatenated. */
module SgrnaBrass {
  import opened Wrappers
  import opened Text
  import opened Tables
  import opened Bedpe

  /** The distance threshold the script passes to import_brass_bedpe. */
  const Threshold := -2

  /** `assign(sample=s)`. */
  function WithSample(s: string): Call -> Call
  {
    (c: Call) => c.(sample := s)
  }

  /** The table one BRASS file contributes: its imported calls, every one
      labelled with the sample of the file name. `read` stands for parsing
      the file at a path. */
  function Load(dir: string, read: string -> seq<Call>): (load: string -> seq<Call>)
    ensures forall f :: |load(f)| <= |read(PathOf(dir, f))|
    ensures forall f, c | c in load(f) :: c.sample == SampleOf(PathOf(dir, f)) && c.bkdist > Threshold && Assembled(c)
  {
    (f: string) => Map(ImportBrassBedpe(read(PathOf(dir, f)), Threshold, true), WithSample(SampleOf(PathOf(dir, f))))
  }

  /** The list `bed_dfs` after the loop has seen `entries`. */
  function Parts(dir: string, entries: seq<string>, read: string -> seq<Call>): seq<seq<Call>>
  {
    if entries == [] then []
    else
      var init := Parts(dir, entries[..|entries| - 1], read);
      var f := entries[|entries| - 1];
      if IsBrassFile(f) then init + [Load(dir, read)(f)] else init
  }

  /** The loop of the script over the directory listing `entries`. */
  method AssembleBrass(dir: string, entries: seq<string>, read: string -> seq<Call>)
    returns (r: Option<seq<Call>>)
    ensures r == Concatenated(Parts(dir, entries, read))
  {
    var bedDfs: seq<seq<Call>> := [];
    var i := 0;
    while i < |entries|
      invariant 0 <= i <= |entries|
      invariant bedDfs == Parts(dir, entries[..i], read)
    {
      assert entries[..i + 1][..i] == entries[..i];
      var f := entries[i];
      if IsBrassFile(f) {
        var path := PathOf(dir, f);
        var bedDf := ImportBrassBedpe(read(path), Threshold, true);
        bedDf := Map(bedDf, WithSample(SampleOf(path)));
        bedDfs := bedDfs + [bedDf];
      }
      i := i + 1;
    }
    assert entries[..i] == entries;
    if bedDfs == [] {
      r := None;
    } else {
      r := Some(Concat(bedDfs));
    }
  }

  /** Only the BRASS entries are read, one table each, in listing order. */
  lemma {:induction false} PartsOfBrassFiles(dir: string, entries: seq<string>, read: string -> seq<Call>)
    ensures Parts(dir, entries, read) == Map(Select(entries, IsBrassFile), Load(dir, read))
  {
    if entries != [] {
      var init := entries[..|entries| - 1];
      PartsOfBrassFiles(dir, init, read);
    }
  }

  /** The script fails at the concatenation exactly when the directory holds
      no BRASS file. */
  lemma AssembleFailsWithoutFiles(dir: string, entries: seq<string>, read: string -> seq<Call>)
    ensures Concatenated(Parts(dir, entries, read)).None? <==> forall f | f in entries :: !IsBrassFile(f)
  {
    PartsOfBrassFiles(dir, entries, read);
    var sel := Select(entries, IsBrassFile);
    if sel != [] {
      assert sel[0] in sel;
    }
  }

  /** Every assembled call passed the import filters (bkdist > -2, assembled)
      and carries the sample named by a BRASS entry: the entry's text before
      its first '.'. */
  lemma AssembledCalls(dir: string, entries: seq<string>, read: string -> seq<Call>, c: Call)
    requires forall f | f in entries :: '/' !in f
    requires Concatenated(Parts(dir, entries, read)).Some?
    requires c in Concatenated(Parts(dir, entries, read)).value
    ensures c.bkdist > Threshold && Assembled(c)
    ensures exists f | f in entries && IsBrassFile(f) :: c.sample == BeforeFirst(f, '.')
  {
    var parts := Parts(dir, entries, read);
    PartsOfBrassFiles(dir, entries, read);
    var sel := Select(entries, IsBrassFile);
    var k :| 0 <= k < |parts| && c in parts[k];
    var f := sel[k];
    assert f in sel;
    var path := PathOf(dir, f);
    var imported := ImportBrassBedpe(read(path), Threshold, true);
    assert parts[k] == Map(imported, WithSample(SampleOf(path)));
    MapMembership(imported, WithSample(SampleOf(path)), c);
    var x :| x in imported && c == WithSample(SampleOf(path))(x);
    SampleOfEntry(dir, f);
  }

  /** `set(columns).intersection(bed_dfs['sample'])`: the fold-change columns
      that name a sample of the assembled table. */
  function SampleOverlap(columns: seq<string>, calls: seq<Call>): (r: set<string>)
    ensures forall s :: s in r <==> s in columns && exists c | c in calls :: c.sample == s
  {
    set s | s in columns && exists c | c in calls :: c.sample == s
  }
}
