/** The copy-number cell formats both copy-number scripts read: gene-level
    cells "abs,…,loh" (comma-separated, absolute copy number first, LOH
    flag third), integer chromosome numbers with 23 and 24 for X and Y,
    and the 0..9 / 10+ copy-number classes of the box plots. */
module CopyNumber {
  import opened Wrappers
  import opened Text

  // ---------------------------------------------------------------------------
  // Gene-level cells

  /** `int(v.split(',')[0])`: the absolute copy number of a cell. A missing
      cell (NaN has no `split`) and a first field that is not an integer
      both raise, here None. */
  function AbsoluteCopyNumber(cell: Option<string>): (r: Option<int>)
    ensures cell.None? ==> r.None?
    ensures cell.Some? ==> r == ParseInt(Split(cell.value, ',')[0])
  {
    match cell
    case None => None
    case Some(v) => ParseInt(BeforeFirst(v, ','))
  }

  /** `v.split(',')[2]`: the LOH flag of a cell; IndexError (None) when the
      cell has fewer than three fields, AttributeError (None) when it is missing. */
  function LossOfHeterozygosity(cell: Option<string>): (r: Option<string>)
    ensures r.Some? <==> cell.Some? && |Split(cell.value, ',')| >= 3
    ensures r.Some? ==> ',' !in r.value
  {
    match cell
    case None => None
    case Some(v) =>
      var fields := Split(v, ',');
      if |fields| >= 3 then Some(fields[2]) else None
  }

  /** A cell written from its fields: the absolute copy number, the second
      field, the LOH flag and any further fields, joined by ','. */
  function CellText(abs: int, second: string, loh: string, more: seq<string>): string
  {
    Join([DecimalString(abs), second, loh] + more, ',')
  }

  /** `str(n)` never holds a ','. */
  lemma NoCommaInDecimal(n: int)
    ensures ',' !in DecimalString(n)
  {
    var s := DecimalString(n);
    if n < 0 {
      assert s == "-" + Digits(-n);
      forall k | 0 <= k < |s| ensures s[k] != ',' {
        if k > 0 {
          assert s[k] == Digits(-n)[k - 1];
        }
      }
    }
  }

  /** Parsing a well-formed cell gives back its absolute copy number and its LOH flag. */
  lemma ParseCell(abs: int, second: string, loh: string, more: seq<string>)
    requires ',' !in second && ',' !in loh
    requires forall k | 0 <= k < |more| :: ',' !in more[k]
    ensures AbsoluteCopyNumber(Some(CellText(abs, second, loh, more))) == Some(abs)
    ensures LossOfHeterozygosity(Some(CellText(abs, second, loh, more))) == Some(loh)
  {
    var fields := [DecimalString(abs), second, loh] + more;
    NoCommaInDecimal(abs);
    forall k | 0 <= k < |fields| ensures ',' !in fields[k] {
      if k >= 3 {
        assert fields[k] == more[k - 3];
      }
    }
    SplitJoin(fields, ',');
    ParseDecimalString(abs);
  }

  // ---------------------------------------------------------------------------
  // Chromosome names

  /** `replace(23, 'X').replace(24, 'Y').astype(str)` on an integer chromosome. */
  function RenameChromosome(c: int): (r: string)
    ensures r == "X" <==> c == 23
    ensures r == "Y" <==> c == 24
    ensures c != 23 && c != 24 ==> ParseInt(r) == Some(c)
  {
    DecimalStringShape(c);
    ParseDecimalString(c);
    if c == 23 then "X" else if c == 24 then "Y" else DecimalString(c)
  }

  /** Different chromosomes keep different names. */
  lemma RenameChromosomeInjective(a: int, b: int)
    requires RenameChromosome(a) == RenameChromosome(b)
    ensures a == b
  {
  }

  // ---------------------------------------------------------------------------
  // Copy-number classes

  /** The class order of the box plots. */
  const BucketOrder: seq<string> := ["0", "1", "2", "3", "4", "5", "6", "7", "8", "9", "10+"]

  /** `'%d' % n if n < 10 else '10+'`. */
  function CnvBucket(n: int): (bucket: string)
    ensures bucket == "10+" <==> n >= 10
    ensures n < 10 ==> ParseInt(bucket) == Some(n)
  {
    if n < 10 then
      DecimalStringShape(n);
      ParseDecimalString(n);
      DecimalString(n)
    else "10+"
  }

  /** For a non-negative copy number the class is one of the eleven
      entries of the order: the number itself up to 9, then '10+'; a
      negative copy number gets a class outside the order. */
  lemma CnvBucketInOrder(n: int)
    ensures CnvBucket(n) in BucketOrder <==> n >= 0
    ensures n >= 0 ==> CnvBucket(n) == BucketOrder[if n < 10 then n else 10]
  {
    if n < 0 {
      DecimalStringShape(n);
      assert CnvBucket(n)[0] == '-';
    } else if n < 10 {
      assert Digits(n) == [DigitChar(n)];
    }
  }
}
