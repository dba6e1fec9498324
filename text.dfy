/** The handful of Python string and path operations the scripts rely on:
    `str.split`, `str.join`, `str.startswith`/`endswith`, substring `in`,
    `str(int)`, `int(str)`, `os.path.basename` and `os.path.splitext`. */
module Text {
  import opened Wrappers

  /** Position of the first `c` in `s`, or |s| when `s` has none. */
  function FirstIndex(s: string, c: char): (k: nat)
    ensures k <= |s|
    ensures forall i | 0 <= i < k :: s[i] != c
    ensures k < |s| ==> s[k] == c
  {
    if s == [] then 0 else if s[0] == c then 0 else 1 + FirstIndex(s[1..], c)
  }

  /** The three properties of FirstIndex single it out. */
  lemma FirstIndexUnique(s: string, c: char, k: nat)
    requires k <= |s|
    requires forall i | 0 <= i < k :: s[i] != c
    requires k < |s| ==> s[k] == c
    ensures FirstIndex(s, c) == k
  {
  }

  /** `s.split(c)[0]`: the text before the first `c`, or all of `s`. */
  function BeforeFirst(s: string, c: char): (r: string)
    ensures c !in r
    ensures r <= s
    ensures |r| < |s| ==> s[|r|] == c
  {
    s[..FirstIndex(s, c)]
  }

  /** Rewriting a value with `v.split(c)[0]` a second time changes nothing. */
  lemma BeforeFirstIdempotent(s: string, c: char)
    ensures BeforeFirst(BeforeFirst(s, c), c) == BeforeFirst(s, c)
  {
    var r := BeforeFirst(s, c);
    FirstIndexUnique(r, c, |r|);
  }

  /** The text before the first `c` of `x + c + y`, when `x` has no `c`, is `x`. */
  lemma BeforeFirstOfPieces(x: string, c: char, y: string)
    requires c !in x
    ensures BeforeFirst(x + [c] + y, c) == x
  {
    FirstIndexUnique(x + [c] + y, c, |x|);
    assert (x + [c] + y)[..|x|] == x;
  }

  /** `s.split(c)`: the pieces between the occurrences of `c`; there is
      always at least one piece, and `s.split(c)[0]` is BeforeFirst. */
  function Split(s: string, c: char): (r: seq<string>)
    ensures |r| >= 1
    ensures forall k | 0 <= k < |r| :: c !in r[k]
    ensures r[0] == BeforeFirst(s, c)
    decreases |s|
  {
    var k := FirstIndex(s, c);
    if k == |s| then [s] else [s[..k]] + Split(s[k + 1..], c)
  }

  /** `c.join(ts)`. */
  function Join(ts: seq<string>, c: char): string
  {
    if |ts| == 0 then "" else if |ts| == 1 then ts[0] else ts[0] + [c] + Join(ts[1..], c)
  }

  /** Splitting a join of pieces that do not contain the separator gives the pieces back. */
  lemma {:induction false} SplitJoin(ts: seq<string>, c: char)
    requires |ts| >= 1
    requires forall k | 0 <= k < |ts| :: c !in ts[k]
    ensures Split(Join(ts, c), c) == ts
  {
    if |ts| == 1 {
      FirstIndexUnique(ts[0], c, |ts[0]|);
    } else {
      SplitJoin(ts[1..], c);
      SplitAfterPiece(ts[0], Join(ts[1..], c), c);
    }
  }

  /** A leading piece without the separator is the first piece of the split. */
  lemma SplitAfterPiece(a: string, b: string, c: char)
    requires c !in a
    ensures Split(a + [c] + b, c) == [a] + Split(b, c)
  {
    var s := a + [c] + b;
    FirstIndexUnique(s, c, |a|);
    assert s[..|a|] == a;
    assert s[|a| + 1..] == b;
  }

  /** `s.startswith(p)`. */
  predicate StartsWith(s: string, p: string)
  {
    p <= s
  }

  /** A common leading part does not change whether one text starts with another. */
  lemma StartsWithAfter(d: string, s: string, p: string)
    ensures StartsWith(d + s, d + p) <==> StartsWith(s, p)
  {
    if StartsWith(d + s, d + p) {
      assert p == (d + p)[|d|..] == (d + s)[|d|..|d| + |p|] == s[..|p|];
    }
    if StartsWith(s, p) {
      assert d + p == (d + s)[..|d| + |p|];
    }
  }

  /** `s.endswith(x)`. */
  predicate EndsWith(s: string, x: string)
  {
    |x| <= |s| && s[|s| - |x|..] == x
  }

  /** `t` occurs in `s` starting at position `i`. */
  ghost predicate OccursAt(t: string, s: string, i: int)
  {
    0 <= i && i + |t| <= |s| && s[i..i + |t|] == t
  }

  /** Python's substring test `t in s`. */
  ghost predicate Occurs(t: string, s: string)
  {
    exists i :: OccursAt(t, s, i)
  }

  /** Substring search: true exactly when `t` occurs somewhere in `s`. */
  function Contains(s: string, t: string): (b: bool)
    ensures b <==> Occurs(t, s)
    decreases |s|
  {
    if |t| > |s| then
      assert forall i :: !OccursAt(t, s, i);
      false
    else if t <= s then
      assert OccursAt(t, s, 0);
      true
    else
      OccursInTail(t, s);
      Contains(s[1..], t)
  }

  /** When `t` is not a prefix of `s`, it occurs in `s` exactly when it occurs in `s[1..]`. */
  lemma OccursInTail(t: string, s: string)
    requires |t| <= |s| && !(t <= s)
    ensures Occurs(t, s) <==> Occurs(t, s[1..])
  {
    if Occurs(t, s) {
      var i :| OccursAt(t, s, i);
      assert i != 0;
      assert s[1..][i - 1..i - 1 + |t|] == s[i..i + |t|];
      assert OccursAt(t, s[1..], i - 1);
    }
    if Occurs(t, s[1..]) {
      var i :| OccursAt(t, s[1..], i);
      assert s[1..][i..i + |t|] == s[i + 1..i + 1 + |t|];
      assert OccursAt(t, s, i + 1);
    }
  }

  /** Position of the last `c` in `s`, or -1 when `s` has none. */
  function LastIndex(s: string, c: char): (k: int)
    ensures -1 <= k < |s|
    ensures k >= 0 ==> s[k] == c
    ensures forall i | k < i < |s| :: s[i] != c
  {
    if s == [] then -1 else if s[|s| - 1] == c then |s| - 1 else LastIndex(s[..|s| - 1], c)
  }

  /** The three properties of LastIndex single it out. */
  lemma LastIndexUnique(s: string, c: char, k: int)
    requires -1 <= k < |s|
    requires k >= 0 ==> s[k] == c
    requires forall i | k < i < |s| :: s[i] != c
    ensures LastIndex(s, c) == k
  {
  }

  /** `os.path.basename(p)`: the text after the last '/'. */
  function Basename(p: string): (r: string)
    ensures '/' !in r
    ensures |r| <= |p| && r == p[|p| - |r|..]
    ensures |r| < |p| ==> p[|p| - |r| - 1] == '/'
  {
    if p == [] then "" else if p[|p| - 1] == '/' then "" else Basename(p[..|p| - 1]) + [p[|p| - 1]]
  }

  /** The base name of '{dir}/{f}' is `f` for a directory entry `f` (which never holds a '/'). */
  lemma {:induction false} BasenameOfEntry(dir: string, f: string)
    requires '/' !in f
    ensures Basename(dir + "/" + f) == f
    decreases |f|
  {
    var p := dir + "/" + f;
    if f != [] {
      assert p[..|p| - 1] == dir + "/" + f[..|f| - 1];
      BasenameOfEntry(dir, f[..|f| - 1]);
      assert f == f[..|f| - 1] + [f[|f| - 1]];
    }
  }

  /** `os.path.splitext(name)[0]` for a name without '/': the text before the
      last '.', except that a '.' preceded only by dots starts no extension. */
  function Stem(name: string): (r: string)
    ensures r <= name
    ensures |r| < |name| ==> name[|r|] == '.' && forall i | |r| < i < |name| :: name[i] != '.'
  {
    var d := LastIndex(name, '.');
    if d > 0 && exists i | 0 <= i < d :: name[i] != '.' then name[..d] else name
  }

  /** The extension after the last '.' is dropped when something other than dots precedes it. */
  lemma StemOfExtension(x: string, e: string, i: nat)
    requires '.' !in e
    requires i < |x| && x[i] != '.'
    ensures Stem(x + "." + e) == x
  {
    var name := x + "." + e;
    LastIndexUnique(name, '.', |x|);
    assert name[i] != '.';
    assert name[..|x|] == x;
  }

  /** Cutting the extension never changes the text before the first '.'. */
  lemma StemKeepsFirstPart(name: string)
    ensures BeforeFirst(Stem(name), '.') == BeforeFirst(name, '.')
  {
    var r := Stem(name);
    if r != name {
      var k := FirstIndex(name, '.');
      var d := |r|;
      assert name[d] == '.';
      if k < d {
        FirstIndexUnique(r, '.', k);
      } else {
        FirstIndexUnique(r, '.', d);
      }
    }
  }

  /** The ASCII digit for `d`. */
  function DigitChar(d: nat): char
    requires d < 10
  {
    ('0' as int + d) as char
  }

  predicate IsDigit(ch: char)
  {
    '0' <= ch <= '9'
  }

  /** The decimal digits of `n`, without leading zeros. */
  function Digits(n: nat): (r: string)
    ensures |r| >= 1
    ensures forall k | 0 <= k < |r| :: IsDigit(r[k])
  {
    if n < 10 then [DigitChar(n)] else Digits(n / 10) + [DigitChar(n % 10)]
  }

  /** `str(n)` for a Python int. */
  function DecimalString(n: int): string
  {
    if n < 0 then "-" + Digits(-n) else Digits(n)
  }

  /** The number a non-empty run of ASCII digits denotes. */
  function DigitsValue(s: string): nat
    requires forall k | 0 <= k < |s| :: IsDigit(s[k])
  {
    if s == [] then 0
    else
      assert IsDigit(s[|s| - 1]);
      DigitsValue(s[..|s| - 1]) * 10 + (s[|s| - 1] as int - '0' as int)
  }

  /** `int(s)` on text made of an optional sign and ASCII digits; any other
      text (the empty one included) raises ValueError, here None. */
  function ParseInt(s: string): Option<int>
  {
    var sign := |s| > 0 && (s[0] == '-' || s[0] == '+');
    var body := if sign then s[1..] else s;
    if body != [] && forall k | 0 <= k < |body| :: IsDigit(body[k]) then
      var v: int := DigitsValue(body);
      Some(if sign && s[0] == '-' then -v else v)
    else
      None
  }

  lemma {:induction false} DigitsValueOfDigits(n: nat)
    ensures DigitsValue(Digits(n)) == n
    decreases n
  {
    if n >= 10 {
      DigitsValueOfDigits(n / 10);
      var r := Digits(n);
      assert r[..|r| - 1] == Digits(n / 10);
    }
  }

  /** `int(str(n)) == n`. */
  lemma ParseDecimalString(n: int)
    ensures ParseInt(DecimalString(n)) == Some(n)
  {
    var s := DecimalString(n);
    if n < 0 {
      var d := Digits(-n);
      assert s == "-" + d;
      assert s[1..] == d;
      DigitsValueOfDigits(-n);
    } else {
      var d := Digits(n);
      assert s == d;
      assert IsDigit(s[0]);
      DigitsValueOfDigits(n);
    }
  }

  /** `str` never yields a text that is not a number: the first character is a digit or '-'. */
  lemma DecimalStringShape(n: int)
    ensures |DecimalString(n)| >= 1
    ensures IsDigit(DecimalString(n)[0]) || (DecimalString(n)[0] == '-' && |DecimalString(n)| >= 2)
  {
  }
}
