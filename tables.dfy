/** A table is a sequence of row records. The scripts' boolean-mask
    indexing `df[mask]`, `df.query(...)` and `df.dropna(subset=...)` all keep
    the rows a predicate accepts, in their original order: Select. */
module Tables {
  import opened Wrappers

  /** The rows of `s` that `keep` accepts, in their original order. */
  function Select<T>(s: seq<T>, keep: T -> bool): (r: seq<T>)
    ensures |r| <= |s|
    ensures forall x | x in r :: x in s && keep(x)
    ensures forall x | x in s && keep(x) :: x in r
  {
    if s == [] then []
    else
      var rest := Select(s[..|s| - 1], keep);
      assert s == s[..|s| - 1] + [s[|s| - 1]];
      if keep(s[|s| - 1]) then rest + [s[|s| - 1]] else rest
  }

  /** The positions of the rows `keep` accepts, in increasing order. */
  function KeptIndices<T>(s: seq<T>, keep: T -> bool): (ks: seq<nat>)
    ensures forall k | 0 <= k < |ks| :: ks[k] < |s| && keep(s[ks[k]])
    ensures forall k, l | 0 <= k < l < |ks| :: ks[k] < ks[l]
    ensures forall i | 0 <= i < |s| && keep(s[i]) :: i in ks
  {
    if s == [] then []
    else
      var rest := KeptIndices(s[..|s| - 1], keep);
      if keep(s[|s| - 1]) then rest + [|s| - 1] else rest
  }

  /** Select keeps exactly the rows at KeptIndices: it only drops rows, and
      the survivors keep their relative order. */
  lemma {:induction false} SelectAt<T>(s: seq<T>, keep: T -> bool)
    ensures |Select(s, keep)| == |KeptIndices(s, keep)|
    ensures forall k | 0 <= k < |Select(s, keep)| :: Select(s, keep)[k] == s[KeptIndices(s, keep)[k]]
  {
    if s != [] {
      var init := s[..|s| - 1];
      var last := s[|s| - 1];
      SelectAt(init, keep);
      assert Select(s, keep) == Select(init, keep) + (if keep(last) then [last] else []);
      assert KeptIndices(s, keep) == KeptIndices(init, keep) + (if keep(last) then [|s| - 1] else []);
      forall k | 0 <= k < |Select(s, keep)| ensures Select(s, keep)[k] == s[KeptIndices(s, keep)[k]] {
        if k < |Select(init, keep)| {
          assert KeptIndices(init, keep)[k] < |init|;
        }
      }
    }
  }

  /** Filtering twice is filtering once by both conditions. */
  lemma {:induction false} SelectSelect<T>(s: seq<T>, p: T -> bool, q: T -> bool, pq: T -> bool)
    requires forall x :: pq(x) == (p(x) && q(x))
    ensures Select(Select(s, p), q) == Select(s, pq)
  {
    if s != [] {
      var init := s[..|s| - 1];
      SelectSelect(init, p, q, pq);
      var sp := Select(s, p);
      if p(s[|s| - 1]) {
        assert sp[..|sp| - 1] == Select(init, p);
      }
    }
  }

  /** Filters that agree on every row select the same rows. */
  lemma {:induction false} SelectSame<T>(s: seq<T>, p: T -> bool, q: T -> bool)
    requires forall x | x in s :: p(x) == q(x)
    ensures Select(s, p) == Select(s, q)
  {
    if s != [] {
      SelectSame(s[..|s| - 1], p, q);
    }
  }

  /** A filter that accepts every row returns the table unchanged. */
  lemma {:induction false} SelectAll<T>(s: seq<T>, keep: T -> bool)
    requires forall x | x in s :: keep(x)
    ensures Select(s, keep) == s
  {
    if s != [] {
      SelectAll(s[..|s| - 1], keep);
      assert s == s[..|s| - 1] + [s[|s| - 1]];
    }
  }

  /** A column computed row by row (`apply`, `assign`): one output row per input row. */
  function Map<T, U>(s: seq<T>, f: T -> U): (r: seq<U>)
    ensures |r| == |s|
    ensures forall i | 0 <= i < |s| :: r[i] == f(s[i])
  {
    if s == [] then [] else Map(s[..|s| - 1], f) + [f(s[|s| - 1])]
  }

  /** A row of a mapped table is the image of some row of the table. */
  lemma MapMembership<T, U>(s: seq<T>, f: T -> U, y: U)
    ensures y in Map(s, f) <==> exists x | x in s :: y == f(x)
  {
    if y in Map(s, f) {
      var k :| 0 <= k < |s| && Map(s, f)[k] == y;
      assert s[k] in s;
    }
    if exists x | x in s :: y == f(x) {
      var x :| x in s && y == f(x);
      var k :| 0 <= k < |s| && s[k] == x;
      assert Map(s, f)[k] == y;
    }
  }

  /** Filtering after a row-wise rewrite is rewriting the rows the filter
      would have kept, when the rewrite does not change what the filter sees. */
  lemma {:induction false} SelectMap<T, U>(s: seq<T>, f: T -> U, p: U -> bool, q: T -> bool)
    requires forall x :: p(f(x)) == q(x)
    ensures Select(Map(s, f), p) == Map(Select(s, q), f)
  {
    if s != [] {
      var init := s[..|s| - 1];
      SelectMap(init, f, p, q);
      assert Map(s, f)[..|s| - 1] == Map(init, f);
      assert Map(s, f)[|s| - 1] == f(s[|s| - 1]);
    }
  }

  /** `pd.concat(parts)`: the rows of every part, part after part. */
  function Concat<T>(parts: seq<seq<T>>): (r: seq<T>)
    ensures forall x | x in r :: exists k | 0 <= k < |parts| :: x in parts[k]
    ensures forall k, x | 0 <= k < |parts| && x in parts[k] :: x in r
  {
    if parts == [] then [] else Concat(parts[..|parts| - 1]) + parts[|parts| - 1]
  }

  /** `pd.concat(parts)` as called: it raises ValueError (None) on an empty
      list, and otherwise holds the rows of every part, part after part. */
  function Concatenated<T>(parts: seq<seq<T>>): (r: Option<seq<T>>)
    ensures r.None? <==> parts == []
    ensures r.Some? ==> r.value == Concat(parts)
  {
    if parts == [] then None else Some(Concat(parts))
  }
}
