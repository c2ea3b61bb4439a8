/**
 * The list semantics of the few pandas operations the dashboard relies on:
 * boolean-mask selection (`df[mask]`), `dropna()`, `unique()` and
 * `drop_duplicates()`.
 */
module Sequences {

  import opened Wrappers

  /** No element occurs twice. */
  predicate Distinct<T(==,!new)>(s: seq<T>) {
    forall i, j :: 0 <= i < j < |s| ==> s[i] != s[j]
  }

  /** Position of the first occurrence of `x` in `s`. */
  function FirstIndex<T(==,!new)>(s: seq<T>, x: T): (k: nat)
    requires x in s
    ensures k < |s| && s[k] == x && x !in s[..k]
  {
    if s[0] == x then 0 else 1 + FirstIndex(s[1..], x)
  }

  /** The first occurrence is the only position holding `x` with no earlier `x`. */
  lemma FirstIndexUnique<T(!new)>(s: seq<T>, x: T, k: nat)
    requires k < |s| && s[k] == x && x !in s[..k]
    ensures FirstIndex(s, x) == k
  {
  }

  /** Extending a sequence does not move the first occurrence of what it already held. */
  lemma FirstIndexPrefix<T(!new)>(s: seq<T>, n: nat, x: T)
    requires n <= |s| && x in s[..n]
    ensures FirstIndex(s, x) == FirstIndex(s[..n], x) < n
  {
    var k := FirstIndex(s[..n], x);
    assert s[..n][..k] == s[..k];
    FirstIndexUnique(s, x, k);
  }

  /**
   * Boolean-mask selection `s[keep(s)]`: the elements satisfying `keep`,
   * in their original order and with their original multiplicity.
   */
  function Where<T(==,!new)>(s: seq<T>, keep: T -> bool): (r: seq<T>)
    ensures |r| <= |s|
    ensures forall x :: x in r <==> x in s && keep(x)
    ensures forall x :: multiset(r)[x] == if keep(x) then multiset(s)[x] else 0
  {
    if s == [] then []
    else
      assert s == [s[0]] + s[1..];
      (if keep(s[0]) then [s[0]] else []) + Where(s[1..], keep)
  }

  /** Selection commutes with concatenation, so it keeps the relative order of rows. */
  lemma {:induction false} WhereAppend<T(!new)>(a: seq<T>, b: seq<T>, keep: T -> bool)
    ensures Where(a + b, keep) == Where(a, keep) + Where(b, keep)
  {
    if a == [] {
      assert a + b == b;
    } else {
      assert (a + b)[1..] == a[1..] + b;
      WhereAppend(a[1..], b, keep);
    }
  }

  /** Selecting with a mask that holds everywhere keeps the whole sequence. */
  lemma {:induction false} WhereAll<T(!new)>(s: seq<T>, keep: T -> bool)
    requires forall x :: x in s ==> keep(x)
    ensures Where(s, keep) == s
  {
    if s != [] {
      assert s == [s[0]] + s[1..];
      WhereAll(s[1..], keep);
    }
  }

  /** `dropna()`: the present values, unwrapped, in order. */
  function DropNa<T(==,!new)>(s: seq<Option<T>>): (r: seq<T>)
    ensures |r| <= |s|
    ensures forall x :: x in r <==> Some(x) in s
  {
    if s == [] then []
    else
      var init := s[..|s| - 1];
      assert s == init + [s[|s| - 1]];
      match s[|s| - 1]
      case None => DropNa(init)
      case Some(x) => DropNa(init) + [x]
  }

  /**
   * `drop_duplicates()` / `unique()`: each distinct element once, at the
   * position of its first occurrence.
   */
  function Dedup<T(==,!new)>(s: seq<T>): (r: seq<T>)
    ensures Distinct(r)
    ensures forall x :: x in r <==> x in s
    ensures forall i, j :: 0 <= i < j < |r| ==> FirstIndex(s, r[i]) < FirstIndex(s, r[j])
  {
    if s == [] then []
    else
      var init := s[..|s| - 1];
      var last := s[|s| - 1];
      var u := Dedup(init);
      assert s == init + [last];
      DedupStep(s, u);
      if last in u then u else u + [last]
  }

  /** The ordering of the kept elements survives appending one more input element. */
  lemma DedupStep<T(!new)>(s: seq<T>, u: seq<T>)
    requires |s| > 0
    requires forall i :: 0 <= i < |u| ==> u[i] in s[..|s| - 1]
    requires forall i, j :: 0 <= i < j < |u| ==> FirstIndex(s[..|s| - 1], u[i]) < FirstIndex(s[..|s| - 1], u[j])
    ensures forall i :: 0 <= i < |u| ==> u[i] in s
    ensures forall i, j :: 0 <= i < j < |u| ==> FirstIndex(s, u[i]) < FirstIndex(s, u[j])
    ensures s[|s| - 1] !in s[..|s| - 1] ==>
      forall i :: 0 <= i < |u| ==> FirstIndex(s, u[i]) < FirstIndex(s, s[|s| - 1])
  {
    var n := |s| - 1;
    forall i | 0 <= i < |u|
      ensures u[i] in s && FirstIndex(s, u[i]) == FirstIndex(s[..n], u[i]) < n
    {
      FirstIndexPrefix(s, n, u[i]);
    }
    if s[n] !in s[..n] {
      assert s[..n][..n] == s[..n];
      FirstIndexUnique(s, s[n], n);
    }
  }

  /**
   * `dropna().unique()`: the distinct present values, in order of first
   * appearance in the column.
   */
  function Unique<T(==,!new)>(s: seq<Option<T>>): (r: seq<T>)
    ensures Distinct(r)
    ensures forall x :: x in r <==> Some(x) in s
    ensures forall i, j :: 0 <= i < j < |r| ==> FirstIndex(s, Some(r[i])) < FirstIndex(s, Some(r[j]))
  {
    var present := DropNa(s);
    var r := Dedup(present);
    forall i, j | 0 <= i < j < |r|
      ensures FirstIndex(s, Some(r[i])) < FirstIndex(s, Some(r[j]))
    {
      FirstIndexDropNa(s, r[i], r[j]);
    }
    r
  }

  /** Dropping the missing values keeps the order of first appearances of the others. */
  lemma {:induction false} FirstIndexDropNa<T(!new)>(s: seq<Option<T>>, x: T, y: T)
    requires Some(x) in s && Some(y) in s
    ensures FirstIndex(DropNa(s), x) < FirstIndex(DropNa(s), y)
        <==> FirstIndex(s, Some(x)) < FirstIndex(s, Some(y))
  {
    var n := |s| - 1;
    var init := s[..n];
    assert s == init + [s[n]];
    var d := DropNa(s);
    var di := DropNa(init);
    assert d == di || d == di + [s[n].value];
    var xIn, yIn := Some(x) in init, Some(y) in init;
    if xIn {
      FirstIndexPrefix(s, n, Some(x));
      assert d[..|di|] == di;
      FirstIndexPrefix(d, |di|, x);
    }
    if yIn {
      FirstIndexPrefix(s, n, Some(y));
      assert d[..|di|] == di;
      FirstIndexPrefix(d, |di|, y);
    }
    if xIn && yIn {
      FirstIndexDropNa(init, x, y);
    } else if xIn || yIn {
      var z := if xIn then y else x;
      assert s[n] == Some(z) && z !in di;
      assert s[..n][..n] == s[..n];
      FirstIndexUnique(s, Some(z), n);
      assert d == di + [z] && d[..|di|] == di;
      FirstIndexUnique(d, z, |di|);
    } else {
      assert x == y;
    }
  }

}
