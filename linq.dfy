/**
 * The LINQ operators the locator chains together (Where, SelectMany, All,
 * SequenceEqual, SingleOrDefault), defined over finite sequences the way
 * System.Linq evaluates them: one pass from the front, order preserved.
 */
module Linq {
  import opened Results

  /** Enumerable.Where: the elements of `s` that satisfy `p`, in their original order. */
  function Where<T(!new)>(s: seq<T>, p: T -> bool): (r: seq<T>)
    ensures |r| <= |s|
    ensures forall x :: x in r <==> x in s && p(x)
  {
    if s == [] then []
    else
      assert s == [s[0]] + s[1..];
      (if p(s[0]) then [s[0]] else []) + Where(s[1..], p)
  }

  /** Filtering distributes over concatenation: Where never reorders or mixes its input. */
  lemma {:induction false} WhereAppend<T(!new)>(a: seq<T>, b: seq<T>, p: T -> bool)
    ensures Where(a + b, p) == Where(a, p) + Where(b, p)
  {
    if a == [] {
      assert a + b == b;
    } else {
      assert (a + b)[1..] == a[1..] + b;
      WhereAppend(a[1..], b, p);
    }
  }

  /** Two chained Where filters select exactly what one filter on the conjunction selects. */
  lemma {:induction false} WhereConjunction<T(!new)>(s: seq<T>, p: T -> bool, q: T -> bool, both: T -> bool)
    requires forall x :: both(x) == (p(x) && q(x))
    ensures Where(Where(s, p), q) == Where(s, both)
  {
    if s != [] {
      WhereConjunction(s[1..], p, q, both);
      var w := Where(s, p);
      if p(s[0]) {
        assert w == [s[0]] + Where(s[1..], p);
        assert w[0] == s[0] && w[1..] == Where(s[1..], p);
        assert Where(w, q) == (if q(s[0]) then [s[0]] else []) + Where(Where(s[1..], p), q);
      } else {
        assert w == Where(s[1..], p);
      }
    }
  }

  /** A filter keeps its input unchanged exactly when every element passes it. */
  lemma {:induction false} WhereKeepsAll<T(!new)>(s: seq<T>, p: T -> bool)
    ensures Where(s, p) == s <==> forall i :: 0 <= i < |s| ==> p(s[i])
  {
    if s != [] {
      WhereKeepsAll(s[1..], p);
      if !p(s[0]) {
        assert |Where(s, p)| < |s|;
      } else if Where(s, p) == s {
        assert Where(s[1..], p) == Where(s, p)[1..];
      }
    }
  }

  /** Enumerable.SelectMany: the concatenation of `f(x)` for every `x` in `s`, in order. */
  function SelectMany<T(!new), U(!new)>(s: seq<T>, f: T -> seq<U>): (r: seq<U>)
    ensures forall y :: y in r <==> exists x :: x in s && y in f(x)
  {
    if s == [] then []
    else
      assert s == [s[0]] + s[1..];
      f(s[0]) + SelectMany(s[1..], f)
  }

  /** SelectMany distributes over concatenation of its source. */
  lemma {:induction false} SelectManyAppend<T(!new), U(!new)>(a: seq<T>, b: seq<T>, f: T -> seq<U>)
    ensures SelectMany(a + b, f) == SelectMany(a, f) + SelectMany(b, f)
  {
    if a == [] {
      assert a + b == b;
    } else {
      assert (a + b)[1..] == a[1..] + b;
      SelectManyAppend(a[1..], b, f);
    }
  }

  /**
   * An element that two different source elements both contribute passes a
   * later filter at least twice: SelectMany keeps duplicates.
   */
  lemma {:induction false} SelectManyRepeats<T(!new), U(!new)>(s: seq<T>, f: T -> seq<U>, p: U -> bool, i: nat, j: nat, y: U)
    requires i < j < |s|
    requires y in f(s[i]) && y in f(s[j]) && p(y)
    ensures |Where(SelectMany(s, f), p)| >= 2
  {
    assert SelectMany(s, f) == f(s[0]) + SelectMany(s[1..], f);
    WhereAppend(f(s[0]), SelectMany(s[1..], f), p);
    if i == 0 {
      assert s[1..][j - 1] == s[j];
      assert y in Where(f(s[0]), p);
      assert y in Where(SelectMany(s[1..], f), p);
    } else {
      assert s[1..][i - 1] == s[i] && s[1..][j - 1] == s[j];
      SelectManyRepeats(s[1..], f, p, i - 1, j - 1, y);
    }
  }

  /** Enumerable.All: true when no element fails `p` (so true of the empty sequence). */
  function All<T>(s: seq<T>, p: T -> bool): (r: bool)
    ensures r <==> forall i :: 0 <= i < |s| ==> p(s[i])
  {
    s == [] || (p(s[0]) && All(s[1..], p))
  }

  /** Enumerable.Any with a predicate: true when some element satisfies `p`. */
  function Any<T>(s: seq<T>, p: T -> bool): (r: bool)
    ensures r <==> exists i :: 0 <= i < |s| && p(s[i])
  {
    s != [] && (p(s[0]) || Any(s[1..], p))
  }

  /**
   * Enumerable.SequenceEqual: walks both sequences in step and stops at the
   * first difference or at the end of either one; equal only when both end together.
   */
  function SequenceEqual<T(==)>(a: seq<T>, b: seq<T>): (r: bool)
    ensures r <==> |a| == |b| && forall i :: 0 <= i < |a| ==> a[i] == b[i]
    ensures r <==> a == b
  {
    if a == [] || b == [] then a == [] && b == []
    else a[0] == b[0] && SequenceEqual(a[1..], b[1..])
  }

  /** A filter selects nothing exactly when no element satisfies its predicate. */
  lemma WhereEmptyIffNoneMatch<T(!new)>(s: seq<T>, p: T -> bool)
    ensures Where(s, p) == [] <==> !Any(s, p)
  {
    if Where(s, p) != [] {
      assert Where(s, p)[0] in s;
    }
    if Any(s, p) {
      var i :| 0 <= i < |s| && p(s[i]);
      assert s[i] in Where(s, p);
    }
  }

  /** The exception SingleOrDefault raises when a second match turns up. */
  datatype LinqError = MoreThanOneMatch

  /**
   * Enumerable.SingleOrDefault with a predicate: scans for the first match, then
   * keeps scanning and raises as soon as a second match is seen; no match gives
   * the default value (null for a reference type).
   */
  function SingleOrDefault<T(!new)>(s: seq<T>, p: T -> bool): (r: Result<Option<T>, LinqError>)
    ensures r == Ok(None) <==> |Where(s, p)| == 0
    ensures r.Ok? && r.value.Some? <==> |Where(s, p)| == 1
    ensures r.Ok? && r.value.Some? ==> Where(s, p) == [r.value.value]
    ensures r.Err? <==> |Where(s, p)| >= 2
  {
    if s == [] then Ok(None)
    else if p(s[0]) then
      WhereEmptyIffNoneMatch(s[1..], p);
      if Any(s[1..], p) then Err(MoreThanOneMatch) else Ok(Some(s[0]))
    else SingleOrDefault(s[1..], p)
  }
}
