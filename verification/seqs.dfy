/** Sequence vocabulary shared by the model: filtering, flattening, duplicate-freedom
    and first-occurrence de-duplication. */
module Seqs {
  import opened Results

  /** The elements of `xs` that satisfy `p`, in order. */
  function Filter<T>(xs: seq<T>, p: T -> bool): (r: seq<T>)
    ensures |r| <= |xs|
    ensures forall i :: 0 <= i < |r| ==> r[i] in xs && p(r[i])
    ensures forall i :: 0 <= i < |xs| && p(xs[i]) ==> xs[i] in r
  {
    if xs == [] then [] else (if p(xs[0]) then [xs[0]] else []) + Filter(xs[1..], p)
  }

  lemma FilterAppend<T>(xs: seq<T>, ys: seq<T>, p: T -> bool)
    ensures Filter(xs + ys, p) == Filter(xs, p) + Filter(ys, p)
  {
    if xs == [] {
      assert xs + ys == ys;
    } else {
      assert (xs + ys)[1..] == xs[1..] + ys;
      FilterAppend(xs[1..], ys, p);
    }
  }

  /** The concatenation of all the sequences in `xss`, in order. */
  function Flatten<T>(xss: seq<seq<T>>): seq<T> {
    if xss == [] then [] else xss[0] + Flatten(xss[1..])
  }

  lemma FlattenAppend<T>(xss: seq<seq<T>>, yss: seq<seq<T>>)
    ensures Flatten(xss + yss) == Flatten(xss) + Flatten(yss)
  {
    if xss == [] {
      assert xss + yss == yss;
    } else {
      assert (xss + yss)[1..] == xss[1..] + yss;
      FlattenAppend(xss[1..], yss);
    }
  }

  /** An element of the flattening lies in one of the parts, and vice versa. */
  lemma {:induction false} FlattenMember<T>(xss: seq<seq<T>>, x: T)
    ensures x in Flatten(xss) <==> exists i :: 0 <= i < |xss| && x in xss[i]
  {
    if xss != [] {
      FlattenMember(xss[1..], x);
      if x in Flatten(xss[1..]) {
        var i :| 0 <= i < |xss[1..]| && x in xss[1..][i];
        assert x in xss[i + 1];
      }
      forall i | 1 <= i < |xss| && x in xss[i]
        ensures x in Flatten(xss[1..])
      {
        assert xss[1..][i - 1] == xss[i];
      }
    }
  }

  predicate Distinct<T(==)>(xs: seq<T>) {
    forall i, j :: 0 <= i < j < |xs| ==> xs[i] != xs[j]
  }

  function Elems<T>(xs: seq<T>): set<T> {
    set x | x in xs
  }

  /** The first occurrence of every element of `xs`, in order of first appearance.
      Defined from the right end, so that it is independent of any left-to-right
      accumulator that computes it. */
  function KeepFirst<T(==)>(xs: seq<T>): (r: seq<T>)
    ensures Distinct(r)
    ensures forall i :: 0 <= i < |r| ==> r[i] in xs
    ensures forall i :: 0 <= i < |xs| ==> xs[i] in r
    decreases |xs|
  {
    if xs == [] then []
    else
      var init := xs[..|xs| - 1];
      var last := xs[|xs| - 1];
      assert xs == init + [last];
      KeepFirst(init) + (if last in init then [] else [last])
  }

  lemma KeepFirstSnoc<T>(xs: seq<T>, y: T)
    ensures KeepFirst(xs + [y]) == KeepFirst(xs) + (if y in xs then [] else [y])
  {
    assert (xs + [y])[..|xs + [y]| - 1] == xs;
  }

  lemma KeepFirstOfDistinct<T>(xs: seq<T>)
    requires Distinct(xs)
    ensures KeepFirst(xs) == xs
    decreases |xs|
  {
    if xs != [] {
      var init := xs[..|xs| - 1];
      assert xs == init + [xs[|xs| - 1]];
      KeepFirstOfDistinct(init);
      KeepFirstSnoc(init, xs[|xs| - 1]);
    }
  }

  /** Inserting an element that already occurred earlier does not change the
      first-occurrence order. */
  lemma {:induction false} KeepFirstRepeat<T>(xs: seq<T>, t: T, ys: seq<T>)
    requires t in xs
    ensures KeepFirst(xs + [t] + ys) == KeepFirst(xs + ys)
    decreases |ys|
  {
    if ys == [] {
      assert xs + [t] + ys == xs + [t];
      assert xs + ys == xs;
      KeepFirstSnoc(xs, t);
    } else {
      var init := ys[..|ys| - 1];
      var y := ys[|ys| - 1];
      assert ys == init + [y];
      assert xs + [t] + ys == (xs + [t] + init) + [y];
      assert xs + ys == (xs + init) + [y];
      KeepFirstSnoc(xs + [t] + init, y);
      KeepFirstSnoc(xs + init, y);
      KeepFirstRepeat(xs, t, init);
      assert y in xs + [t] + init <==> y in xs + init;
    }
  }

  /** The values `find` gives for the elements of `xs`, in turn, added to `found`. */
  function AddFound<T, U>(found: set<U>, xs: seq<T>, find: T -> Option<U>): (r: set<U>)
    ensures found <= r
    decreases |xs|
  {
    if xs == [] then found
    else
      var next := match find(xs[0]) case Some(y) => found + {y} case None => found;
      AddFound(next, xs[1..], find)
  }

  /** `find` gives `y` for some element of `xs`. */
  ghost predicate FoundBy<T, U>(xs: seq<T>, find: T -> Option<U>, y: U) {
    exists n :: 0 <= n < |xs| && find(xs[n]) == Some(y)
  }

  /** The set a pass ends with holds what it started with and exactly what `find`
      gives for some element, whatever order the elements are taken in. */
  lemma {:induction false} AddFoundSpec<T, U>(found: set<U>, xs: seq<T>, find: T -> Option<U>)
    ensures forall y :: y in AddFound(found, xs, find) <==> y in found || FoundBy(xs, find, y)
    decreases |xs|
  {
    if xs != [] {
      var next := match find(xs[0]) case Some(y) => found + {y} case None => found;
      AddFoundSpec(next, xs[1..], find);
      forall y ensures FoundBy(xs, find, y) <==> find(xs[0]) == Some(y) || FoundBy(xs[1..], find, y) {
        if FoundBy(xs, find, y) {
          var n :| 0 <= n < |xs| && find(xs[n]) == Some(y);
          if n > 0 {
            assert xs[1..][n - 1] == xs[n];
          }
        }
        if FoundBy(xs[1..], find, y) {
          var n :| 0 <= n < |xs[1..]| && find(xs[1..][n]) == Some(y);
          assert xs[n + 1] == xs[1..][n];
        }
      }
    }
  }
}
