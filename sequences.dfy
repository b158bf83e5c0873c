/** Order-preserving selection from a list (Python's `[x for x in xs if keep(x)]`) and
    the two window scans of the reply extractor: the first index of a window at which a
    line yields a value (a `for` loop that breaks), and the last one (a `for` loop that
    keeps overwriting). */
module Sequences {
  import opened Wrappers

  /** `xs` is `ys` with some elements left out and the rest in their original order. */
  predicate IsSubsequence<T(==)>(xs: seq<T>, ys: seq<T>)
    decreases |ys|
  {
    if xs == [] then true
    else if ys == [] then false
    else
      || (xs[|xs| - 1] == ys[|ys| - 1] && IsSubsequence(xs[..|xs| - 1], ys[..|ys| - 1]))
      || IsSubsequence(xs, ys[..|ys| - 1])
  }

  lemma {:induction false} SubsequenceMembers<T>(xs: seq<T>, ys: seq<T>)
    requires IsSubsequence(xs, ys)
    ensures forall x :: x in xs ==> x in ys
    decreases |ys|
  {
    if xs != [] {
      var ys' := ys[..|ys| - 1];
      assert ys == ys' + [ys[|ys| - 1]];
      if xs[|xs| - 1] == ys[|ys| - 1] && IsSubsequence(xs[..|xs| - 1], ys') {
        SubsequenceMembers(xs[..|xs| - 1], ys');
        assert xs == xs[..|xs| - 1] + [xs[|xs| - 1]];
      } else {
        SubsequenceMembers(xs, ys');
      }
    }
  }

  /** Extending both lists by the same element, or only the longer one, keeps the relation. */
  lemma SubsequenceExtend<T>(xs: seq<T>, ys: seq<T>, z: T)
    requires IsSubsequence(xs, ys)
    ensures IsSubsequence(xs + [z], ys + [z])
    ensures IsSubsequence(xs, ys + [z])
  {
    assert (xs + [z])[..|xs|] == xs;
    assert (ys + [z])[..|ys|] == ys;
  }

  /** `[x for x in xs if keep(x)]` */
  function Filter<T>(xs: seq<T>, keep: T -> bool): (r: seq<T>)
    ensures |r| <= |xs|
    ensures forall k :: 0 <= k < |r| ==> r[k] in xs && keep(r[k])
    ensures forall k :: 0 <= k < |xs| && keep(xs[k]) ==> xs[k] in r
    ensures IsSubsequence(r, xs)
    decreases |xs|
  {
    if xs == [] then []
    else
      var init, last := xs[..|xs| - 1], xs[|xs| - 1];
      assert xs == init + [last];
      var r := Filter(init, keep);
      SubsequenceExtend(r, init, last);
      if keep(last) then r + [last] else r
  }

  /** Every kept element appears in the result as many times as in the input, and every
      other element not at all. */
  lemma {:induction false} FilterCounts<T>(xs: seq<T>, keep: T -> bool)
    ensures forall x :: multiset(Filter(xs, keep))[x] == if keep(x) then multiset(xs)[x] else 0
    decreases |xs|
  {
    if xs != [] {
      var init, last := xs[..|xs| - 1], xs[|xs| - 1];
      assert xs == init + [last];
      FilterCounts(init, keep);
      assert multiset(xs) == multiset(init) + multiset{last};
      assert multiset(Filter(init, keep) + [last]) == multiset(Filter(init, keep)) + multiset{last};
    }
  }

  /** Nothing is dropped when every element is kept. */
  lemma {:induction false} FilterKeepsAll<T>(xs: seq<T>, keep: T -> bool)
    requires forall k :: 0 <= k < |xs| ==> keep(xs[k])
    ensures Filter(xs, keep) == xs
    decreases |xs|
  {
    if xs != [] {
      var init := xs[..|xs| - 1];
      assert xs == init + [xs[|xs| - 1]];
      FilterKeepsAll(init, keep);
    }
  }

  /** The list holding the value of an option, if any. */
  function OptionList<U>(o: Option<U>): seq<U> {
    match o
    case Some(x) => [x]
    case None => []
  }

  /** The values present among `f(0), ..., f(k - 1)`, in order. */
  function Collect<U>(f: nat -> Option<U>, k: nat): seq<U> {
    if k == 0 then [] else Collect(f, k - 1) + OptionList(f(k - 1))
  }

  /** Every collected value is present at some index below `k`... */
  lemma {:induction false} CollectFrom<U>(f: nat -> Option<U>, k: nat, x: U)
    requires x in Collect(f, k)
    ensures exists i :: 0 <= i < k && f(i) == Some(x)
  {
    var prev := Collect(f, k - 1);
    if x in prev {
      CollectFrom(f, k - 1, x);
    } else {
      assert f(k - 1) == Some(x);
    }
  }

  /** ... and every value present at an index below `k` is collected. */
  lemma {:induction false} InCollect<U>(f: nat -> Option<U>, k: nat, i: nat)
    requires i < k && f(i).Some?
    ensures f(i).value in Collect(f, k)
  {
    if i < k - 1 {
      InCollect(f, k - 1, i);
    }
  }

  /** `j` is the first index of `[lo, hi)` at which `pick` yields a value. */
  predicate IsFirstPick<T, U>(xs: seq<T>, pick: T -> Option<U>, lo: int, hi: int, j: int)
    requires 0 <= lo <= hi <= |xs|
  {
    lo <= j < hi && pick(xs[j]).Some?
    && forall j' :: lo <= j' < j ==> pick(xs[j']).None?
  }

  /** The value at the first index of `[lo, hi)` at which `pick` yields one. */
  function FirstPick<T, U>(xs: seq<T>, pick: T -> Option<U>, lo: nat, hi: nat): Option<U>
    requires lo <= hi <= |xs|
    decreases hi - lo
  {
    if lo == hi then None
    else if pick(xs[lo]).Some? then pick(xs[lo])
    else FirstPick(xs, pick, lo + 1, hi)
  }

  /** The forward scan finds nothing exactly when no index of the window yields a value,
      and otherwise yields the value of the first index that does. */
  lemma {:induction false} FirstPickSpec<T, U>(xs: seq<T>, pick: T -> Option<U>, lo: nat, hi: nat)
    requires lo <= hi <= |xs|
    ensures var r := FirstPick(xs, pick, lo, hi);
      && (r.None? <==> forall j :: lo <= j < hi ==> pick(xs[j]).None?)
      && (r.Some? ==> exists j :: IsFirstPick(xs, pick, lo, hi, j) && r == pick(xs[j]))
    decreases hi - lo
  {
    if lo < hi {
      if pick(xs[lo]).Some? {
        assert IsFirstPick(xs, pick, lo, hi, lo);
      } else {
        FirstPickSpec(xs, pick, lo + 1, hi);
        FirstPickSkip(xs, pick, lo, lo + 1, hi, FirstPick(xs, pick, lo + 1, hi));
      }
    }
  }

  /** When nothing in `[lo, j)` yields a value and `j` does, the forward scan yields that of `j`. */
  lemma {:induction false} FirstPickPrefix<T, U>(xs: seq<T>, pick: T -> Option<U>, lo: nat, j: nat, hi: nat)
    requires lo <= j < hi <= |xs|
    requires forall j' :: lo <= j' < j ==> pick(xs[j']).None?
    requires pick(xs[j]).Some?
    ensures FirstPick(xs, pick, lo, hi) == pick(xs[j])
    decreases j - lo
  {
    if lo < j {
      FirstPickPrefix(xs, pick, lo + 1, j, hi);
    }
  }

  lemma FirstPickSkip<T, U>(xs: seq<T>, pick: T -> Option<U>, lo: nat, next: nat, hi: nat, r: Option<U>)
    requires lo < next == lo + 1 <= hi <= |xs|
    requires pick(xs[lo]).None?
    requires r.Some? ==> exists j :: IsFirstPick(xs, pick, next, hi, j) && r == pick(xs[j])
    ensures r.Some? ==> exists j :: IsFirstPick(xs, pick, lo, hi, j) && r == pick(xs[j])
  {
    if r.Some? {
      var j :| IsFirstPick(xs, pick, next, hi, j) && r == pick(xs[j]);
      assert IsFirstPick(xs, pick, lo, hi, j);
    }
  }

  /** `j` is the last index of `[lo, hi)` at which `pick` yields a value. */
  predicate IsLastPick<T, U>(xs: seq<T>, pick: T -> Option<U>, lo: int, hi: int, j: int)
    requires 0 <= lo <= hi <= |xs|
  {
    lo <= j < hi && pick(xs[j]).Some?
    && forall j' :: j < j' < hi ==> pick(xs[j']).None?
  }

  /** The value at the last index of `[lo, hi)` at which `pick` yields one. */
  function LastPick<T, U>(xs: seq<T>, pick: T -> Option<U>, lo: nat, hi: nat): Option<U>
    requires lo <= hi <= |xs|
    decreases hi - lo
  {
    if lo == hi then None
    else if pick(xs[hi - 1]).Some? then pick(xs[hi - 1])
    else LastPick(xs, pick, lo, hi - 1)
  }

  /** The backward scan finds nothing exactly when no index of the window yields a value,
      and otherwise yields the value of the last index that does. */
  lemma {:induction false} LastPickSpec<T, U>(xs: seq<T>, pick: T -> Option<U>, lo: nat, hi: nat)
    requires lo <= hi <= |xs|
    ensures var r := LastPick(xs, pick, lo, hi);
      && (r.None? <==> forall j :: lo <= j < hi ==> pick(xs[j]).None?)
      && (r.Some? ==> exists j :: IsLastPick(xs, pick, lo, hi, j) && r == pick(xs[j]))
    decreases hi - lo
  {
    if lo < hi {
      if pick(xs[hi - 1]).Some? {
        assert IsLastPick(xs, pick, lo, hi, hi - 1);
      } else {
        LastPickSpec(xs, pick, lo, hi - 1);
        LastPickSkip(xs, pick, lo, hi - 1, hi, LastPick(xs, pick, lo, hi - 1));
      }
    }
  }

  lemma LastPickSkip<T, U>(xs: seq<T>, pick: T -> Option<U>, lo: nat, prev: nat, hi: nat, r: Option<U>)
    requires lo <= prev && prev + 1 == hi <= |xs|
    requires pick(xs[prev]).None?
    requires r.Some? ==> exists j :: IsLastPick(xs, pick, lo, prev, j) && r == pick(xs[j])
    ensures r.Some? ==> exists j :: IsLastPick(xs, pick, lo, hi, j) && r == pick(xs[j])
  {
    if r.Some? {
      var j :| IsLastPick(xs, pick, lo, prev, j) && r == pick(xs[j]);
      assert IsLastPick(xs, pick, lo, hi, j);
    }
  }
}
