/** The LINQ operators the repository is built from, on in-memory sequences:
    `Where` (filter in enumeration order) and `SingleOrDefault`. */
module Linq {

  /** The outcome of `SingleOrDefault`: no match (the default value), one
      match, or an InvalidOperationException for more than one. */
  datatype Single<T> = NoMatch | OneMatch(value: T) | ManyMatches

  /** `Enumerable.Where`: the elements satisfying `p`, in their original order. */
  function Where<T(!new)>(s: seq<T>, p: T -> bool): (r: seq<T>)
    ensures |r| <= |s|
    ensures forall x :: x in r <==> x in s && p(x)
    decreases |s|
  {
    if s == [] then []
    else
      var init := Where(s[..|s| - 1], p);
      assert s == s[..|s| - 1] + [s[|s| - 1]];
      if p(s[|s| - 1]) then init + [s[|s| - 1]] else init
  }

  /** `SingleOrDefault(p)`: the unique element satisfying `p`, the default
      when none does, and an exception when two or more do. */
  function SingleOrDefault<T>(s: seq<T>, p: T -> bool): (r: Single<T>)
    ensures r.NoMatch? <==> forall i :: 0 <= i < |s| ==> !p(s[i])
    ensures r.OneMatch? ==> r.value in s && p(r.value)
    ensures r.ManyMatches? <==> exists i, j :: 0 <= i < j < |s| && p(s[i]) && p(s[j])
  {
    if s == [] then NoMatch
    else
      var rest := SingleOrDefault(s[1..], p);
      if !p(s[0]) then
        assert forall i, j :: 0 <= i < j < |s| && p(s[i]) && p(s[j]) ==>
          0 <= i - 1 < j - 1 < |s[1..]| && p(s[1..][i - 1]) && p(s[1..][j - 1]);
        rest
      else if rest.NoMatch? then
        OneMatch(s[0])
      else
        assert exists j :: 0 <= j < |s[1..]| && p(s[1..][j]);
        var j :| 0 <= j < |s[1..]| && p(s[1..][j]);
        assert p(s[0]) && p(s[j + 1]);
        ManyMatches
  }

  /** No element occurs twice. */
  ghost predicate Distinct<T>(s: seq<T>) {
    forall i, j :: 0 <= i < j < |s| ==> s[i] != s[j]
  }

  /** Filtering distributes over concatenation. */
  lemma {:induction false} WhereAppend<T(!new)>(s: seq<T>, t: seq<T>, p: T -> bool)
    ensures Where(s + t, p) == Where(s, p) + Where(t, p)
    decreases |t|
  {
    if t == [] {
      assert s + t == s;
    } else {
      var t' := t[..|t| - 1];
      assert (s + t)[..|s + t| - 1] == s + t';
      WhereAppend(s, t', p);
    }
  }

  /** Every element either satisfies `p` or does not: the two filters split `s`. */
  lemma {:induction false} WhereSplit<T(!new)>(s: seq<T>, p: T -> bool, q: T -> bool)
    requires forall x :: q(x) == !p(x)
    ensures |Where(s, p)| + |Where(s, q)| == |s|
    decreases |s|
  {
    if s != [] {
      WhereSplit(s[..|s| - 1], p, q);
    }
  }

  /** Filtering keeps every element exactly when they all satisfy `p`. */
  lemma {:induction false} WhereKeepsAll<T(!new)>(s: seq<T>, p: T -> bool)
    ensures |Where(s, p)| == |s| <==> forall i :: 0 <= i < |s| ==> p(s[i])
    decreases |s|
  {
    if s != [] {
      var init := s[..|s| - 1];
      WhereKeepsAll(init, p);
      if forall i :: 0 <= i < |s| ==> p(s[i]) {
        assert forall i :: 0 <= i < |init| ==> p(init[i]) by {
          forall i | 0 <= i < |init| ensures p(init[i]) { assert init[i] == s[i]; }
        }
      }
      if |Where(s, p)| == |s| {
        assert p(s[|s| - 1]);
        assert |Where(init, p)| == |init|;
        forall i | 0 <= i < |s| ensures p(s[i]) {
          if i < |init| { assert s[i] == init[i]; }
        }
      }
    }
  }

  /** Two sequences that agree, position by position, on `p` keep equally many elements. */
  lemma {:induction false} WhereCountAgrees<T(!new)>(s: seq<T>, t: seq<T>, p: T -> bool)
    requires |s| == |t| && forall i :: 0 <= i < |s| ==> p(s[i]) == p(t[i])
    ensures |Where(s, p)| == |Where(t, p)|
    decreases |s|
  {
    if s != [] {
      var n := |s| - 1;
      WhereCountAgrees(s[..n], t[..n], p);
    }
  }

  /** Filtering a sequence whose elements all satisfy `p` returns it whole. */
  lemma {:induction false} WhereIdentity<T(!new)>(s: seq<T>, p: T -> bool)
    requires forall i :: 0 <= i < |s| ==> p(s[i])
    ensures Where(s, p) == s
    decreases |s|
  {
    if s != [] {
      var init := s[..|s| - 1];
      assert forall i :: 0 <= i < |init| ==> p(init[i]) by {
        forall i | 0 <= i < |init| ensures p(init[i]) { assert init[i] == s[i]; }
      }
      WhereIdentity(init, p);
    }
  }

  /** Filtering a sequence without repetitions gives one without repetitions. */
  lemma {:induction false} WhereDistinct<T(!new)>(s: seq<T>, p: T -> bool)
    requires Distinct(s)
    ensures Distinct(Where(s, p))
    decreases |s|
  {
    if s != [] {
      var init := s[..|s| - 1];
      assert Distinct(init) by {
        forall i, j | 0 <= i < j < |init| ensures init[i] != init[j] {
          assert init[i] == s[i] && init[j] == s[j];
        }
      }
      WhereDistinct(init, p);
      var last := s[|s| - 1];
      assert last !in init by {
        forall i | 0 <= i < |init| ensures init[i] != last { assert init[i] == s[i]; }
      }
    }
  }

  /** Replacing one element that satisfies `p` by one that does not removes
      exactly one element from the filtered sequence. */
  lemma WhereUpdateDrops<T(!new)>(s: seq<T>, i: nat, x: T, p: T -> bool)
    requires i < |s| && p(s[i]) && !p(x)
    ensures |Where(s[i := x], p)| + 1 == |Where(s, p)|
  {
    var front, back := s[..i], s[i + 1..];
    assert s == front + ([s[i]] + back);
    assert s[i := x] == front + ([x] + back);
    WhereAppend(front, [s[i]] + back, p);
    WhereAppend(front, [x] + back, p);
    WhereAppend([s[i]], back, p);
    WhereAppend([x], back, p);
    assert Where([s[i]], p) == [s[i]] by { assert [s[i]][..0] == []; }
    assert Where([x], p) == [] by { assert [x][..0] == []; }
  }

  /** Two filters in a row are one filter by their conjunction. */
  lemma {:induction false} WhereWhere<T(!new)>(s: seq<T>, p: T -> bool, q: T -> bool, pq: T -> bool)
    requires forall x :: pq(x) == (p(x) && q(x))
    ensures Where(Where(s, p), q) == Where(s, pq)
    decreases |s|
  {
    if s != [] {
      var init := s[..|s| - 1];
      var last := s[|s| - 1];
      WhereWhere(init, p, q, pq);
      if p(last) {
        WhereAppend(Where(init, p), [last], q);
      }
    }
  }
}
