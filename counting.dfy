/** Counting the elements of a sequence that satisfy a predicate, with the
    facts the scaler model needs about such counts. */
module Counting {

  /** The number of elements of `s` for which `p` holds, counted from the
      front, one element at a time (as a `for … range` loop does). */
  function Count<T>(s: seq<T>, p: T -> bool): nat
  {
    if s == [] then 0 else Count(s[..|s| - 1], p) + (if p(s[|s| - 1]) then 1 else 0)
  }

  /** Counting a concatenation adds the counts of its parts. */
  lemma {:induction false} CountAppend<T>(a: seq<T>, b: seq<T>, p: T -> bool)
    ensures Count(a + b, p) == Count(a, p) + Count(b, p)
    decreases |b|
  {
    if b != [] {
      var b' := b[..|b| - 1];
      assert (a + b)[..|a + b| - 1] == a + b';
      assert (a + b)[|a + b| - 1] == b[|b| - 1];
      CountAppend(a, b', p);
    } else {
      assert a + b == a;
    }
  }

  /** No more elements are counted than there are. */
  lemma {:induction false} CountAtMostLength<T>(s: seq<T>, p: T -> bool)
    ensures Count(s, p) <= |s|
  {
    if s != [] {
      CountAtMostLength(s[..|s| - 1], p);
    }
  }

  /** The count is positive exactly when some element satisfies `p`. */
  lemma {:induction false} CountPositiveIff<T>(s: seq<T>, p: T -> bool)
    ensures Count(s, p) > 0 <==> exists i :: 0 <= i < |s| && p(s[i])
  {
    if s != [] {
      var s' := s[..|s| - 1];
      CountPositiveIff(s', p);
      if Count(s, p) > 0 && !p(s[|s| - 1]) {
        var i :| 0 <= i < |s'| && p(s'[i]);
        assert s[i] == s'[i];
      }
      if exists i :: 0 <= i < |s| && p(s[i]) {
        var i :| 0 <= i < |s| && p(s[i]);
        if i < |s| - 1 {
          assert s'[i] == s[i];
        }
      }
    }
  }

  /** Removing an element that is not counted leaves the count unchanged. */
  lemma CountRemoveUncounted<T>(s: seq<T>, i: nat, p: T -> bool)
    requires i < |s| && !p(s[i])
    ensures Count(s[..i] + s[i + 1..], p) == Count(s, p)
  {
    assert s == s[..i] + [s[i]] + s[i + 1..];
    CountAppend(s[..i] + [s[i]], s[i + 1..], p);
    CountAppend(s[..i], [s[i]], p);
    CountAppend(s[..i], s[i + 1..], p);
    assert [s[i]][..0] == [];
  }
}
