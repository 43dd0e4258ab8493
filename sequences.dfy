/** Generic sequence operations the pages and the image tool share:
    `Array.filter`, de-duplication through a `Set`, and what they keep. */
module Sequences {

  /** The elements of `s` that satisfy `p`, in their order: `Array.filter`. */
  function Keep<T(!new)>(s: seq<T>, p: T -> bool): (r: seq<T>)
    ensures |r| <= |s|
    ensures forall x :: x in r <==> x in s && p(x)
    decreases |s|
  {
    if |s| == 0 then []
    else
      var rest := Keep(s[1..], p);
      assert forall x :: x in s <==> x == s[0] || x in s[1..];
      if p(s[0]) then [s[0]] + rest else rest
  }

  /** `r` holds between every element and each one after it. */
  predicate Ordered<T>(s: seq<T>, r: (T, T) -> bool)
  {
    forall i, j | 0 <= i < j < |s| :: r(s[i], s[j])
  }
  /** Keeping elements keeps them in order: a relation that holds between
      every element and each one after it still does afterwards. */
  lemma {:induction false} KeepOrdered<T(!new)>(s: seq<T>, p: T -> bool, r: (T, T) -> bool)
    requires Ordered(s, r)
    ensures Ordered(Keep(s, p), r)
    decreases |s|
  {
    if |s| > 0 {
      var rest := Keep(s[1..], p);
      assert Ordered(s[1..], r) by {
        forall i, j | 0 <= i < j < |s[1..]| ensures r(s[1..][i], s[1..][j]) {
          assert s[1..][i] == s[i + 1] && s[1..][j] == s[j + 1];
        }
      }
      KeepOrdered(s[1..], p, r);
      if p(s[0]) {
        var k := [s[0]] + rest;
        forall i, j | 0 <= i < j < |k|
          ensures r(k[i], k[j])
        {
          if i == 0 {
            var y := rest[j - 1];
            assert y in s[1..];
            var m :| 0 <= m < |s[1..]| && s[1..][m] == y;
            assert s[m + 1] == y;
            assert r(s[0], s[m + 1]);
          } else {
            assert k[i] == rest[i - 1] && k[j] == rest[j - 1];
          }
        }
      }
    }
  }

  /** A filter every element passes changes nothing. */
  lemma {:induction false} KeepAll<T(!new)>(s: seq<T>, p: T -> bool)
    requires forall x | x in s :: p(x)
    ensures Keep(s, p) == s
    decreases |s|
  {
    if |s| > 0 {
      KeepAll(s[1..], p);
      assert s == [s[0]] + s[1..];
    }
  }

  /** `[...new Set(s)]`: each value once, at its first occurrence. */
  function Dedup<T(==,!new)>(s: seq<T>): (r: seq<T>)
    ensures forall x :: x in r <==> x in s
    ensures forall x | x in r :: multiset(r)[x] == 1
    decreases |s|
  {
    if |s| == 0 then []
    else
      var init := Dedup(s[..|s| - 1]);
      var last := s[|s| - 1];
      assert s == s[..|s| - 1] + [last];
      assert forall x :: x in s <==> x in s[..|s| - 1] || x == last;
      if last in init then init else init + [last]
  }

  /** A value that occurs twice occurs at least twice in the multiset. */
  lemma TwiceCounted<T>(s: seq<T>, i: int, j: int)
    requires 0 <= i < j < |s| && s[i] == s[j]
    ensures multiset(s)[s[i]] >= 2
  {
    assert s == s[..j] + s[j..];
    assert s[i] in s[..j];
    assert s[j..][0] == s[i];
  }

  /** The positions in `s` of the elements `Keep` keeps. */
  function KeptIndices<T>(s: seq<T>, p: T -> bool): (ix: seq<nat>)
    ensures forall k | 0 <= k < |ix| :: ix[k] < |s|
  {
    KeptFrom(s, p, 0)
  }

  /** The positions of the kept elements, counted from `base`. */
  function KeptFrom<T>(s: seq<T>, p: T -> bool, base: nat): (ix: seq<nat>)
    ensures forall k | 0 <= k < |ix| :: base <= ix[k] < base + |s|
    decreases |s|
  {
    if |s| == 0 then []
    else if p(s[0]) then [base] + KeptFrom(s[1..], p, base + 1)
    else KeptFrom(s[1..], p, base + 1)
  }

  /** The kept elements form a subsequence of `s`: `Keep(s, p)[k]` is the
      element at the `k`-th of a strictly increasing list of positions. */
  lemma KeepIsSubsequence<T(!new)>(s: seq<T>, p: T -> bool)
    ensures var ix := KeptIndices(s, p);
            |ix| == |Keep(s, p)| && forall k | 0 <= k < |ix| :: Keep(s, p)[k] == s[ix[k]]
    ensures var ix := KeptIndices(s, p);
            forall k, m | 0 <= k < m < |ix| :: ix[k] < ix[m]
  {
    KeptFromSelect(s, p, 0);
    KeptFromIncrease(s, p, 0);
  }

  lemma {:induction false} KeptFromSelect<T(!new)>(s: seq<T>, p: T -> bool, base: nat)
    ensures |KeptFrom(s, p, base)| == |Keep(s, p)|
    ensures forall k | 0 <= k < |Keep(s, p)| :: Keep(s, p)[k] == s[KeptFrom(s, p, base)[k] - base]
    decreases |s|
  {
    if |s| > 0 {
      KeptFromSelect(s[1..], p, base + 1);
      var rest := KeptFrom(s[1..], p, base + 1);
      var kept := Keep(s[1..], p);
      forall k | 0 <= k < |kept|
        ensures kept[k] == s[rest[k] - base]
      {
        assert s[1..][rest[k] - (base + 1)] == s[rest[k] - base];
      }
      if p(s[0]) {
        assert Keep(s, p) == [s[0]] + kept;
        assert KeptFrom(s, p, base) == [base] + rest;
      }
    }
  }

  lemma {:induction false} KeptFromIncrease<T>(s: seq<T>, p: T -> bool, base: nat)
    ensures forall k, m | 0 <= k < m < |KeptFrom(s, p, base)| :: KeptFrom(s, p, base)[k] < KeptFrom(s, p, base)[m]
    decreases |s|
  {
    if |s| > 0 {
      KeptFromIncrease(s[1..], p, base + 1);
    }
  }

  /** A stricter test keeps no more elements, and only ones the looser test keeps. */
  lemma {:induction false} KeepStricter<T(!new)>(s: seq<T>, p: T -> bool, q: T -> bool)
    requires forall x | x in s :: p(x) ==> q(x)
    ensures |Keep(s, p)| <= |Keep(s, q)|
    ensures forall x | x in Keep(s, p) :: x in Keep(s, q)
    decreases |s|
  {
    if |s| > 0 {
      KeepStricter(s[1..], p, q);
    }
  }
  /** Filtering a concatenation filters each part. */
  lemma {:induction false} KeepAppend<T(!new)>(a: seq<T>, b: seq<T>, p: T -> bool)
    ensures Keep(a + b, p) == Keep(a, p) + Keep(b, p)
    decreases |a|
  {
    if |a| > 0 {
      assert (a + b)[1..] == a[1..] + b;
      KeepAppend(a[1..], b, p);
    } else {
      assert a + b == b;
    }
  }

  /** Filtering twice, with a second test that implies the first, is
      filtering once with the second test. */
  lemma {:induction false} KeepKeep<T(!new)>(s: seq<T>, p: T -> bool, q: T -> bool)
    requires forall x | x in s :: q(x) ==> p(x)
    ensures Keep(Keep(s, p), q) == Keep(s, q)
    decreases |s|
  {
    if |s| > 0 {
      KeepKeep(s[1..], p, q);
      if p(s[0]) {
        assert ([s[0]] + Keep(s[1..], p))[1..] == Keep(s[1..], p);
      }
    }
  }
}
