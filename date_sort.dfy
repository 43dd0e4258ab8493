/** The newest-first ordering that both the agenda and the blog put their
    entries in before anything is shown: `items.sort((a, b) => parseDate(b.date)
    - parseDate(a.date))`. The sort runs in place on the entries; `key` stands
    for "the date the entry resolves to". */
module DateSort {
  import opened Dates

  /** No entry is dated strictly before an entry that comes after it. */
  predicate NewestFirst<T>(s: seq<T>, key: T -> Date)
  {
    forall i, j | 0 <= i < j < |s| :: !Before(key(s[i]), key(s[j]))
  }

  /** In a newest-first list, a date strictly earlier than some entry's is
      strictly earlier than every entry before it too, and a date that an
      entry lies before is also after every entry that follows it. */
  lemma NewestFirstMonotone<T>(s: seq<T>, key: T -> Date, i: int, j: int, today: Date)
    requires NewestFirst(s, key) && 0 <= i <= j < |s|
    ensures Before(key(s[i]), today) ==> Before(key(s[j]), today)
    ensures !Before(key(s[j]), today) ==> !Before(key(s[i]), today)
  {
    if i < j {
      assert !Before(key(s[i]), key(s[j]));
    }
  }

  /** Insertion sort by adjacent swaps, moving an entry left only past entries
      that are strictly older; entries with equal dates keep their order. */
  method SortNewestFirst<T>(a: array<T>, key: T -> Date)
    modifies a
    ensures NewestFirst(a[..], key)
    ensures multiset(a[..]) == multiset(old(a[..]))
  {
    var i := 0;
    while i < a.Length
      invariant 0 <= i <= a.Length
      invariant forall p, q | 0 <= p < q < i :: !Before(key(a[p]), key(a[q]))
      invariant multiset(a[..]) == multiset(old(a[..]))
    {
      SinkNewer(a, key, i);
      i := i + 1;
    }
  }

  /** One insertion step: the entry at `i` moves left past the strictly older
      entries of the newest-first prefix `a[..i]`. */
  method SinkNewer<T>(a: array<T>, key: T -> Date, i: int)
    requires 0 <= i < a.Length
    requires forall p, q | 0 <= p < q < i :: !Before(key(a[p]), key(a[q]))
    modifies a
    ensures forall p, q | 0 <= p < q <= i :: !Before(key(a[p]), key(a[q]))
    ensures forall k | i < k < a.Length :: a[k] == old(a[k])
    ensures multiset(a[..]) == multiset(old(a[..]))
  {
    var j := i;
    while j > 0 && Before(key(a[j - 1]), key(a[j]))
      invariant 0 <= j <= i
      invariant SinkingAt(a[..], key, i, j)
      invariant forall k | i < k < a.Length :: a[k] == old(a[k])
      invariant multiset(a[..]) == multiset(old(a[..]))
    {
      ghost var before := a[..];
      a[j - 1], a[j] := a[j], a[j - 1];
      SinkStep(before, a[..], key, i, j);
      j := j - 1;
    }
    SinkDone(a[..], key, i, j);
  }

  /** The state of the insertion step while the moving entry sits at `j`:
      the prefix up to `i` is newest-first except around `j`, and the entries
      on either side of `j` are in order with each other. */
  ghost predicate SinkingAt<T>(s: seq<T>, key: T -> Date, i: int, j: int)
    requires 0 <= j <= i < |s|
  {
    (forall p, q | 0 <= p < q <= i && q != j :: !Before(key(s[p]), key(s[q]))) &&
    (0 < j < i ==> !Before(key(s[j - 1]), key(s[j + 1])))
  }

  /** Swapping the moving entry with a strictly older neighbour keeps the
      state of the insertion step, one place further left. */
  lemma SinkStep<T>(s: seq<T>, t: seq<T>, key: T -> Date, i: int, j: int)
    requires 0 < j <= i < |s| && SinkingAt(s, key, i, j)
    requires Before(key(s[j - 1]), key(s[j]))
    requires |t| == |s| && t[j - 1] == s[j] && t[j] == s[j - 1]
    requires forall k | 0 <= k < |s| && k != j - 1 && k != j :: t[k] == s[k]
    ensures SinkingAt(t, key, i, j - 1)
    ensures multiset(t) == multiset(s)
  {
    assert t == s[j - 1 := s[j]][j := s[j - 1]];
    forall p, q | 0 <= p < q <= i && q != j - 1
      ensures !Before(key(t[p]), key(t[q]))
    {
      if q == j {
        if p < j - 1 {
          assert !Before(key(s[p]), key(s[j - 1]));
        }
      } else if p == j - 1 {
        assert !Before(key(s[j - 1]), key(s[q]));
      } else if p == j {
        assert j < q;
        if j < i {
          assert q == j + 1 || !Before(key(s[j + 1]), key(s[q]));
        }
      }
    }
  }

  /** The insertion step stops where the moving entry is not newer than its
      left neighbour, or at the front: the prefix up to `i` is newest-first. */
  lemma SinkDone<T>(s: seq<T>, key: T -> Date, i: int, j: int)
    requires 0 <= j <= i < |s| && SinkingAt(s, key, i, j)
    requires j == 0 || !Before(key(s[j - 1]), key(s[j]))
    ensures forall p, q | 0 <= p < q <= i :: !Before(key(s[p]), key(s[q]))
  {
    forall p, q | 0 <= p < q <= i
      ensures !Before(key(s[p]), key(s[q]))
    {
      if q == j && p < j - 1 {
        assert !Before(key(s[p]), key(s[j - 1]));
      }
    }
  }
}
