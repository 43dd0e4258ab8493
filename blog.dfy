/** The blog page: posts sorted newest first, narrowed by a search term and a
    year, shown six at a time with more loaded as the reader scrolls, and
    reordered so that a two-column layout reads row by row. */
module Blog {
  import opened Strings
  import opened Dates
  import opened DateResolver
  import opened DateSort
  import opened Sequences

  /** One post of the blog data; a field the data leaves out is "". */
  datatype Post = Post(date: string, title: string, image: string, content: string, link: string)

  /** The date a post is sorted and filtered by. */
  function PostDate(p: Post): (d: Date)
    ensures Valid(d)
  {
    Resolve(p.date)
  }

  const ItemsPerBatch := 6
  /** At this window width and below the posts are in one column. */
  const SingleColumnWidth := 736
  const NoResults := "Geen resultaten gevonden."
  const NoPosts := "Geen blog items gevonden."
  /** The year every unreadable date falls in; it is not offered as an option. */
  const SentinelYear := "1970"

  // ------------------------------------------------------------ interleaving

  /** The items at positions 0, 2, 4, …: the left column. */
  function Evens<T>(s: seq<T>): (r: seq<T>)
    ensures |r| == (|s| + 1) / 2
    ensures forall k | 0 <= k < |r| :: r[k] == s[2 * k]
    decreases |s|
  {
    if |s| == 0 then [] else [s[0]] + Odds(s[1..])
  }

  /** The items at positions 1, 3, 5, …: the right column. */
  function Odds<T>(s: seq<T>): (r: seq<T>)
    ensures |r| == |s| / 2
    ensures forall k | 0 <= k < |r| :: r[k] == s[2 * k + 1]
    decreases |s|
  {
    if |s| == 0 then [] else Evens(s[1..])
  }

  /** Appending an item appends it to the column its position belongs to. */
  lemma {:induction false} EvensOddsSnoc<T>(s: seq<T>, x: T)
    ensures Evens(s + [x]) == if |s| % 2 == 0 then Evens(s) + [x] else Evens(s)
    ensures Odds(s + [x]) == if |s| % 2 == 1 then Odds(s) + [x] else Odds(s)
    decreases |s|
  {
    if |s| > 0 {
      EvensOddsSnoc(s[1..], x);
      assert (s + [x])[1..] == s[1..] + [x];
    }
  }

  /** Splitting into the two columns loses and duplicates nothing. */
  lemma {:induction false} EvensOddsPermutation<T>(s: seq<T>)
    ensures multiset(Evens(s)) + multiset(Odds(s)) == multiset(s)
    decreases |s|
  {
    if |s| > 0 {
      EvensOddsPermutation(s[1..]);
      assert s == [s[0]] + s[1..];
    }
  }

  /** `interleaveForColumns`: on a narrow window or with two posts or fewer
      the order is kept; otherwise the left column takes the posts at even
      positions and the right column those at odd positions. */
  function Interleaved<T>(items: seq<T>, width: int): seq<T>
  {
    if width <= SingleColumnWidth || |items| <= 2 then items else Evens(items) + Odds(items)
  }

  /** What a reader of the two columns sees row by row: with the left column
      holding the first `(n + 1) / 2` items, left then right on each row. */
  function RowByRow<T>(r: seq<T>): (v: seq<T>)
    ensures |v| == |r|
  {
    var half := (|r| + 1) / 2;
    seq(|r|, i requires 0 <= i < |r| => if i % 2 == 0 then r[i / 2] else r[half + i / 2])
  }

  /** Interleaving only reorders the posts, and in two columns the reader sees
      them in their original order. */
  lemma InterleavedReadsInOrder<T>(items: seq<T>, width: int)
    ensures multiset(Interleaved(items, width)) == multiset(items)
    ensures width > SingleColumnWidth && |items| > 2 ==> RowByRow(Interleaved(items, width)) == items
  {
    EvensOddsPermutation(items);
    if width > SingleColumnWidth && |items| > 2 {
      var r := Interleaved(items, width);
      var v := RowByRow(r);
      forall i | 0 <= i < |items|
        ensures v[i] == items[i]
      {
        if i % 2 == 0 {
          assert v[i] == Evens(items)[i / 2];
        } else {
          assert v[i] == Odds(items)[i / 2];
        }
      }
    }
  }

  /** The loop that builds the two columns. */
  method InterleaveForColumns<T>(items: seq<T>, width: int) returns (r: seq<T>)
    ensures r == Interleaved(items, width)
  {
    if width <= SingleColumnWidth || |items| <= 2 {
      return items;
    }
    var col1: seq<T> := [];
    var col2: seq<T> := [];
    var i := 0;
    while i < |items|
      invariant 0 <= i <= |items|
      invariant col1 == Evens(items[..i]) && col2 == Odds(items[..i])
    {
      EvensOddsSnoc(items[..i], items[i]);
      assert items[..i + 1] == items[..i] + [items[i]];
      if i % 2 == 0 {
        col1 := col1 + [items[i]];
      } else {
        col2 := col2 + [items[i]];
      }
      i := i + 1;
    }
    assert items[..i] == items;
    r := col1 + col2;
  }

  // ------------------------------------------------------------ batches

  /** How many posts are shown after one more batch. */
  function BatchEnd(shown: nat, n: nat): (e: nat)
    ensures shown < n ==> shown < e <= n && e - shown <= ItemsPerBatch
    ensures e == n <==> shown + ItemsPerBatch >= n
  {
    if shown + ItemsPerBatch < n then shown + ItemsPerBatch else n
  }

  /** How many posts are shown after the first render and `k` further loads. */
  function ShownAfter(k: nat, n: nat): nat
  {
    if k == 0 then BatchEnd(0, n) else BatchEnd(ShownAfter(k - 1, n), n)
  }

  /** Each load adds a full batch until the list runs out, so scrolling shows
      every post after `(n - 1) / 6` loads. */
  lemma {:induction false} ScrollingShowsAll(k: nat, n: nat)
    ensures ShownAfter(k, n) == if ItemsPerBatch * (k + 1) < n then ItemsPerBatch * (k + 1) else n
    ensures n > 0 ==> ShownAfter((n - 1) / ItemsPerBatch, n) == n
  {
    if k > 0 {
      ScrollingShowsAll(k - 1, n);
    }
    if n > 0 {
      ShownAfterFormula((n - 1) / ItemsPerBatch, n);
    }
  }

  lemma {:induction false} ShownAfterFormula(k: nat, n: nat)
    ensures ShownAfter(k, n) == if ItemsPerBatch * (k + 1) < n then ItemsPerBatch * (k + 1) else n
  {
    if k > 0 {
      ShownAfterFormula(k - 1, n);
    }
  }

  // ------------------------------------------------------------ filtering

  /** `getFullYear().toString()` of a post's date. */
  function YearOf(p: Post, key: Post -> Date): string
  {
    IntToString(key(p).year)
  }

  /** `filterPosts`' test, for an already lower-cased search term: the term
      occurs in the title or the content (ignoring case) and the post is from
      the chosen year, when one is chosen. */
  predicate Matches(p: Post, key: Post -> Date, term: string, year: string)
  {
    (Contains(Lower(p.title), term) || Contains(Lower(p.content), term)) &&
    (year == "" || YearOf(p, key) == year)
  }

  function MatchTest(key: Post -> Date, term: string, year: string): Post -> bool
  {
    p => Matches(p, key, term, year)
  }

  function Matching(posts: seq<Post>, key: Post -> Date, term: string, year: string): seq<Post>
  {
    Keep(posts, MatchTest(key, term, year))
  }

  /** The filtered list holds exactly the matching posts, in their order, so
      a newest-first list stays newest first. */
  lemma MatchingSpec(posts: seq<Post>, key: Post -> Date, term: string, year: string)
    ensures var r := Matching(posts, key, term, year);
            |r| <= |posts| && forall p :: p in r <==> p in posts && Matches(p, key, term, year)
    ensures NewestFirst(posts, key) ==> NewestFirst(Matching(posts, key, term, year), key)
  {
    if NewestFirst(posts, key) {
      var newer := (a, b) => !Before(key(a), key(b));
      assert Ordered(posts, newer);
      KeepOrdered(posts, MatchTest(key, term, year), newer);
      var k := Matching(posts, key, term, year);
      forall i, j | 0 <= i < j < |k|
        ensures !Before(key(k[i]), key(k[j]))
      {
        assert newer(k[i], k[j]);
      }
    }
  }

  /** An empty search and no chosen year show every post. */
  lemma MatchingEverything(posts: seq<Post>, key: Post -> Date)
    ensures Matching(posts, key, "", "") == posts
  {
    forall p | p in posts
      ensures Matches(p, key, "", "")
    {
      ContainsEmpty(Lower(p.title));
    }
    KeepAll(posts, MatchTest(key, "", ""));
  }

  // ------------------------------------------------------------ year options

  /** `getFullYear().toString()` of every post, in order. */
  function Years(posts: seq<Post>, key: Post -> Date): (ys: seq<string>)
    ensures |ys| == |posts| && forall i | 0 <= i < |posts| :: ys[i] == YearOf(posts[i], key)
  {
    seq(|posts|, i requires 0 <= i < |posts| => YearOf(posts[i], key))
  }

  function NotSentinel(y: string): bool
  {
    y != SentinelYear
  }

  /** `[...new Set(years)].sort().reverse()` without "1970": the options of
      the year selector. */
  function YearOptions(posts: seq<Post>, key: Post -> Date): seq<string>
  {
    Keep(Reverse(Sort(Dedup(Years(posts, key)))), NotSentinel)
  }

  /** Strictly descending in code-point order; in particular no year twice. */
  predicate Descending(s: seq<string>)
  {
    forall i, j | 0 <= i < j < |s| :: LexLess(s[j], s[i])
  }

  /** The options are the years some post falls in, other than 1970, each
      once, from the greatest down. */
  lemma YearOptionsSpec(posts: seq<Post>, key: Post -> Date)
    ensures var r := YearOptions(posts, key);
            forall y :: y in r <==> y != SentinelYear && exists i | 0 <= i < |posts| :: YearOf(posts[i], key) == y
    ensures Descending(YearOptions(posts, key))
  {
    var years := Years(posts, key);
    SortedYears(years);
    YearsOfPosts(posts, key);
    YearOptionsDescending(years);
  }

  lemma YearsOfPosts(posts: seq<Post>, key: Post -> Date)
    ensures forall y :: y in Years(posts, key) <==> exists i | 0 <= i < |posts| :: YearOf(posts[i], key) == y
  {
    var years := Years(posts, key);
    forall y | exists i | 0 <= i < |posts| :: YearOf(posts[i], key) == y
      ensures y in years
    {
      var i :| 0 <= i < |posts| && YearOf(posts[i], key) == y;
      assert years[i] == y;
    }
  }

  lemma YearOptionsDescending(years: seq<string>)
    requires Descending(Reverse(Sort(Dedup(years))))
    ensures Descending(Keep(Reverse(Sort(Dedup(years))), NotSentinel))
  {
    var rev := Reverse(Sort(Dedup(years)));
    var older := (a, b) => LexLess(b, a);
    assert Ordered(rev, older);
    KeepOrdered(rev, NotSentinel, older);
    var r := Keep(rev, NotSentinel);
    forall i, j | 0 <= i < j < |r|
      ensures LexLess(r[j], r[i])
    {
      assert older(r[i], r[j]);
    }
  }

  /** Sorting the distinct years and reversing gives the same years, strictly
      descending. */
  lemma SortedYears(years: seq<string>)
    ensures var rev := Reverse(Sort(Dedup(years)));
            Descending(rev) && forall y :: y in rev <==> y in years
  {
    var d := Dedup(years);
    var sorted := Sort(d);
    var rev := Reverse(sorted);
    forall y
      ensures y in sorted <==> y in d
    {
      assert y in sorted <==> y in multiset(sorted);
      assert y in d <==> y in multiset(d);
    }
    forall y | y in sorted
      ensures y in rev
    {
      var i :| 0 <= i < |sorted| && sorted[i] == y;
      assert rev[|sorted| - 1 - i] == y;
    }
    SortedDistinctAscending(d, sorted);
  }

  /** Sorting a list without repetitions gives a strictly ascending list. */
  lemma SortedDistinctAscending(d: seq<string>, sorted: seq<string>)
    requires forall x | x in d :: multiset(d)[x] == 1
    requires SortedAsc(sorted) && multiset(sorted) == multiset(d)
    ensures forall i, j | 0 <= i < j < |sorted| :: LexLess(sorted[i], sorted[j])
  {
    forall i, j | 0 <= i < j < |sorted|
      ensures LexLess(sorted[i], sorted[j])
    {
      assert sorted[i] != sorted[j] by {
        if sorted[i] == sorted[j] {
          TwiceCounted(sorted, i, j);
          assert false;
        }
      }
    }
  }

  /** Choosing an offered year, with an empty search, leaves at least one post. */
  lemma YearOptionSelectsPosts(posts: seq<Post>, key: Post -> Date, y: string)
    requires y in YearOptions(posts, key)
    ensures Matching(posts, key, "", y) != []
  {
    YearOptionsSpec(posts, key);
    var i :| 0 <= i < |posts| && YearOf(posts[i], key) == y;
    ContainsEmpty(Lower(posts[i].title));
    MatchingSpec(posts, key, "", y);
    assert posts[i] in Matching(posts, key, "", y);
  }

  // ------------------------------------------------------------ the page

  /** What the post container holds: a message, or the posts in display order. */
  datatype Container = Message(text: string) | Posts(items: seq<Post>)

  class BlogPage {
    /** All posts, sorted newest first in place once loaded. */
    var blogData: array<Post>
    /** The posts the current search and year let through. */
    var currentData: seq<Post>
    var displayedCount: nat
    var isLoading: bool
    var container: Container
    var loadMoreVisible: bool
    var yearOptions: seq<string>

    ghost predicate Valid()
      reads this
    {
      displayedCount <= |currentData|
    }

    /** The state `renderBlog` leaves behind: the first batch after a reset,
        one batch more after an append. */
    ghost predicate RenderedFrom(append: bool, before: nat, width: int)
      reads this
    {
      var n := |currentData|;
      var start := if append then before else 0;
      if n == 0 then
        container == Message(NoResults) && !loadMoreVisible && displayedCount == start
      else
        displayedCount == BatchEnd(start, n) &&
        container == Posts(Interleaved(currentData[..displayedCount], width)) &&
        loadMoreVisible == (displayedCount < n)
    }

    /** Loading the blog: with posts, `initializeBlog` sorts them, fills the
        year selector and renders the first batch; without, `showNoData`. */
    constructor (data: seq<Post>, width: int)
      ensures Valid() && fresh(blogData) && !isLoading
      ensures multiset(blogData[..]) == multiset(data)
      ensures |data| == 0 ==>
                currentData == [] && yearOptions == [] && displayedCount == 0 &&
                container == Message(NoPosts) && !loadMoreVisible
      ensures |data| > 0 ==>
                NewestFirst(blogData[..], PostDate) && currentData == blogData[..] &&
                yearOptions == YearOptions(blogData[..], PostDate) &&
                RenderedFrom(false, 0, width)
    {
      var a := new Post[|data|](i requires 0 <= i < |data| => data[i]);
      assert a[..] == data;
      blogData := a;
      currentData := [];
      displayedCount := 0;
      isLoading := false;
      container := Posts([]);
      loadMoreVisible := false;
      yearOptions := [];
      new;
      if |data| > 0 {
        InitializeBlog(width);
      } else {
        container := Message(NoPosts);
      }
    }

    /** `initializeBlog`: sort in place, show every post, offer the years,
        render the first batch. */
    method InitializeBlog(width: int)
      requires !isLoading && blogData.Length > 0
      modifies this, blogData
      ensures blogData == old(blogData) && multiset(blogData[..]) == multiset(old(blogData[..]))
      ensures Valid() && !isLoading
      ensures NewestFirst(blogData[..], PostDate) && currentData == blogData[..]
      ensures yearOptions == YearOptions(blogData[..], PostDate)
      ensures RenderedFrom(false, 0, width)
    {
      SortNewestFirst(blogData, PostDate);
      currentData := blogData[..];
      yearOptions := YearOptions(blogData[..], PostDate);
      displayedCount := 0;
      Render(false, width);
    }

    /** `renderBlog(append)`. */
    method Render(append: bool, width: int)
      requires Valid()
      modifies this`isLoading, this`displayedCount, this`container, this`loadMoreVisible
      ensures Valid()
      ensures old(isLoading) && append ==>
                isLoading && displayedCount == old(displayedCount) &&
                container == old(container) && loadMoreVisible == old(loadMoreVisible)
      ensures !(old(isLoading) && append) ==> !isLoading && RenderedFrom(append, old(displayedCount), width)
    {
      if isLoading && append {
        return;
      }
      isLoading := true;
      if !append {
        container := Posts([]);
        displayedCount := 0;
      }
      var start := displayedCount;
      var end := if displayedCount + ItemsPerBatch < |currentData| then displayedCount + ItemsPerBatch else |currentData|;
      var itemsToShow := currentData[start..end];
      if |currentData| == 0 {
        container := Message(NoResults);
        loadMoreVisible := false;
        isLoading := false;
      } else {
        if append {
          var interleaved := InterleaveForColumns(currentData[..end], width);
          container := Posts(interleaved);
        } else {
          var interleaved := InterleaveForColumns(itemsToShow, width);
          assert itemsToShow == currentData[..end];
          container := Posts(container.items + interleaved);
        }
        displayedCount := end;
        loadMoreVisible := !(displayedCount >= |currentData|);
        isLoading := false;
      }
    }

    /** `filterPosts`: keep the posts matching the lower-cased search term
        and the chosen year, then render from the top. */
    method FilterPosts(searchTerm: string, selectedYear: string, width: int)
      requires Valid()
      modifies this`currentData, this`isLoading, this`displayedCount, this`container, this`loadMoreVisible
      ensures Valid()
      ensures currentData == Matching(blogData[..], PostDate, Lower(searchTerm), selectedYear)
      ensures !isLoading && RenderedFrom(false, 0, width)
    {
      currentData := Matching(blogData[..], PostDate, Lower(searchTerm), selectedYear);
      displayedCount := 0;
      Render(false, width);
    }

    /** The scroll observer: near the bottom, with posts left to show and no
        render under way, one more batch is appended. */
    method OnScroll(intersecting: bool, width: int)
      requires Valid()
      modifies this`isLoading, this`displayedCount, this`container, this`loadMoreVisible
      ensures Valid()
      ensures var load := intersecting && old(displayedCount) < |currentData| && !old(isLoading);
              (load ==> !isLoading && RenderedFrom(true, old(displayedCount), width) &&
                        displayedCount > old(displayedCount)) &&
              (!load ==> displayedCount == old(displayedCount) && container == old(container) &&
                         isLoading == old(isLoading) && loadMoreVisible == old(loadMoreVisible))
    {
      if intersecting && displayedCount < |currentData| && !isLoading {
        Render(true, width);
      }
    }
  }
}
