/** The repertoire page: the list of songs, narrowed by a search term and by
    the "video only" toggle, drawn as a striped table that is one column on
    narrow windows and two columns on wide ones. */
module Repertoire {
  import opened Strings
  import opened Sequences

  /** One song of the repertoire data: its number as written, its title, and
      a video link ("" when there is none). */
  datatype Song = Song(id: string, title: string, youtube: string)

  /** From this window width on the table has two columns. */
  const DesktopMinWidth := 737
  const NoSongs := "Geen nummers gevonden."

  /** The text that is searched and shown: `"id. title"`. */
  function Label(s: Song): string
  {
    s.id + ". " + s.title
  }

  /** The filter test, for an already lower-cased term. */
  predicate Visible(s: Song, term: string, youtubeOnly: bool)
  {
    Contains(Lower(Label(s)), term) && (!youtubeOnly || s.youtube != "")
  }

  function VisibleTest(term: string, youtubeOnly: bool): Song -> bool
  {
    s => Visible(s, term, youtubeOnly)
  }

  function VisibleSongs(songs: seq<Song>, term: string, youtubeOnly: bool): seq<Song>
  {
    Keep(songs, VisibleTest(term, youtubeOnly))
  }

  /** The shown songs are exactly the visible ones, in their order in the data. */
  lemma VisibleSongsSpec(songs: seq<Song>, term: string, youtubeOnly: bool)
    ensures forall s :: s in VisibleSongs(songs, term, youtubeOnly) <==> s in songs && Visible(s, term, youtubeOnly)
    ensures var ix := KeptIndices(songs, VisibleTest(term, youtubeOnly));
            |ix| == |VisibleSongs(songs, term, youtubeOnly)| &&
            (forall k | 0 <= k < |ix| :: VisibleSongs(songs, term, youtubeOnly)[k] == songs[ix[k]]) &&
            (forall k, m | 0 <= k < m < |ix| :: ix[k] < ix[m])
  {
    KeepIsSubsequence(songs, VisibleTest(term, youtubeOnly));
  }

  /** Turning on "video only" can only hide songs. */
  lemma YoutubeOnlyShrinks(songs: seq<Song>, term: string)
    ensures |VisibleSongs(songs, term, true)| <= |VisibleSongs(songs, term, false)|
    ensures forall s | s in VisibleSongs(songs, term, true) :: s in VisibleSongs(songs, term, false)
  {
    KeepStricter(songs, VisibleTest(term, true), VisibleTest(term, false));
  }

  /** An empty search with every song allowed shows the whole list. */
  lemma EmptySearchShowsAll(songs: seq<Song>)
    ensures VisibleSongs(songs, "", false) == songs
  {
    forall s | s in songs
      ensures Visible(s, "", false)
    {
      ContainsEmpty(Lower(Label(s)));
    }
    KeepAll(songs, VisibleTest("", false));
  }

  // ---------------------------------------------------------------- striping

  /** Whether the `i`-th shown row is gray: by pairs on a wide window (each
      pair is one line of the two-column grid), alternately on a narrow one. */
  predicate Gray(i: nat, desktop: bool)
  {
    if desktop then (i / 2) % 2 == 0 else i % 2 == 0
  }

  /** Seen as lines of cells, the stripes alternate: on a wide window the two
      cells of a grid line share a colour and the next line has the other;
      on a narrow window each row differs from the next. */
  lemma StripesAlternate(i: nat)
    ensures Gray(2 * i, true) == Gray(2 * i + 1, true)
    ensures Gray(2 * i, true) != Gray(2 * i + 2, true)
    ensures Gray(i, false) != Gray(i + 1, false)
    ensures Gray(0, true) && Gray(0, false)
  {
  }

  /** Whether the `i`-th of `count` rows loses its bottom border: the last
      row, and on a wide window with an even count the row before it. */
  predicate Borderless(i: nat, count: nat, desktop: bool)
  {
    i == count - 1 || (desktop && i == count - 2 && count % 2 == 0)
  }

  /** Exactly the cells of the bottom line of the table lose their border:
      on a wide window the bottom grid line, on a narrow one the last row. */
  lemma BorderlessIsBottomLine(i: nat, count: nat)
    requires i < count
    ensures Borderless(i, count, true) <==> i / 2 == (count - 1) / 2
    ensures Borderless(i, count, false) <==> i == count - 1
  {
  }

  datatype SongRow = SongRow(song: Song, gray: bool, borderless: bool)

  /** What the table body holds. */
  datatype Listing = NoResultsRow | Rows(rows: seq<SongRow>)

  /** The rows drawn for the visible songs, in order. */
  function RowsFor(visible: seq<Song>, desktop: bool): (rows: seq<SongRow>)
    ensures |rows| == |visible|
  {
    seq(|visible|, i requires 0 <= i < |visible| =>
      SongRow(visible[i], Gray(i, desktop), Borderless(i, |visible|, desktop)))
  }

  /** `renderRepertoire` as a value: the no-results row alone when nothing
      is visible, otherwise one row per visible song. */
  function ListingFor(songs: seq<Song>, term: string, youtubeOnly: bool, width: int): (l: Listing)
    ensures l == NoResultsRow <==> VisibleSongs(songs, term, youtubeOnly) == []
  {
    var visible := VisibleSongs(songs, term, youtubeOnly);
    if |visible| == 0 then NoResultsRow else Rows(RowsFor(visible, width >= DesktopMinWidth))
  }

  /** A non-empty table always ends in a row without a bottom border, and no
      row above the bottom line loses it. */
  lemma ListingBorders(songs: seq<Song>, term: string, youtubeOnly: bool, width: int)
    requires ListingFor(songs, term, youtubeOnly, width).Rows?
    ensures var rows := ListingFor(songs, term, youtubeOnly, width).rows;
            |rows| > 0 && rows[|rows| - 1].borderless &&
            forall i | 0 <= i < |rows| - 2 :: !rows[i].borderless
  {
  }

  // ---------------------------------------------------------------- the page

  class RepertoirePage {
    const songs: seq<Song>
    var showYoutubeOnly: bool
    /** Whether the "all" and the "video" button carry the `active` class. */
    var allActive: bool
    var videoActive: bool
    var body: Listing

    /** Exactly one button is active, the one matching the filter. */
    ghost predicate Valid()
      reads this
    {
      videoActive == showYoutubeOnly && allActive == !showYoutubeOnly
    }

    /** Page load: every song allowed, the "all" button active as the page
        markup has it, and a first render with the initial search text. */
    constructor (data: seq<Song>, term: string, width: int)
      ensures Valid() && songs == data && !showYoutubeOnly
      ensures body == ListingFor(songs, Lower(term), false, width)
    {
      songs := data;
      showYoutubeOnly := false;
      allActive := true;
      videoActive := false;
      body := NoResultsRow;
      new;
      Render(term, width);
    }

    /** `renderRepertoire`: rebuild the table body row by row. */
    method Render(term: string, width: int)
      modifies this`body
      ensures body == ListingFor(songs, Lower(term), showYoutubeOnly, width)
    {
      var searchTerm := Lower(term);
      var isDesktop := width >= DesktopMinWidth;
      var visibleItems := VisibleSongs(songs, searchTerm, showYoutubeOnly);
      if |visibleItems| == 0 {
        body := NoResultsRow;
        return;
      }
      var rows: seq<SongRow> := [];
      var index := 0;
      while index < |visibleItems|
        invariant 0 <= index <= |visibleItems|
        invariant rows == RowsFor(visibleItems, isDesktop)[..index]
      {
        var shouldBeGray := if isDesktop then (index / 2) % 2 == 0 else index % 2 == 0;
        var isLast := index == |visibleItems| - 1;
        var isSecondLast := index == |visibleItems| - 2;
        var noBorder := isLast || (isDesktop && isSecondLast && |visibleItems| % 2 == 0);
        rows := rows + [SongRow(visibleItems[index], shouldBeGray, noBorder)];
        index := index + 1;
      }
      body := Rows(rows);
    }

    /** The "all" button. */
    method ClickAll(term: string, width: int)
      modifies this
      ensures Valid() && !showYoutubeOnly
      ensures body == ListingFor(songs, Lower(term), false, width)
    {
      showYoutubeOnly := false;
      allActive := true;
      videoActive := false;
      Render(term, width);
    }

    /** The "video" button. */
    method ClickVideo(term: string, width: int)
      modifies this
      ensures Valid() && showYoutubeOnly
      ensures body == ListingFor(songs, Lower(term), true, width)
    {
      showYoutubeOnly := true;
      videoActive := true;
      allActive := false;
      Render(term, width);
    }
  }
}
