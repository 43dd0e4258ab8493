# Anyway website: dates, agenda, blog, repertoire and image upkeep

The website of the singing group Anyway is a static site. Its pages read
their data from YAML and JavaScript files and draw it in the browser.
Beside the site sits a Python maintenance script that keeps the blog's
images tidy. This project models the parts of both whose behaviour can be
stated exactly, and proves properties about them in Dafny.

- **Dates** (`dates.dfy`, `months.dfy`, `resolver.dfy`). `parseDate` turns a
  free-text Dutch or English date label into a date. It works in a fixed
  order: trim and lower-case; collapse a day list such as "3,4,5 juni 2022"
  to its first day; replace the Dutch month names by English ones, entry by
  entry of a 35-entry table; then try the host's date parser, the numeric
  form `D-M-YYYY`, and the first embedded `d word yyyy`. When all three
  fail, the result is the epoch sentinel 1 January 1970. `isPast` compares
  the result with the start of the current day. Dates are calendar triples,
  and the current day is a parameter.
- **Agenda page** (`date_sort.dfy`, `agenda.dfy`).
  - The shows are sorted newest first, in place.
  - The next show is the one just before the first past show.
  - The table starts on that show's page and shows ten rows per page.
  - It is paged by two buttons (with a guard against a click that echoes a
    touch) and by horizontal swipes.
- **Blog page** (`blog.dfy`).
  - Posts are sorted newest first and shown in batches of six. Each batch
    is reordered so that two CSS columns read row by row.
  - Posts are filtered by search term and year. The year selector offers
    each year once, newest first, never 1970.
  - Scrolling appends the next batch.
- **Repertoire page** (`repertoire.dfy`).
  - Songs are filtered by search term and by the "video only" toggle.
  - The rows are striped and drawn with borders in one column on narrow
    windows and two columns on wide ones.
- **Blog images script** (`blog_images.dfy`, `blog_yaml.dfy`,
  `image_finders.dfy`, `visual_duplicates.dfy`).
  - The date prefix of an image name comes from the Dutch date text.
  - The title is turned into a slug, and names are checked against the
    `YYYYMMDD_slug.ext` convention.
  - A line-based reader pulls title, date and image out of the blog file.
  - Three finders look for images to clean up:
    - byte-identical copies, each paired with the correctly named file last
      seen with the same content (the copy itself may be correctly named
      too, see Findings);
    - images no entry refers to;
    - perceptually similar images, clustered by a union-find with path
      compression.

The two date readers disagree on labels naming two days. For "A en B maand
YYYY" the script's file name takes day A, while the site resolves the text
to day B (`BlogImages.FileDayAndShownDay`). In the model, which has no time
zones, the site also cannot tell "1 januari 1970" from an unreadable label
(`DateResolver.SentinelCollision`).

Shared helpers:
- `wrappers.dfy`: `Option`.
- `strings.dfy`: ASCII case, trimming, decimal digits, code-point order, an
  insertion sort on strings, splitting.
- `sequences.dfy`: order-preserving filtering, de-duplication.

## Model

| member | source | states |
|---|---|---|
| `Dates.DaysInMonth` | assets/js/utils.js:39 | Month lengths of the Gregorian calendar: 31 exactly for the seven long months, 29 in February exactly in leap years. |
| `Dates.BeforeStrictTotalOrder` | assets/js/utils.js:58 | The date comparison `<` is irreflexive, asymmetric, transitive and total on calendar triples. |
| `Dates.NextPrevInverse` | assets/js/utils.js:39 | The following day and the preceding day undo each other on every valid date. |
| `Dates.NextIsImmediate` | assets/js/utils.js:39 | No date lies strictly between a date and the next day. |
| `Dates.Advance` | assets/js/utils.js:39 | Moving a date by k days gives a valid date, later for positive k, earlier for negative k, and the same date for 0. |
| `Dates.JsYear` | assets/js/utils.js:39 | A year argument 0..99 in the `Date` constructor means 1900..1999; other years are taken as written. |
| `Dates.MakeDate` | assets/js/utils.js:39 | The constructor `new Date(y, m, d)` always yields a valid date, rolling an overflowing day into later months. |
| `Dates.MakeDateExact` | assets/js/utils.js:39 | A valid day and month (month index one less) are taken as written, for years outside 0..99. |
| `Dates.MakeDateOverflow` | assets/js/utils.js:39 | A day past the end of its month continues into the next month (for example 30 February 2023 is 2 March). |
| `MonthNames.TranslateDutchMonth` | assets/js/utils.js:20-31 | Running the whole month table over a full Dutch month name yields its English name, although later, shorter keys also match inside the result. |
| `MonthNames.AbbreviatedValue` | assets/js/utils.js:23-24 | Each of the 23 abbreviated keys maps to the first three letters of its month's English name. |
| `MonthNames.TranslateAbbreviation` | assets/js/utils.js:20-31 | Running the whole table over an abbreviated key gives the three-letter English name, with a dot left over only for "mrt." and "okt." (the undotted key fires first). |
| `MonthNames.AbbreviationExamples` | assets/js/utils.js:20-31 | "nov." becomes "Nov", "sept." becomes "Sep", "mrt." becomes "Mar." and "okt" becomes "Oct". |
| `MonthNames.TranslateAroundSpace` | assets/js/utils.js:28-31 | No month key contains a space, so translating "a b" translates a and b separately. |
| `MonthNames.NoLettersUntouched` | assets/js/utils.js:28-31 | Text with no letters (digits, separators) passes the month table unchanged. |
| `MonthNames.EnglishStable` | assets/js/utils.js:28-31 | After month m is translated, the later table entries leave the English name alone. |
| `DateResolver.MultiDayComplete` | assets/js/utils.js:14-17 | Every label of the form `d(,\s*d)+ word yyyy` is matched by the day-list rule, which yields its first day, the word and the year. |
| `DateResolver.NotMultiDay` | assets/js/utils.js:14-17 | A day not followed by a comma is never taken as a day list. |
| `DateResolver.NumericComplete` | assets/js/utils.js:38 | Every `D[-/.]M[-/.]YYYY` text with one- or two-digit day and month is matched and read as day, month, year. |
| `DateResolver.FirstEmbedded` | assets/js/utils.js:44 | The embedded search returns the first position where `\d{1,2}\s+[a-z]+\.?\s+\d{4}` matches, and none when no position matches. |
| `DateResolver.FirstEmbeddedAt` | assets/js/utils.js:44 | A match at position k with none before it is the one the search returns. |
| `DateResolver.HostParse` | assets/js/utils.js:34 | The narrow stand-in for the host parser only returns valid dates. |
| `DateResolver.HostParseOf` | assets/js/utils.js:34 | The host parser reads "D EnglishMonth YYYY" as that calendar day when the day exists. |
| `DateResolver.HostParseNoSpace` | assets/js/utils.js:34 | The stand-in for the host parser never reads a text without a space. |
| `DateResolver.Resolve` | assets/js/utils.js:6-51 | `parseDate` is total on text labels: it always returns a valid date, and the sentinel for an empty label. |
| `DateResolver.AttemptDirect` | assets/js/utils.js:34-35 | The host's reading wins whenever there is one. |
| `DateResolver.AttemptNumeric` | assets/js/utils.js:37-39 | The numeric form is used only when the host parse failed, as `new Date(y, m - 1, d)`. |
| `DateResolver.AttemptEmbedded` | assets/js/utils.js:41-48 | The embedded form is used only when both earlier attempts failed, and only its first match goes to the host parser. |
| `DateResolver.AttemptUnknown` | assets/js/utils.js:33-50 | The sentinel comes from the attempts exactly when the direct, numeric and first-embedded readings all fail. |
| `DateResolver.ParseDate` | assets/js/utils.js:6-51 | The step-by-step version (text rebound, month table applied in a loop, attempts in order) computes `Resolve`. |
| `DateResolver.PrepareText` | assets/js/utils.js:10-31 | The loop that rebinds the text and runs the month table computes the normalised, translated text. |
| `DateResolver.ReplaceMonthNames` | assets/js/utils.js:27-31 | The loop over the month table applies every entry in table order. |
| `DateResolver.TryAttempts` | assets/js/utils.js:33-50 | The chain of early returns gives the date of the first attempt that succeeds, else the sentinel. |
| `DateResolver.ResolveNormalised` | assets/js/utils.js:10 | Surrounding white space and letter case never change the result. |
| `DateResolver.NoDigitsIsSentinel` | assets/js/utils.js:50 | A label without a digit always gives the sentinel. |
| `DateResolver.ResolveDutchDate` | assets/js/utils.js:20-35 | "D maand YYYY" with a full Dutch month name resolves to that calendar day. |
| `DateResolver.ResolveAbbreviatedDate` | assets/js/utils.js:20-48 | "D abbr YYYY" with any abbreviated key, dotted or not, resolves to that calendar day. |
| `DateResolver.ResolveTwoDaysAbbreviated` | assets/js/utils.js:20-48 | "A en B abbr YYYY" with any abbreviated key resolves to day B of that month. |
| `DateResolver.ResolveDayList` | assets/js/utils.js:14-17 | A day list resolves exactly like its first day with the same month and year. |
| `DateResolver.ResolveNumeric` | assets/js/utils.js:37-39 | When the host parser rejects a numeric label (as the stand-in does), it resolves to `new Date(y, m - 1, d)`, the day read first. |
| `DateResolver.ResolveTwoDays` | assets/js/utils.js:41-47 | "A en B maand YYYY" resolves to day B: the first embedded match starts at B. |
| `DateResolver.IsPastMonotone` | assets/js/utils.js:54-59 | Once a label is past it stays past on every later day. |
| `DateResolver.IsPastFromNextDay` | assets/js/utils.js:54-59 | A label becomes past exactly from the day after the date it names. |
| `DateResolver.UnknownIsPast` | assets/js/utils.js:50-58 | An unreadable label counts as past on every day after 1 January 1970. |
| `DateResolver.ExampleMaart` | assets/js/utils.js:20-35 | "8 maart 2020" resolves to 8 March 2020. |
| `DateResolver.ExampleNovember` | assets/js/utils.js:20-48 | "8 en 15 nov. 2009" resolves to 15 November 2009. |
| `DateResolver.ExampleMaartDotted` | assets/js/utils.js:20-48 | "3 mrt. 2020" resolves to 3 March 2020. |
| `DateResolver.ExampleDayList` | assets/js/utils.js:14-17 | "3,4,5 juni 2022" resolves to 3 June 2022. |
| `DateResolver.ExampleNumeric` | assets/js/utils.js:38-39 | "15-04-2023" resolves to 15 April 2023. |
| `DateResolver.ExampleTwoDays` | assets/js/utils.js:41-47 | "17 en 18 mei 2024" resolves to 18 May 2024. |
| `DateResolver.SentinelCollision` | assets/js/utils.js:34-50 | In the model, which has no time zones, "1 januari 1970" is read by the host parser and still equals the sentinel, so it sorts and filters like an unreadable label. |
| `DateSort.SortNewestFirst` | assets/js/agenda.js:87 | The in-place sort leaves the array a permutation of its old contents with dates in non-increasing order. |
| `DateSort.SinkNewer` | assets/js/agenda.js:87 | One insertion step: the first i+1 elements become ordered, the rest stay put, and the contents are permuted. |
| `DateSort.NewestFirstMonotone` | assets/js/agenda.js:89-97 | In a newest-first list, once one show is past every later show is past. |
| `Agenda.FirstPast` | assets/js/agenda.js:90-97 | The scan stops at the first past show: every earlier show is upcoming. |
| `Agenda.FindNextShow` | assets/js/agenda.js:89-101 | The loop with `break` and the all-future fix-up compute the next-show index. |
| `Agenda.NextShowUpcoming` | assets/js/agenda.js:89-101 | In any order, the next-show index is in range, names an upcoming show, and is -1 exactly when the first and the last show are both past. |
| `Agenda.NextShowSorted` | assets/js/agenda.js:89-101 | On the sorted list, the next show is the one just before the first past show: all shows up to it are upcoming, all after it are past. |
| `Agenda.PageCount` | assets/js/agenda.js:70 | The page count is `ceil(n / 10)`: zero only without shows, and just enough pages of ten for all of them. |
| `Agenda.StartPage` | assets/js/agenda.js:110-113 | The start page is the one holding the next show, or page 1 when there is none. |
| `Agenda.PageTarget` | assets/js/agenda.js:168-175 | A page change moves by delta when the target is a page in `[1, ceil(n/10)]`, and otherwise leaves the page unchanged. |
| `Agenda.PageOfIndex` | assets/js/agenda.js:58-67 | A page shows a show exactly when its index falls on that page, at the row matching its place, tagged with its index in the whole list. |
| `Agenda.ButtonsMatchChangePage` | assets/js/agenda.js:72-82 | On the page being shown, a button is greyed out exactly when pressing it would leave the page unchanged. |
| `Agenda.NextShowRowHighlighted` | assets/js/agenda.js:33-44 | On the start page, the next show's row is styled "next-show" and carries the badge. |
| `Agenda.DatelessShow` | assets/js/agenda.js:29-38 | A show without a date counts as past when the next show is looked for, but its row is never greyed out. |
| `Agenda.SwipeStepShape` | assets/js/agenda.js:247-263 | A swipe turns the page only if it is more horizontal than vertical and longer than 30: right goes back a page, left goes forward. |
| `Agenda.SwipeBlocksScroll` | assets/js/agenda.js:222-232 | A move seen at the lift-off point of a page-turning swipe would have blocked vertical scrolling: the move's test is the swipe's with a smaller threshold. |
| `Agenda.AgendaPage.constructor` | assets/js/agenda.js:85-113 | After loading, the shows are a permutation of the data sorted newest first, the next-show index is computed, and the page is the start page. |
| `Agenda.AgendaPage.ChangePage` | assets/js/agenda.js:168-175 | The current page follows `PageTarget` and stays within `[1, ceil(n/10)]`. |
| `Agenda.AgendaPage.ButtonTouchEnd` | assets/js/agenda.js:192-195 | A touch on a button records its time for that button and turns the page by the button's step. |
| `Agenda.AgendaPage.ButtonClick` | assets/js/agenda.js:198-203 | A click less than 500 ms after a touch on the same button is ignored; otherwise it turns the page. |
| `Agenda.AgendaPage.TouchStart` | assets/js/agenda.js:216-220 | A multi-finger touch is ignored; otherwise the start point is recorded. |
| `Agenda.AgendaPage.TouchMove` | assets/js/agenda.js:222-232 | A move cancels vertical scrolling exactly when it is more horizontal than vertical and longer than 5 horizontally; nothing is recorded. |
| `Agenda.AgendaPage.TouchEnd` | assets/js/agenda.js:234-238 | The end point is recorded and the swipe handled. |
| `Agenda.AgendaPage.TouchCancel` | assets/js/agenda.js:240-245 | A cancelled touch clears all four coordinates. |
| `Agenda.AgendaPage.HandleSwipe` | assets/js/agenda.js:247-270 | Without a start point nothing happens; otherwise the page turns by the swipe's step and every coordinate is reset to 0. |
| `Blog.Evens` | assets/js/blog.js:79-85 | The first column holds the items at even positions, in order. |
| `Blog.Odds` | assets/js/blog.js:79-85 | The second column holds the items at odd positions, in order. |
| `Blog.EvensOddsPermutation` | assets/js/blog.js:79-87 | The two columns together hold every item exactly as often as the batch does. |
| `Blog.InterleavedReadsInOrder` | assets/js/blog.js:66-88 | The reordering is a permutation, and in the two-column layout reading the grid row by row gives back the original order. |
| `Blog.InterleaveForColumns` | assets/js/blog.js:70-88 | The loop pushing into two columns computes the identity on narrow windows or at most two items, and evens followed by odds otherwise. |
| `Blog.BatchEnd` | assets/js/blog.js:99-100 | A batch ends at `min(shown + 6, n)`: it shows at least one and at most six more posts while any are left. |
| `Blog.ScrollingShowsAll` | assets/js/blog.js:94-127 | After k appends, `min(6(k+1), n)` posts are shown, so enough scrolling shows them all. |
| `Blog.MatchingSpec` | assets/js/blog.js:142-158 | The filter keeps exactly the posts whose title or content contains the term and whose year is the chosen one; a newest-first list stays newest first. |
| `Blog.MatchingEverything` | assets/js/blog.js:142-158 | An empty search with no year keeps every post. |
| `Blog.Years` | assets/js/blog.js:194 | The year list holds the year of each post, in order. |
| `Blog.YearOptionsSpec` | assets/js/blog.js:194-202 | The year options are exactly the years of posts other than "1970", each once, in descending order. |
| `Blog.YearOptionSelectsPosts` | assets/js/blog.js:142-158 | Choosing any offered year with an empty search shows at least one post. |
| `Blog.BlogPage.constructor` | assets/js/blog.js:166-205 | With posts, the blog is sorted newest first, every post is current, the year options are set and the first batch is rendered; without, the no-data message shows and the control is hidden. |
| `Blog.BlogPage.InitializeBlog` | assets/js/blog.js:186-205 | Sorting in place permutes the posts into newest-first order; the current list is all posts and the first batch is shown. |
| `Blog.BlogPage.Render` | assets/js/blog.js:90-138 | An append while loading changes nothing; otherwise the shown count becomes `min(base + 6, n)`, the container holds the interleaved shown posts (or the no-results message), and the control shows exactly while posts are left. |
| `Blog.BlogPage.FilterPosts` | assets/js/blog.js:142-161 | The current list becomes the matching posts and the first batch of them is shown. |
| `Blog.BlogPage.OnScroll` | assets/js/blog.js:212-216 | One more batch is appended exactly when the sentinel is intersecting, posts are left and no render is under way; otherwise nothing changes. |
| `Repertoire.VisibleSongsSpec` | assets/js/repertoire.js:23-31 | A song is shown exactly when "id. title" in lower case contains the term and the video filter lets it through; the shown songs keep their order. |
| `Repertoire.YoutubeOnlyShrinks` | assets/js/repertoire.js:23-31 | Turning on "video only" can only hide songs. |
| `Repertoire.EmptySearchShowsAll` | assets/js/repertoire.js:23-31 | An empty search with all songs allowed shows the whole list. |
| `Repertoire.StripesAlternate` | assets/js/repertoire.js:60-67 | On wide windows both cells of a grid line share a colour and the next line has the other; on narrow windows the colours alternate by row. |
| `Repertoire.BorderlessIsBottomLine` | assets/js/repertoire.js:74-83 | Exactly the cells of the table's bottom line lose the bottom border: the bottom grid line when wide, the last row when narrow. |
| `Repertoire.RowsFor` | assets/js/repertoire.js:43-86 | One row is drawn per visible song. |
| `Repertoire.ListingFor` | assets/js/repertoire.js:33-40 | The table holds the no-results row exactly when no song is visible. |
| `Repertoire.ListingBorders` | assets/js/repertoire.js:74-83 | A non-empty table ends in a row without a bottom border, and no row above the last two loses it. |
| `Repertoire.RepertoirePage.constructor` | assets/js/repertoire.js:1-110 | The page starts with every song allowed, the "all" button active, and the table drawn. |
| `Repertoire.RepertoirePage.Render` | assets/js/repertoire.js:15-87 | The loop that builds the rows produces the listing for the lower-cased term, the toggle and the width. |
| `Repertoire.RepertoirePage.ClickAll` | assets/js/repertoire.js:94-99 | "All" turns the video filter off, leaves exactly the "all" button active, and redraws. |
| `Repertoire.RepertoirePage.ClickVideo` | assets/js/repertoire.js:101-106 | "Video" turns the video filter on, leaves exactly the "video" button active, and redraws. |
| `BlogImages.Lookup` | manage_blog_images.py:78 | A dictionary lookup returns a value stored under the key, and nothing only when the key is absent. |
| `BlogImages.MonthTableShape` | manage_blog_images.py:38-51 | The table has twelve distinct full Dutch month names mapped to "01" through "12". |
| `BlogImages.MonthTablesAgree` | manage_blog_images.py:38-51 | The script's month table and the site's agree: the full name of month m maps to m's two digits. |
| `BlogImages.RStrip` | manage_blog_images.py:81 | Stripping trailing commas removes exactly the commas at the end and nothing else. |
| `BlogImages.ZFillValue` | manage_blog_images.py:84 | Zero-padding keeps the number and gives at least two digits. |
| `BlogImages.ParseDateWords` | manage_blog_images.py:70-85 | A text "first[,...] ... month year" gives `year + month + zfill(first, 2)`, so "3, 4, 5 juni 2022" gives "20220603". |
| `BlogImages.PrefixShape` | manage_blog_images.py:81-85 | Every prefix is digits with a month from 01 to 12, and has exactly 8 digits when the day has at most two. |
| `BlogImages.FileDayAndShownDay` | manage_blog_images.py:81 | For "A en B maand YYYY" the file name takes day A while the site's date reader resolves the same text to day B. |
| `BlogImages.TitleToFilenameIsSlug` | manage_blog_images.py:88-96 | A slug uses only `[a-z0-9_]`, has no "__", and neither starts nor ends with `_`. |
| `BlogImages.TitleToFilenameKeepsAlnum` | manage_blog_images.py:88-96 | The slug keeps every ASCII letter and digit of the lower-cased title, in order. |
| `BlogImages.TitleToFilenameIdempotent` | manage_blog_images.py:88-96 | Applying the slug conversion twice is the same as applying it once. |
| `BlogImages.SlugUnchanged` | manage_blog_images.py:88-96 | A string that already is a slug is its own slug. |
| `BlogImages.EmptySlug` | manage_blog_images.py:88-96 | The slug is empty exactly when the title has no ASCII letter or digit. |
| `BlogImages.NameConvention` | manage_blog_images.py:54-58 | "prefix_slug.webp" matches the convention exactly when the prefix has 8 digits and the slug is non-empty. |
| `BlogImages.ExpectedFollowsConvention` | manage_blog_images.py:120-126 | An expected name matches the convention exactly when the day has at most two digits and the title has an ASCII letter or digit. |
| `BlogImages.ExpectedIsPlain` | manage_blog_images.py:120-126 | An expected name is non-empty and holds no slash and no percent sign. |
| `BlogImages.SegmentStart` | manage_blog_images.py:134 | The last path segment starts after the last slash, and none follows. |
| `BlogImages.LastSegmentOf` | manage_blog_images.py:134 | The last segment of "folder/name" is the name. |
| `BlogImages.UnquotePlain` | manage_blog_images.py:134 | Decoding leaves text without a percent sign alone, and turns "%20" into a space. |
| `BlogImages.RenamedLinkIsCorrect` | manage_blog_images.py:128-135 | A link in any folder counts as correctly named exactly when its plain file name is the expected name. |
| `BlogImages.StemAndSuffix` | manage_blog_images.py:182 | A name is its stem followed by its suffix; a suffix is a dot and at least one non-dot character. |
| `BlogYaml.ParseBlogYaml` | manage_blog_images.py:98-118 | The line loop with its open entry computes the reader's list of entries. |
| `BlogYaml.EntryPerTitleLine` | manage_blog_images.py:105-108 | The reader yields one entry per line starting "- title:", in file order, each titled with the text after that line's colon. |
| `BlogYaml.PreambleIgnored` | manage_blog_images.py:109-113 | Lines before the first title line, date and image lines included, leave no trace. |
| `BlogYaml.EntryBody` | manage_blog_images.py:109-113 | Within an entry, the last date line and the last image line win. |
| `BlogYaml.TitleBlock` | manage_blog_images.py:98-118 | A title line and its body give one entry with that title, the body's last date and its last image. |
| `BlogYaml.CommentTestRedundant` | manage_blog_images.py:111 | The comment test on image lines never decides anything. |
| `ImageFinders.Scanned` | manage_blog_images.py:143-144 | Only regular files with an image suffix are looked at. |
| `ImageFinders.Keeper` | manage_blog_images.py:151-152 | The kept file of a digest is a file with that digest that follows the naming convention; there is one exactly when some file with that digest follows it, and it is the last such file, since later ones overwrite earlier ones. |
| `ImageFinders.Digests` | manage_blog_images.py:147-149 | The digests listed are exactly those of the scanned files. |
| `ImageFinders.IndexByDigest` | manage_blog_images.py:143-152 | The scanning loop fills the per-digest lists and the kept file of each digest, and records the digests in first-seen order. |
| `ImageFinders.FindDuplicatesToDelete` | manage_blog_images.py:137-164 | The method computes the deletion list. |
| `ImageFinders.PairWithKeeper` | manage_blog_images.py:159-162 | Every file of a group other than the kept one is paired with it, in order. |
| `ImageFinders.DeletionsSound` | manage_blog_images.py:155-162 | Every pair has equal digests, a conventionally named keeper that is the kept file of its digest, different names, and a group of more than one file. |
| `ImageFinders.DeletionsComplete` | manage_blog_images.py:155-162 | Every file sharing its digest with other files and a conventionally named keeper, and named differently from it, is listed for deletion. |
| `ImageFinders.ConventionalDuplicateDeleted` | manage_blog_images.py:137-162 | As written: of two correctly named files with the same content, the first is listed for deletion. |
| `ImageFinders.ConventionalDuplicateExample` | manage_blog_images.py:137-162 | Two names of the form `YYYYMMDD_slug.webp` for one picture, such as `20220603_a.webp` and `20220603_b.webp`, meet that case. |
| `ImageFinders.IntendedDeletions` | manage_blog_images.py:137 | As intended: no correctly named file is ever listed for deletion. |
| `ImageFinders.IntendedDeletionsSound` | manage_blog_images.py:137-162 | Every intended deletion is a badly named scanned file paired with the kept file of its digest. |
| `ImageFinders.IntendedDeletionsComplete` | manage_blog_images.py:137-162 | Every badly named file whose content also has a kept file is listed for deletion in favour of it. |
| `ImageFinders.UsedNames` | manage_blog_images.py:172-180 | The used names are the decoded last segments of the entries' image links, skipping empty links and the bare folder. |
| `ImageFinders.UsedStems` | manage_blog_images.py:181-182 | The used stems are the stems of those names. |
| `ImageFinders.UnusedNames` | manage_blog_images.py:186-203 | The unused files are exactly the scanned ones not ignored, not used by name, and not a JPEG whose stem is used. |
| `ImageFinders.FindUnusedImages` | manage_blog_images.py:169-205 | The method returns the unused names sorted. |
| `ImageFinders.UnusedReport` | manage_blog_images.py:169-205 | The report is in ascending name order and lists exactly the unused files. |
| `ImageFinders.JpegBesideLinkedWebp` | manage_blog_images.py:198-201 | A JPEG kept beside an image an entry links to is never reported. |
| `VisualDuplicates.Hamming` | manage_blog_images.py:258 | The distance of two hashes is at most their length. |
| `VisualDuplicates.HammingProperties` | manage_blog_images.py:258 | The distance is symmetric and zero exactly for equal hashes. |
| `VisualDuplicates.RootOfRoot` | manage_blog_images.py:243-246 | In the parent forest the root of an element is its own root and its own parent. |
| `VisualDuplicates.Compress` | manage_blog_images.py:244-245 | Pointing an element straight at its root keeps the forest and every root. |
| `VisualDuplicates.Link` | manage_blog_images.py:250-251 | Hanging one root under another keeps a forest whose roots are the old ones with the two trees merged. |
| `VisualDuplicates.Merge` | manage_blog_images.py:248-251 | After merging, exactly the elements of the first tree take the second tree's root. |
| `VisualDuplicates.UnionFind.constructor` | manage_blog_images.py:240-241 | Every element starts as its own root. |
| `VisualDuplicates.UnionFind.Find` | manage_blog_images.py:243-246 | `find` with path compression returns the element's root and keeps the forest with the same roots. |
| `VisualDuplicates.UnionFind.Union` | manage_blog_images.py:248-251 | `union` merges the trees of the two elements and changes no other root. |
| `VisualDuplicates.UnionFind.Attach` | manage_blog_images.py:250-251 | Linking two distinct roots merges their trees. |
| `VisualDuplicates.AllCompared` | manage_blog_images.py:253-260 | Once all pairs are compared, close images share a root, and images share a root only if every closeness-respecting labelling puts them together. |
| `VisualDuplicates.ClusterAll` | manage_blog_images.py:253-260 | The pairwise loop leaves clusters that are the connected components of the "distance at most 8" relation. |
| `VisualDuplicates.HashImages` | manage_blog_images.py:223-236 | The scan keeps the hashes and names of the regular, non-ignored image files whose hash could be computed, in listing order. |
| `VisualDuplicates.HashedFrom` | manage_blog_images.py:223-234 | Every hashed image comes from a hashable file of the listing. |
| `VisualDuplicates.HashedComplete` | manage_blog_images.py:223-234 | Every hashable file of the listing is hashed. |
| `VisualDuplicates.FirstSeen` | manage_blog_images.py:263-267 | The group keys are exactly the roots, each once. |
| `VisualDuplicates.Clusters` | manage_blog_images.py:263-268 | The groups list, for each key, the files with that root. |
| `VisualDuplicates.CollectGroups` | manage_blog_images.py:262-268 | The grouping loop builds, per root in first-seen order, the files with that root in listing order. |
| `VisualDuplicates.FilterGroups` | manage_blog_images.py:270-276 | The filter loop keeps the reported groups in order. |
| `VisualDuplicates.GroupList` | manage_blog_images.py:272 | The groups are read in key insertion order. |
| `VisualDuplicates.GroupListIsClusters` | manage_blog_images.py:262-272 | The collected groups, read in key order, are the clusters. |
| `VisualDuplicates.FindVisualDuplicates` | manage_blog_images.py:211-278 | Without the hashing library nothing is reported; otherwise the clusters are the components of closeness, and the result is the reported groups among them. |
| `VisualDuplicates.KeepReportedSpec` | manage_blog_images.py:270-276 | Every reported group has more than one file and more than one stem, and every such group is reported. |
| `VisualDuplicates.GroupsPartition` | manage_blog_images.py:262-268 | Every image's root is a group key, and the group sizes add up to the number of images: the groups partition the images. |
| `VisualDuplicates.MemberOfOwnRoot` | manage_blog_images.py:264-268 | Every image is in the group of its root. |
| `VisualDuplicates.MembersOfAbsent` | manage_blog_images.py:264-268 | A key that is no image's root has an empty group. |

## Left out

- The host's date parser `new Date(string)` is not modelled. `HostParse` is a deliberately narrow stand-in: it reads exactly "D Month YYYY" with an English month name or its three-letter abbreviation, in any case. Every other text it rejects, where a browser may accept it.
- Time zones and the time of day are not modelled. Dates are calendar triples, and the current day is a parameter (`today`) in place of `new Date()`.
- Clock readings for the ghost-click guard are parameters (`now`).
- DOM work is not modelled:
  - building HTML strings and elements (`createPost`, the cells of `createRow`, the table rows of the repertoire);
  - link attributes (`getLinkAttributes`);
  - the empty-agenda message.
- Browser machinery is not modelled:
  - table-height measurement and the resize debounce of the agenda;
  - the IntersectionObserver wiring;
  - fetching and YAML loading.
- The window width is a parameter.
- `Array.prototype.sort` is modelled as a stable insertion sort with the same comparator. The property proved is the one the page relies on (newest first, a permutation), not the engine's exact order among equal dates.
- File digests (MD5) and perceptual hashes are values given with the listing. A perceptual hash is 64 bits. An image that cannot be opened is a file whose hash is `None`. The warning printed for it is not modelled.
- The directory listing is a sequence in the order the operating system returns it.
- Paths are compared by name.
- `main()` is not modelled: the dry-run switch, renames, deletions, prompts and printed reports.
- `resize_images.py` is not part of this model: image decoding, resizing and floating point.
- `BlogImages.Unquote`: decodes only `%XX` escapes of single-byte (ASCII) characters. Multi-byte UTF-8 escapes stay as written.
- `ImageFinders.UsedStems`: takes the stem of the decoded last segment. The script builds a `Path` from it, so a decoded name holding a `/` (from `%2F`) would have a different stem there.
- Letter case and digit tests work on ASCII only; Unicode case folding is not modelled.
- `Strings.IsSpace`: white space is space, tab, the two line ends, VT and FF. This is exact for JavaScript's `trim()` and `\s` on ASCII text. Python's `strip()`, `split()` and `re`'s `\s` also count the separators \x1c to \x1f, and both languages count non-ASCII spaces; neither is modelled.
- `DateResolver.SentinelCollision`: holds in the model only. The sentinel `new Date(0)` is the UTC epoch, while the host reads "1 january 1970" as local midnight: in the site's zone (Europe/Amsterdam) that is an hour earlier, so the two sort apart, and west of UTC the sentinel's `getFullYear()` is 1969.
- `DateResolver.Resolve`: takes text only. In the source `trim()` is called on any truthy date value, so a number, or the `Date` object a YAML loader makes from an unquoted ISO date, throws a TypeError; that error path is not modelled.
- `BlogYaml.ParseBlogYaml`: lines are given without their line ends.
- Nothing is left out of the script's date parser: it accepts only full month names (`BlogImages.MonthTableShape`), so an abbreviation such as "nov." gives no prefix.
- `DateResolver.HostParseNoSpace`, `DateResolver.ResolveNumeric`: these hold for the stand-in host parser only. A real engine may read a numeric text itself; V8, for one, reads "05-04-2023" month first, as 4 May 2023, before the numeric rule is reached.
- Touch coordinates are reals; the rounding of double-precision floating point is not modelled.

## Findings

| source | as written | input that shows it | evidently intended | confidence | as-written member | corrected member |
|---|---|---|---|---|---|---|
| manage_blog_images.py:137-162 | The docstring promises to delete only duplicates that do not follow the naming convention, but every file of a group other than the kept one is listed, whatever its name. | `20220603_a.webp` and `20220603_b.webp` with equal content: the first is listed for deletion. | Only badly named duplicates are deleted, each in favour of the kept file. | high, not executed | `ImageFinders.ConventionalDuplicateDeleted` | `ImageFinders.IntendedDeletionsComplete` |
