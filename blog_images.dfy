/** The naming and bookkeeping rules of the blog-image maintenance script.
    An image that belongs to a blog entry is expected to be called
    `YYYYMMDD_slug.webp`, the date taken from the entry's Dutch date text and
    the slug from its title. The script reads the entries from the blog's
    YAML file line by line, finds byte-identical copies of correctly named
    files, and lists images that no entry refers to. File contents are
    represented by their digests; a directory listing is a sequence of
    entries in the order the operating system gives them. */
module BlogImages {
  import opened Wrappers
  import opened Strings
  import opened Sequences
  import opened Dates
  import opened MonthNames
  import opened DateResolver

  // ---------------------------------------------------------------- date prefix

  /** The Dutch month names and their two-digit numbers, in the order the
      script's dictionary lists them. */
  const DutchMonths: seq<(string, string)> := [
    ("januari", "01"), ("februari", "02"), ("maart", "03"), ("april", "04"),
    ("mei", "05"), ("juni", "06"), ("juli", "07"), ("augustus", "08"),
    ("september", "09"), ("oktober", "10"), ("november", "11"), ("december", "12")]

  /** `dict.get`: the value of the first entry with the key, if any. */
  function Lookup(table: seq<(string, string)>, key: string): (r: Option<string>)
    ensures r.Some? ==> exists i | 0 <= i < |table| :: table[i].0 == key && table[i].1 == r.value
    ensures r.None? ==> forall i | 0 <= i < |table| :: table[i].0 != key
    decreases |table|
  {
    if |table| == 0 then None
    else if table[0].0 == key then Some(table[0].1)
    else
      var r := Lookup(table[1..], key);
      assert forall i | 1 <= i < |table| :: table[i] == table[1..][i - 1];
      r
  }

  lemma {:induction false} LookupAt(table: seq<(string, string)>, i: int)
    requires 0 <= i < |table| && forall j | 0 <= j < i :: table[j].0 != table[i].0
    ensures Lookup(table, table[i].0) == Some(table[i].1)
  {
    if i > 0 {
      assert table[1..][i - 1] == table[i];
      LookupAt(table[1..], i - 1);
    }
  }

  /** `DUTCH_MONTHS.get(name)`. */
  function MonthNumber(name: string): Option<string>
  {
    Lookup(DutchMonths, name)
  }

  /** The two decimal digits of a number below 100. */
  function TwoDigits(m: nat): string
    requires m < 100
  {
    [DigitChar(m / 10), DigitChar(m % 10)]
  }

  lemma TwoDigitsValue(m: nat)
    requires m < 100
    ensures AllDigits(TwoDigits(m)) && DecimalValue(TwoDigits(m)) == m
  {
    var v := TwoDigits(m);
    assert v[..1][..0] == [];
    assert DecimalValue(v[..1]) == DigitValue(v[0]) == m / 10;
    assert DigitValue(v[1]) == m % 10;
  }

  lemma MonthTableShape()
    ensures |DutchMonths| == 12
    ensures forall i, j | 0 <= j < i < 12 :: DutchMonths[j].0 != DutchMonths[i].0
    ensures forall i | 0 <= i < 12 :: DutchMonths[i].1 == TwoDigits(i + 1)
  {
  }

  /** A month number as the table writes it: two digits, from 01 to 12. */
  predicate MonthDigits(v: string)
  {
    |v| == 2 && AllDigits(v) && 1 <= DecimalValue(v) <= 12
  }

  /** Every month number the table gives is two digits, from 01 to 12. */
  lemma MonthNumbers(name: string)
    requires MonthNumber(name).Some?
    ensures MonthDigits(MonthNumber(name).value)
  {
    MonthTableShape();
    var i :| 0 <= i < 12 && DutchMonths[i].0 == name && DutchMonths[i].1 == MonthNumber(name).value;
    TwoDigitsValue(i + 1);
  }

  /** `str.isdigit()`: not empty, and every character a digit. */
  predicate IsDigitString(s: string)
  {
    |s| > 0 && AllDigits(s)
  }

  /** `str.rstrip(c)`: the trailing run of `c` removed. */
  function RStrip(s: string, c: char): (r: string)
    ensures |r| <= |s| && r == s[..|r|]
    ensures |r| == 0 || r[|r| - 1] != c
    ensures forall i | |r| <= i < |s| :: s[i] == c
    decreases |s|
  {
    if |s| > 0 && s[|s| - 1] == c then RStrip(s[..|s| - 1], c) else s
  }

  /** `str.zfill(width)` on a string without a sign: zeros in front up to
      `width` characters. */
  function ZFill(s: string, width: nat): string
  {
    if |s| >= width then s else seq(width - |s|, _ => '0') + s
  }

  /** Padding with zeros keeps a digit string's value and makes it at least
      `width` long, and never longer than needed. */
  lemma ZFillValue(s: string, width: nat)
    requires AllDigits(s)
    ensures var z := ZFill(s, width);
            AllDigits(z) && DecimalValue(z) == DecimalValue(s) &&
            |z| == if |s| >= width then |s| else width
  {
    if |s| < width {
      LeadingZeros(width - |s|, s);
    }
  }

  lemma {:induction false} LeadingZeros(n: nat, s: string)
    requires AllDigits(s)
    ensures AllDigits(seq(n, _ => '0') + s)
    ensures DecimalValue(seq(n, _ => '0') + s) == DecimalValue(s)
    decreases |s|
  {
    var z := seq(n, _ => '0');
    if |s| == 0 {
      assert z + s == z;
      ZerosValue(n);
    } else {
      assert (z + s)[..|z + s| - 1] == z + s[..|s| - 1];
      LeadingZeros(n, s[..|s| - 1]);
    }
  }

  lemma {:induction false} ZerosValue(n: nat)
    ensures DecimalValue(seq(n, _ => '0')) == 0
  {
    if n > 0 {
      assert seq(n, _ => '0')[..n - 1] == seq(n - 1, _ => '0');
      ZerosValue(n - 1);
    }
  }

  /** `parse_dutch_date`: the `YYYYMMDD` prefix of a date text such as
      "14 september 2025" or "3, 4, 5 juni 2022". The last word is the year,
      the word before it the month, the first word (trailing commas removed)
      the day; anything else between them is ignored. */
  function ParseDutchDate(text: string): Option<string>
  {
    DateFromWords(SplitWords(text))
  }

  /** `parse_dutch_date` once the text is split into words. */
  function DateFromWords(parts: seq<string>): Option<string>
  {
    if |parts| < 3 then None
    else
      var year := parts[|parts| - 1];
      if !(IsDigitString(year) && |year| == 4) then None
      else
        match MonthNumber(Lower(parts[|parts| - 2]))
        case None => None
        case Some(month) =>
          var first := RStrip(parts[0], ',');
          if !IsDigitString(first) then None
          else Some(year + month + ZFill(first, 2))
  }

  /** A prefix is all digits: four for the year, two for a month from 01 to
      12, and the first day padded to at least two; it is eight long exactly
      when the day has at most two digits. */
  lemma PrefixShape(text: string)
    requires ParseDutchDate(text).Some?
    ensures var p := ParseDutchDate(text).value;
            |p| >= 8 && AllDigits(p) && 1 <= DecimalValue(p[4..6]) <= 12 &&
            (|p| == 8 <==> |RStrip(SplitWords(text)[0], ',')| <= 2)
  {
    ParsedPieces(SplitWords(text));
    var parts := SplitWords(text);
    MonthNumbers(Lower(parts[|parts| - 2]));
    PiecesShape(parts[|parts| - 1], MonthNumber(Lower(parts[|parts| - 2])).value, RStrip(parts[0], ','));
  }

  /** What a successful `parse_dutch_date` read from the words of the text. */
  lemma ParsedPieces(parts: seq<string>)
    requires DateFromWords(parts).Some?
    ensures |parts| >= 3 && |parts[|parts| - 1]| == 4 && AllDigits(parts[|parts| - 1]) &&
            MonthNumber(Lower(parts[|parts| - 2])).Some? && IsDigitString(RStrip(parts[0], ',')) &&
            DateFromWords(parts).value ==
              parts[|parts| - 1] + MonthNumber(Lower(parts[|parts| - 2])).value + ZFill(RStrip(parts[0], ','), 2)
  {
  }

  lemma PiecesShape(year: string, month: string, first: string)
    requires |year| == 4 && AllDigits(year) && MonthDigits(month) && IsDigitString(first)
    ensures var p := year + month + ZFill(first, 2);
            |p| >= 8 && AllDigits(p) && 1 <= DecimalValue(p[4..6]) <= 12 && (|p| == 8 <==> |first| <= 2)
  {
    ZFillValue(first, 2);
    var p := year + month + ZFill(first, 2);
    assert p[4..6] == month;
  }

  lemma {:induction false} RStripCommas(first: string, commas: string)
    requires IsDigitString(first) && forall i | 0 <= i < |commas| :: commas[i] == ','
    ensures RStrip(first + commas, ',') == first
    decreases |commas|
  {
    if |commas| == 0 {
      assert first + commas == first;
    } else {
      assert (first + commas)[..|first + commas| - 1] == first + commas[..|commas| - 1];
      RStripCommas(first, commas[..|commas| - 1]);
    }
  }

  /** A date text whose first word is a day number (perhaps followed by
      commas), whose last two words are a month name in any letter case and
      a four-digit year, gives that year, that month's number and the first
      day, whatever stands between: "17, 18 mei 2024" and "17 en 18 mei 2024"
      both give "20240517". */
  lemma {:induction false} ParseDateWords(first: string, commas: string, middle: seq<string>, month: string, year: string)
    requires IsDigitString(first) && forall i | 0 <= i < |commas| :: commas[i] == ','
    requires forall k | 0 <= k < |middle| :: |middle[k]| > 0 && NoSpace(middle[k])
    requires NoSpace(month) && MonthNumber(Lower(month)).Some?
    requires |year| == 4 && AllDigits(year)
    ensures ParseDutchDate(JoinWords([first + commas] + middle + [month, year])) ==
            Some(year + MonthNumber(Lower(month)).value + ZFill(first, 2))
  {
    var ws := [first + commas] + middle + [month, year];
    DateWordsShape(first, commas, middle, month, year);
    SplitJoinWords(ws);
    RStripCommas(first, commas);
    DateFromParts(ws, first, month, year);
  }

  lemma DateWordsShape(first: string, commas: string, middle: seq<string>, month: string, year: string)
    requires IsDigitString(first) && forall i | 0 <= i < |commas| :: commas[i] == ','
    requires forall k | 0 <= k < |middle| :: |middle[k]| > 0 && NoSpace(middle[k])
    requires NoSpace(month) && MonthNumber(Lower(month)).Some?
    requires |year| == 4 && AllDigits(year)
    ensures var ws := [first + commas] + middle + [month, year];
            forall k | 0 <= k < |ws| :: |ws[k]| > 0 && NoSpace(ws[k])
  {
    var ws := [first + commas] + middle + [month, year];
    assert |Lower(month)| == |month|;
    assert |month| > 0;
    forall k | 0 <= k < |ws|
      ensures |ws[k]| > 0 && NoSpace(ws[k])
    {
      if k == 0 {
        assert ws[0] == first + commas;
      } else if k <= |middle| {
        assert ws[k] == middle[k - 1];
      }
    }
  }

  /** `parse_dutch_date` on words whose first is a day, whose second last is
      a known month and whose last is a year. */
  lemma DateFromParts(parts: seq<string>, first: string, month: string, year: string)
    requires |parts| >= 3 && parts[|parts| - 1] == year && parts[|parts| - 2] == month
    requires RStrip(parts[0], ',') == first && IsDigitString(first)
    requires |year| == 4 && AllDigits(year) && MonthNumber(Lower(month)).Some?
    ensures DateFromWords(parts) == Some(year + MonthNumber(Lower(month)).value + ZFill(first, 2))
  {
  }

  /** The full month names of the site's date reader are this table's keys,
      each with its own month's number. */
  lemma MonthTablesAgree(m: int)
    requires 1 <= m <= 12
    ensures MonthNumber(DutchMonth(m)) == Some(TwoDigits(m))
  {
    MonthTableShape();
    assert forall i | 0 <= i < 12 :: DutchMonths[i].0 == MonthTable[i].0;
    LookupAt(DutchMonths, m - 1);
  }

  /** The full month names are lower-case letters only. */
  lemma FullNamesAreLetters()
    ensures forall t | 0 <= t < 12 :: forall i | 0 <= i < |MonthTable[t].0| :: IsLowerLetter(MonthTable[t].0[i])
  {
  }

  /** For a date text naming two days, "A en B maand YYYY", the file name
      takes day A while the site's date reader resolves the text to day B. */
  lemma FileDayAndShownDay(a: string, b: string, m: int, y: string)
    requires DayDigits(a) && DayDigits(b) && 1 <= m <= 12 && YearDigits(y)
    requires 1 <= DecimalValue(b) <= DaysInMonth(DecimalValue(y), m)
    ensures ParseDutchDate(a + " en " + b + " " + DutchMonth(m) + " " + y) ==
            Some(y + TwoDigits(m) + ZFill(a, 2))
    ensures Resolve(a + " en " + b + " " + DutchMonth(m) + " " + y) ==
            Date(DecimalValue(y), m, DecimalValue(b))
  {
    TwoDayPrefix(a, b, m, y);
    ResolveTwoDays(a, b, m, y);
  }

  lemma TwoDayPrefix(a: string, b: string, m: int, y: string)
    requires DayDigits(a) && DayDigits(b) && 1 <= m <= 12 && YearDigits(y)
    ensures ParseDutchDate(a + " en " + b + " " + DutchMonth(m) + " " + y) ==
            Some(y + TwoDigits(m) + ZFill(a, 2))
  {
    MonthWord(m);
    TwoDayText(a, b, DutchMonth(m), y);
  }

  /** The same for any lower-case month word the table knows. */
  lemma TwoDayText(a: string, b: string, name: string, y: string)
    requires DayDigits(a) && DayDigits(b) && YearDigits(y)
    requires NoSpace(name) && Lower(name) == name && MonthNumber(name).Some?
    ensures ParseDutchDate(a + " en " + b + " " + name + " " + y) == Some(y + MonthNumber(name).value + ZFill(a, 2))
  {
    ParseDateWords(a, "", ["en", b], name, y);
    JoinFive(a, b, name, y);
  }

  /** A full month name is one lower-case word that the table knows. */
  lemma MonthWord(m: int)
    requires 1 <= m <= 12
    ensures NoSpace(DutchMonth(m)) && Lower(DutchMonth(m)) == DutchMonth(m)
    ensures MonthNumber(DutchMonth(m)) == Some(TwoDigits(m))
  {
    MonthTablesAgree(m);
    FullNamesAreLetters();
    var name := DutchMonth(m);
    assert forall i | 0 <= i < |name| :: IsLowerLetter(name[i]);
    LowerNoUpper(name);
  }

  lemma JoinFive(a: string, b: string, n: string, y: string)
    ensures JoinWords([a + ""] + ["en", b] + [n, y]) == a + " en " + b + " " + n + " " + y
  {
    var ws := [a + ""] + ["en", b] + [n, y];
    assert a + "" == a;
    assert ws == [a, "en", b, n, y];
    assert ws[1..] == ["en", b, n, y] && ws[1..][1..] == [b, n, y];
    assert ws[1..][1..][1..] == [n, y] && ws[1..][1..][1..][1..] == [y];
    assert JoinWords([n, y]) == n + " " + y;
    assert JoinWords([b, n, y]) == b + " " + (n + " " + y);
    assert JoinWords(["en", b, n, y]) == "en" + " " + (b + " " + (n + " " + y));
  }

  // ---------------------------------------------------------------- title slug

  /** The dashes the slug turns into underscores: hyphen, en dash, em dash. */
  predicate IsDash(c: char) { c == '-' || c == '\U{2013}' || c == '\U{2014}' }

  /** `[a-z0-9]`: the characters a slug is made of, besides underscores. */
  predicate Alnum(c: char) { IsLowerLetter(c) || IsDigit(c) }

  /** `[a-z0-9_]`. */
  predicate SlugChar(c: char) { Alnum(c) || c == '_' }

  /** What the removal pass keeps: `[a-z0-9_\s]`. */
  predicate Survives(c: char) { SlugChar(c) || IsSpace(c) }

  predicate IsUnderscore(c: char) { c == '_' }

  function DashesToUnderscores(s: string): string
  {
    seq(|s|, i requires 0 <= i < |s| => if IsDash(s[i]) then '_' else s[i])
  }

  /** `s` without its leading run of characters in the class `p`. */
  function SkipRun(s: string, p: char -> bool): (r: string)
    ensures |r| <= |s| && r == s[|s| - |r|..]
    ensures forall i | 0 <= i < |s| - |r| :: p(s[i])
    ensures |r| == 0 || !p(r[0])
    decreases |s|
  {
    if |s| > 0 && p(s[0]) then SkipRun(s[1..], p) else s
  }

  /** `re.sub(X + '+', '_', s)` for a character class `X` given as `p`:
      every maximal run of characters in the class becomes one underscore. */
  function ReplaceRuns(s: string, p: char -> bool): (r: string)
    ensures |s| == 0 <==> |r| == 0
    ensures |s| > 0 ==> r[0] == if p(s[0]) then '_' else s[0]
    decreases |s|
  {
    if |s| == 0 then ""
    else if p(s[0]) then "_" + ReplaceRuns(SkipRun(s[1..], p), p)
    else [s[0]] + ReplaceRuns(s[1..], p)
  }

  /** `str.strip('_')`. */
  function StripUnderscores(s: string): string
  {
    RStrip(SkipRun(s, IsUnderscore), '_')
  }

  /** `title_to_filename`: lower case, dashes to underscores, everything but
      `[a-z0-9_]` and white space removed, white-space runs to one underscore,
      underscore runs to one underscore, underscores at the ends removed. */
  function TitleToFilename(title: string): string
  {
    var removed := Keep(DashesToUnderscores(Lower(title)), Survives);
    StripUnderscores(ReplaceRuns(ReplaceRuns(removed, IsSpace), IsUnderscore))
  }

  predicate NoDoubleUnderscore(s: string)
  {
    forall i | 0 <= i < |s| - 1 :: !(s[i] == '_' && s[i + 1] == '_')
  }

  /** What a slug looks like: `[a-z0-9_]` only, no two underscores in a row,
      none at either end. */
  predicate IsSlug(s: string)
  {
    (forall i | 0 <= i < |s| :: SlugChar(s[i])) && NoDoubleUnderscore(s) &&
    (|s| > 0 ==> s[0] != '_' && s[|s| - 1] != '_')
  }

  /** Replacing runs leaves only underscores and characters of `s` outside
      the class. */
  lemma {:induction false} ReplaceRunsChars(s: string, p: char -> bool)
    ensures forall c | c in ReplaceRuns(s, p) :: c == '_' || (c in s && !p(c))
    decreases |s|
  {
    if |s| > 0 {
      if p(s[0]) {
        var t := SkipRun(s[1..], p);
        ReplaceRunsChars(t, p);
        assert forall c | c in t :: c in s by {
          forall c | c in t ensures c in s {
            var i :| 0 <= i < |t| && t[i] == c;
            assert s[1..][|s[1..]| - |t| + i] == c;
          }
        }
      } else {
        ReplaceRunsChars(s[1..], p);
      }
    }
  }

  /** After squeezing underscore runs no two underscores are adjacent. */
  lemma {:induction false} SqueezedHasNoDouble(s: string)
    ensures NoDoubleUnderscore(ReplaceRuns(s, IsUnderscore))
    decreases |s|
  {
    if |s| > 0 {
      if s[0] == '_' {
        var t := SkipRun(s[1..], IsUnderscore);
        SqueezedHasNoDouble(t);
        var r := ReplaceRuns(t, IsUnderscore);
        assert ReplaceRuns(s, IsUnderscore) == "_" + r;
      } else {
        SqueezedHasNoDouble(s[1..]);
        var r := ReplaceRuns(s[1..], IsUnderscore);
        assert ReplaceRuns(s, IsUnderscore) == [s[0]] + r;
      }
    }
  }

  /** Replacing runs changes nothing when every character of the class is an
      underscore that stands alone. */
  lemma {:induction false} ReplaceRunsUnchanged(s: string, p: char -> bool)
    requires forall i | 0 <= i < |s| && p(s[i]) :: s[i] == '_' && (i + 1 < |s| ==> !p(s[i + 1]))
    ensures ReplaceRuns(s, p) == s
    decreases |s|
  {
    if |s| > 0 {
      ReplaceRunsUnchanged(s[1..], p);
      if p(s[0]) {
        assert SkipRun(s[1..], p) == s[1..];
      }
      assert s == [s[0]] + s[1..];
    }
  }

  /** Skipping a run of non-alphanumerics keeps the letters and digits. */
  lemma {:induction false} SkipRunAlnum(s: string, p: char -> bool)
    requires forall c :: p(c) ==> !Alnum(c)
    ensures Keep(SkipRun(s, p), Alnum) == Keep(s, Alnum)
    decreases |s|
  {
    if |s| > 0 && p(s[0]) {
      SkipRunAlnum(s[1..], p);
    }
  }

  /** Replacing runs of non-alphanumerics keeps the letters and digits, in order. */
  lemma {:induction false} ReplaceRunsAlnum(s: string, p: char -> bool)
    requires forall c :: p(c) ==> !Alnum(c)
    ensures Keep(ReplaceRuns(s, p), Alnum) == Keep(s, Alnum)
    decreases |s|
  {
    if |s| > 0 {
      if p(s[0]) {
        var t := SkipRun(s[1..], p);
        ReplaceRunsAlnum(t, p);
        SkipRunAlnum(s[1..], p);
        assert ("_" + ReplaceRuns(t, p))[1..] == ReplaceRuns(t, p);
      } else {
        ReplaceRunsAlnum(s[1..], p);
        assert ([s[0]] + ReplaceRuns(s[1..], p))[1..] == ReplaceRuns(s[1..], p);
      }
    }
  }

  lemma {:induction false} RStripAlnum(s: string)
    ensures Keep(RStrip(s, '_'), Alnum) == Keep(s, Alnum)
    decreases |s|
  {
    if |s| > 0 && s[|s| - 1] == '_' {
      RStripAlnum(s[..|s| - 1]);
      assert s == s[..|s| - 1] + ['_'];
      KeepAppend(s[..|s| - 1], ['_'], Alnum);
    }
  }

  lemma {:induction false} DashesAlnum(s: string)
    ensures Keep(DashesToUnderscores(s), Alnum) == Keep(s, Alnum)
    decreases |s|
  {
    if |s| > 0 {
      assert DashesToUnderscores(s)[1..] == DashesToUnderscores(s[1..]);
      DashesAlnum(s[1..]);
    }
  }

  /** The slug keeps exactly the ASCII letters and digits of the lower-cased
      title, in their order. */
  lemma TitleToFilenameKeepsAlnum(title: string)
    ensures Keep(TitleToFilename(title), Alnum) == Keep(Lower(title), Alnum)
  {
    var dashed := DashesToUnderscores(Lower(title));
    var removed := Keep(dashed, Survives);
    var spaced := ReplaceRuns(removed, IsSpace);
    var squeezed := ReplaceRuns(spaced, IsUnderscore);
    DashesAlnum(Lower(title));
    KeepKeep(dashed, Survives, Alnum);
    ReplaceRunsAlnum(removed, IsSpace);
    ReplaceRunsAlnum(spaced, IsUnderscore);
    SkipRunAlnum(squeezed, IsUnderscore);
    RStripAlnum(SkipRun(squeezed, IsUnderscore));
  }

  /** Every title gives a slug. */
  lemma TitleToFilenameIsSlug(title: string)
    ensures IsSlug(TitleToFilename(title))
  {
    var removed := Keep(DashesToUnderscores(Lower(title)), Survives);
    var spaced := ReplaceRuns(removed, IsSpace);
    var squeezed := ReplaceRuns(spaced, IsUnderscore);
    ReplaceRunsChars(removed, IsSpace);
    ReplaceRunsChars(spaced, IsUnderscore);
    SqueezedHasNoDouble(spaced);
    StripGivesSlug(squeezed);
  }

  /** Stripping the end underscores of a string of slug characters without
      doubled underscores gives a slug. */
  lemma StripGivesSlug(s: string)
    requires forall c | c in s :: SlugChar(c)
    requires NoDoubleUnderscore(s)
    ensures IsSlug(StripUnderscores(s))
  {
    var skipped := SkipRun(s, IsUnderscore);
    var r := RStrip(skipped, '_');
    var off := |s| - |skipped|;
    assert forall i | 0 <= i < |r| :: r[i] == s[off + i];
    assert forall i | 0 <= i < |r| :: SlugChar(r[i]) by {
      forall i | 0 <= i < |r| ensures SlugChar(r[i]) {
        assert s[off + i] in s;
      }
    }
    assert NoDoubleUnderscore(r) by {
      forall i | 0 <= i < |r| - 1 ensures !(r[i] == '_' && r[i + 1] == '_') {
        assert r[i] == s[off + i] && r[i + 1] == s[off + i + 1];
      }
    }
    if |r| > 0 {
      assert r[0] == skipped[0];
    }
  }

  /** A slug is its own slug. */
  lemma SlugUnchanged(s: string)
    requires IsSlug(s)
    ensures TitleToFilename(s) == s
  {
    assert NoUpper(s) by {
      forall i | 0 <= i < |s| ensures !IsUpper(s[i]) {
        assert SlugChar(s[i]);
      }
    }
    LowerNoUpper(s);
    assert DashesToUnderscores(s) == s;
    KeepAll(s, Survives);
    ReplaceRunsUnchanged(s, IsSpace);
    ReplaceRunsUnchanged(s, IsUnderscore);
    assert SkipRun(s, IsUnderscore) == s;
  }

  /** Making a slug twice gives the same slug. */
  lemma TitleToFilenameIdempotent(title: string)
    ensures TitleToFilename(TitleToFilename(title)) == TitleToFilename(title)
  {
    TitleToFilenameIsSlug(title);
    SlugUnchanged(TitleToFilename(title));
  }

  /** The slug is empty exactly when the lower-cased title has no ASCII
      letter or digit. */
  lemma EmptySlug(title: string)
    ensures TitleToFilename(title) == "" <==> Keep(Lower(title), Alnum) == []
  {
    var s := TitleToFilename(title);
    TitleToFilenameKeepsAlnum(title);
    TitleToFilenameIsSlug(title);
    if s != "" {
      assert Alnum(s[0]);
      assert s[0] in Keep(s, Alnum);
    }
  }
  // ---------------------------------------------------------------- file names

  /** The extensions the naming convention and the image scans accept. */
  const Extensions: seq<string> := ["webp", "jpg", "jpeg", "png"]

  /** `\d{8}_[a-z0-9_]+\.(webp|jpg|jpeg|png)` matched against the whole of
      `s`. The name part holds no dot, so it ends at the first dot. */
  predicate MatchesConvention(s: string)
  {
    |s| >= 9 && AllDigits(s[..8]) && s[8] == '_' && '.' in s[9..] &&
    var rest := s[9..];
    var dot := IndexOf(rest, '.');
    dot > 0 && (forall i | 0 <= i < dot :: SlugChar(rest[i])) && rest[dot + 1..] in Extensions
  }

  /** `follows_naming_convention`: `re.match` with `^...$`, where `$` also
      matches just before a final line feed. */
  predicate FollowsNamingConvention(name: string)
  {
    MatchesConvention(name) || (|name| > 0 && name[|name| - 1] == '\n' && MatchesConvention(name[..|name| - 1]))
  }

  /** `get_expected_filename`: the date prefix, an underscore, the title
      slug and `.webp`; nothing when the date text gives no prefix. */
  function GetExpectedFilename(title: string, date: string): Option<string>
  {
    match ParseDutchDate(date)
    case None => None
    case Some(prefix) => Some(prefix + "_" + TitleToFilename(title) + ".webp")
  }

  /** An expected name follows the naming convention exactly when the day
      of the date has at most two digits and the title has an ASCII letter
      or digit: a three-digit day makes the prefix too long, and an empty
      slug leaves nothing between the underscore and the dot. */
  lemma ExpectedFollowsConvention(title: string, date: string)
    requires ParseDutchDate(date).Some?
    ensures FollowsNamingConvention(GetExpectedFilename(title, date).value) <==>
            |RStrip(SplitWords(date)[0], ',')| <= 2 && Keep(Lower(title), Alnum) != []
  {
    PrefixShape(date);
    EmptySlug(title);
    TitleToFilenameIsSlug(title);
    NameConvention(ParseDutchDate(date).value, TitleToFilename(title));
  }

  lemma NameConvention(prefix: string, slug: string)
    requires |prefix| >= 8 && AllDigits(prefix) && IsSlug(slug)
    ensures FollowsNamingConvention(prefix + "_" + slug + ".webp") <==> |prefix| == 8 && slug != ""
  {
    var f := prefix + "_" + slug + ".webp";
    assert f[|f| - 1] == 'p';
    if |prefix| == 8 {
      assert f[..8] == prefix && f[8] == '_';
      var rest := f[9..];
      assert rest == slug + "." + "webp";
      FirstDot(slug, "webp");
      var dot := IndexOf(rest, '.');
      assert rest[dot + 1..] == "webp";
      assert forall i | 0 <= i < dot :: rest[i] == slug[i];
    } else {
      assert f[8] == prefix[8];
    }
  }

  /** In a slug followed by an extension, the first dot is the one before
      the extension. */
  lemma FirstDot(slug: string, ext: string)
    requires forall i | 0 <= i < |slug| :: SlugChar(slug[i])
    ensures '.' in slug + "." + ext && IndexOf(slug + "." + ext, '.') == |slug|
  {
    var t := slug + "." + ext;
    assert t[|slug|] == '.';
    var d := IndexOf(t, '.');
    assert forall i | 0 <= i < |slug| :: t[i] == slug[i];
    assert forall k | 0 <= k < d :: t[..d][k] == t[k];
  }

  /** Where the text after the last slash starts. */
  function SegmentStart(path: string): (k: nat)
    ensures k <= |path| && (k > 0 ==> path[k - 1] == '/')
    ensures forall i | k <= i < |path| :: path[i] != '/'
    decreases |path|
  {
    if |path| == 0 then 0
    else if path[|path| - 1] == '/' then |path|
    else SegmentStart(path[..|path| - 1])
  }

  /** `split('/')[-1]`: what follows the last slash. */
  function LastSegment(path: string): string
  {
    path[SegmentStart(path)..]
  }

  /** The last segment of a folder path and a file name is the file name. */
  lemma LastSegmentOf(folder: string, name: string)
    requires '/' !in name
    ensures LastSegment(folder + "/" + name) == name
  {
    var path := folder + "/" + name;
    var k := SegmentStart(path);
    assert path[|folder|] == '/';
    assert path[|folder| + 1..] == name;
  }

  predicate IsHexDigit(c: char)
  {
    IsDigit(c) || 'a' <= c <= 'f' || 'A' <= c <= 'F'
  }

  function HexValue(c: char): nat
    requires IsHexDigit(c)
  {
    if IsDigit(c) then DigitValue(c)
    else if 'a' <= c <= 'f' then c as int - 'a' as int + 10
    else c as int - 'A' as int + 10
  }

  /** `urllib.parse.unquote` for escapes of single-byte characters: `%XX`
      with a value below 0x80 becomes that character; everything else
      stays as written. */
  function Unquote(s: string): string
    decreases |s|
  {
    if |s| == 0 then ""
    else if s[0] == '%' && |s| >= 3 && IsHexDigit(s[1]) && IsHexDigit(s[2]) && HexValue(s[1]) < 8 then
      [(16 * HexValue(s[1]) + HexValue(s[2])) as char] + Unquote(s[3..])
    else [s[0]] + Unquote(s[1..])
  }

  /** Text without a percent sign is left alone, and an escaped space is a space. */
  lemma {:induction false} UnquotePlain(s: string)
    requires '%' !in s
    ensures Unquote(s) == s
    ensures Unquote("%20") == " "
    decreases |s|
  {
    if |s| > 0 {
      UnquotePlain(s[1..]);
      assert s == [s[0]] + s[1..];
    }
    assert "%20"[3..] == [];
  }

  /** `is_correctly_named`: an entry without an image or without an expected
      name counts as correct; otherwise the decoded last segment of the
      image link must be the expected name. */
  predicate IsCorrectlyNamed(currentImage: string, expected: Option<string>)
  {
    currentImage == "" || expected.None? || expected.value == "" ||
    Unquote(LastSegment(currentImage)) == expected.value
  }

  /** An expected name holds no slash and no percent sign. */
  lemma ExpectedIsPlain(title: string, date: string)
    requires GetExpectedFilename(title, date).Some?
    ensures var e := GetExpectedFilename(title, date).value; '/' !in e && '%' !in e && e != ""
  {
    PrefixShape(date);
    TitleToFilenameIsSlug(title);
    NamePlain(ParseDutchDate(date).value, TitleToFilename(title));
  }

  lemma NamePlain(prefix: string, slug: string)
    requires AllDigits(prefix) && IsSlug(slug)
    ensures var e := prefix + "_" + slug + ".webp"; '/' !in e && '%' !in e
  {
    var e := prefix + "_" + slug + ".webp";
    forall i | 0 <= i < |e|
      ensures e[i] != '/' && e[i] != '%'
    {
      if i < |prefix| {
        assert IsDigit(prefix[i]);
      } else if |prefix| < i < |prefix| + 1 + |slug| {
        assert SlugChar(slug[i - |prefix| - 1]);
      }
    }
  }

  /** Once an entry's image link points at its expected name, in any folder,
      it counts as correctly named; a link to a plain file name other than
      the expected one does not. */
  lemma RenamedLinkIsCorrect(folder: string, name: string, title: string, date: string)
    requires GetExpectedFilename(title, date).Some?
    requires '/' !in name && '%' !in name
    ensures IsCorrectlyNamed(folder + "/" + name, GetExpectedFilename(title, date)) <==>
            name == GetExpectedFilename(title, date).value
  {
    ExpectedIsPlain(title, date);
    LastSegmentOf(folder, name);
    UnquotePlain(name);
  }

  /** `Path.suffix`: from the last dot on, unless that dot starts the name
      or ends it. */
  function Suffix(name: string): string
  {
    if '.' !in name then ""
    else
      var i := LastIndexOf(name, '.');
      if 0 < i < |name| - 1 then name[i..] else ""
  }

  /** `Path.stem`: the name without its suffix. */
  function Stem(name: string): string
  {
    if '.' !in name then name
    else
      var i := LastIndexOf(name, '.');
      if 0 < i < |name| - 1 then name[..i] else name
  }

  /** Position of the last `c` in `s`. */
  function LastIndexOf(s: string, c: char): (i: nat)
    requires c in s
    ensures i < |s| && s[i] == c && c !in s[i + 1..]
    decreases |s|
  {
    if s[|s| - 1] == c then |s| - 1
    else
      assert s == s[..|s| - 1] + [s[|s| - 1]];
      var i := LastIndexOf(s[..|s| - 1], c);
      assert s[i + 1..] == s[..|s| - 1][i + 1..] + [s[|s| - 1]];
      i
  }

  /** A name is its stem followed by its suffix; a suffix is empty or a dot
      and at least one more character, with no further dot. */
  lemma StemAndSuffix(name: string)
    ensures Stem(name) + Suffix(name) == name
    ensures var x := Suffix(name); x == "" || (|x| >= 2 && x[0] == '.' && '.' !in x[1..])
    ensures Suffix(name) != "" ==> Stem(name) != ""
  {
    if '.' in name {
      var i := LastIndexOf(name, '.');
      if 0 < i < |name| - 1 {
        assert name[..i] + name[i..] == name;
        assert name[i..][1..] == name[i + 1..];
      }
    }
  }

  /** `f.suffix.lower()` is one of the image extensions. */
  predicate IsImageName(name: string)
  {
    Lower(Suffix(name)) in [".webp", ".jpg", ".jpeg", ".png"]
  }
}
