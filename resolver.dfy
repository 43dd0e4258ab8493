/** `parseDate` and `isPast` of assets/js/utils.js: a free-text Dutch or
    English date label is resolved to a calendar date, and a label is past
    when its date lies before today.

    The resolver works in a fixed order: an empty label is the sentinel;
    otherwise the label is trimmed and lower-cased, a list of days
    ("3, 4, 5 juni 2022") is collapsed to its first day, Dutch month names
    are replaced by English ones, and then the host's date parser, the
    numeric form `D-M-YYYY` and the first embedded `D month YYYY` are tried
    in turn; when all fail the result is the sentinel. */
module DateResolver {
  import opened Wrappers
  import opened Strings
  import opened Dates
  import opened MonthNames

  // ------------------------------------------------------------ scanning

  /** The character classes the regular expressions use. */
  datatype CharClass = Digits | Spaces | WordChars | Letters

  predicate InClass(c: char, cls: CharClass)
  {
    match cls
    case Digits => IsDigit(c)
    case Spaces => IsSpace(c)
    case WordChars => IsWordChar(c)
    case Letters => IsLetter(c)
  }

  predicate AllIn(s: string, cls: CharClass)
  {
    forall i | 0 <= i < |s| :: InClass(s[i], cls)
  }

  /** Length of the longest prefix of `s` in the class: what a greedy `\d*`,
      `\s*`, `\w*` or `[a-z]*` (case-insensitive) consumes. */
  function Run(s: string, cls: CharClass): (n: nat)
    ensures n <= |s| && AllIn(s[..n], cls) && (n == |s| || !InClass(s[n], cls))
    decreases |s|
  {
    if |s| == 0 || !InClass(s[0], cls) then 0
    else
      var n := 1 + Run(s[1..], cls);
      assert s[..n] == [s[0]] + s[1..][..n - 1];
      n
  }

  lemma DigitsOfRun(s: string)
    requires AllIn(s, Digits)
    ensures AllDigits(s)
  {
  }

  /** A run is exactly the prefix in the class when the next character is not. */
  lemma {:induction false} RunOf(a: string, b: string, cls: CharClass)
    requires AllIn(a, cls) && (b == [] || !InClass(b[0], cls))
    ensures Run(a + b, cls) == |a|
    decreases |a|
  {
    if |a| > 0 {
      assert (a + b)[1..] == a[1..] + b;
      RunOf(a[1..], b, cls);
    } else {
      assert a + b == b;
    }
  }

  /** One or two decimal digits: `\d{1,2}` as a whole group. */
  predicate DayDigits(s: string)
  {
    1 <= |s| <= 2 && AllDigits(s)
  }

  /** Exactly four decimal digits: `\d{4}`. */
  predicate YearDigits(s: string)
  {
    |s| == 4 && AllDigits(s)
  }

  lemma DigitsInClass(s: string)
    requires AllDigits(s)
    ensures AllIn(s, Digits) && AllIn(s, WordChars) && NoSpace(s) && NoUpper(s)
    ensures forall i | 0 <= i < |s| :: !IsLetter(s[i])
  {
  }

  // ------------------------------------------------------- multi-day lists

  /** `^(\d{1,2})(?:,\s*\d{1,2})+\s+(\w+)\s+(\d{4})$`: the first day, the
      word after the list and the year. */
  function MatchMultiDay(s: string): (r: Option<(string, string, string)>)
    ensures r.Some? ==> DayDigits(r.value.0) && |r.value.0| < |s| &&
                        s[..|r.value.0|] == r.value.0 && s[|r.value.0|] == ',' &&
                        |r.value.1| > 0 && AllIn(r.value.1, WordChars) &&
                        YearDigits(r.value.2) && |s| >= 4 && s[|s| - 4..] == r.value.2
  {
    var n := Run(s, Digits);
    if n < 1 || n > 2 || n == |s| || s[n] != ',' then None
    else
      var t := s[n..];
      match DayListTail(t)
      case None => None
      case Some((w, y)) =>
        var d := s[..n];
        DigitsOfRun(d);
        assert t[|t| - 4..] == s[|s| - 4..];
        Some((d, w, y))
  }

  /** The rest of the day list, from a comma on: `(?:,\s*\d{1,2})+` and what
      follows it. */
  function DayListTail(t: string): (r: Option<(string, string)>)
    requires |t| > 0 && t[0] == ','
    ensures r.Some? ==> |r.value.0| > 0 && AllIn(r.value.0, WordChars) &&
                        YearDigits(r.value.1) && |t| >= 4 && t[|t| - 4..] == r.value.1
    decreases |t|
  {
    var u := t[1..];
    var v := u[Run(u, Spaces)..];
    var d := Run(v, Digits);
    if d < 1 || d > 2 then None
    else
      var rest := v[d..];
      if |rest| > 0 && rest[0] == ',' then DayListTail(rest)
      else WordYearTail(rest)
  }

  /** `\s+(\w+)\s+(\d{4})$`: the word and the year at the end. */
  function WordYearTail(r: string): (res: Option<(string, string)>)
    ensures res.Some? ==> |res.value.0| > 0 && AllIn(res.value.0, WordChars) &&
                          YearDigits(res.value.1) && |r| >= 4 && r[|r| - 4..] == res.value.1
  {
    var s1 := Run(r, Spaces);
    var r1 := r[s1..];
    var w := Run(r1, WordChars);
    var r2 := r1[w..];
    var s2 := Run(r2, Spaces);
    var y := r2[s2..];
    if s1 == 0 || w == 0 || s2 == 0 || !YearDigits(y) then None
    else
      assert r[|r| - 4..] == y;
      Some((r1[..w], y))
  }

  /** A day list as it is written: the first day, then for each further day
      a comma, optional white space and the day; then white space, a word,
      white space and the year. */
  datatype DayList = DayList(first: string, more: seq<(string, string)>,
                             gap1: string, word: string, gap2: string, year: string)

  predicate WellFormedDayList(f: DayList)
  {
    DayDigits(f.first) && |f.more| > 0 &&
    (forall k | 0 <= k < |f.more| :: AllIn(f.more[k].0, Spaces) && DayDigits(f.more[k].1)) &&
    |f.gap1| > 0 && AllIn(f.gap1, Spaces) && |f.word| > 0 && AllIn(f.word, WordChars) &&
    |f.gap2| > 0 && AllIn(f.gap2, Spaces) && YearDigits(f.year)
  }

  function SpellMore(more: seq<(string, string)>): string
    decreases |more|
  {
    if |more| == 0 then "" else [','] + more[0].0 + more[0].1 + SpellMore(more[1..])
  }

  function SpellDayList(f: DayList): string
  {
    f.first + SpellMore(f.more) + f.gap1 + f.word + f.gap2 + f.year
  }

  lemma WordYearTailOf(gap1: string, word: string, gap2: string, year: string)
    requires |gap1| > 0 && AllIn(gap1, Spaces) && |word| > 0 && AllIn(word, WordChars)
    requires |gap2| > 0 && AllIn(gap2, Spaces) && YearDigits(year)
    ensures WordYearTail(gap1 + word + gap2 + year) == Some((word, year))
  {
    var r := gap1 + word + gap2 + year;
    RunOf(gap1, word + gap2 + year, Spaces);
    assert r == gap1 + (word + gap2 + year);
    assert r[|gap1|..] == word + gap2 + year;
    RunOf(word, gap2 + year, WordChars);
    assert word + gap2 + year == word + (gap2 + year);
    assert (word + gap2 + year)[|word|..] == gap2 + year;
    assert (word + gap2 + year)[..|word|] == word;
    RunOf(gap2, year, Spaces);
    assert (gap2 + year)[|gap2|..] == year;
  }

  lemma SpellMoreStartsWithComma(more: seq<(string, string)>)
    requires |more| > 0
    ensures |SpellMore(more)| > 0 && SpellMore(more)[0] == ','
  {
  }

  lemma {:induction false} DayListTailOf(more: seq<(string, string)>, tail: string)
    requires |more| > 0
    requires forall k | 0 <= k < |more| :: AllIn(more[k].0, Spaces) && DayDigits(more[k].1)
    requires tail == [] || (tail[0] != ',' && !IsDigit(tail[0]))
    requires |SpellMore(more)| > 0 && SpellMore(more)[0] == ','
    ensures DayListTail(SpellMore(more) + tail) ==
            (if |more| == 1 then WordYearTail(tail) else DayListTail(SpellMore(more[1..]) + tail))
  {
    var (sp, d) := more[0];
    var rest := SpellMore(more[1..]);
    var t := SpellMore(more) + tail;
    var after := rest + tail;
    assert t == [','] + (sp + (d + after));
    var u := t[1..];
    assert u == sp + (d + after);
    assert after == [] || !IsDigit(after[0]) by {
      if |more| > 1 {
        SpellMoreStartsWithComma(more[1..]);
        assert after[0] == rest[0];
      } else {
        assert rest == "";
      }
    }
    assert after == [] || !InClass((d + after)[0], Spaces);
    RunOf(sp, d + after, Spaces);
    assert u[|sp|..] == d + after;
    RunOf(d, after, Digits);
    assert (d + after)[|d|..] == after;
    if |more| == 1 {
      assert rest == "";
      assert after == tail;
    } else {
      assert after[0] == ',';
    }
  }

  lemma {:induction false} DayListTailComplete(f: DayList)
    requires WellFormedDayList(f)
    ensures var tail := f.gap1 + f.word + f.gap2 + f.year;
      SpellMore(f.more)[0] == ',' &&
      DayListTail(SpellMore(f.more) + tail) == Some((f.word, f.year))
    decreases |f.more|
  {
    var tail := f.gap1 + f.word + f.gap2 + f.year;
    assert tail[0] != ',' && !IsDigit(tail[0]) by { assert tail[0] == f.gap1[0]; }
    assert SpellMore(f.more)[0] == ',';
    DayListTailOf(f.more, tail);
    if |f.more| == 1 {
      WordYearTailOf(f.gap1, f.word, f.gap2, f.year);
    } else {
      DayListTailComplete(f.(more := f.more[1..]));
    }
  }

  /** Every day list that the regular expression describes is recognised,
      with its first day, its word and its year. */
  lemma MultiDayComplete(f: DayList)
    requires WellFormedDayList(f)
    ensures MatchMultiDay(SpellDayList(f)) == Some((f.first, f.word, f.year))
  {
    var tail := f.gap1 + f.word + f.gap2 + f.year;
    var t := SpellMore(f.more) + tail;
    var s := SpellDayList(f);
    assert s == f.first + t;
    DayListTailComplete(f);
    RunOf(f.first, t, Digits);
    assert s[|f.first|..] == t;
    assert s[..|f.first|] == f.first;
  }

  /** A label whose leading digits are followed by anything but a comma is
      not a day list. */
  lemma NotMultiDay(d: string, rest: string)
    requires AllDigits(d) && |rest| > 0 && rest[0] != ',' && !IsDigit(rest[0])
    ensures MatchMultiDay(d + rest) == None
  {
    RunOf(d, rest, Digits);
    assert (d + rest)[|d|] == rest[0];
  }

  /** Step three of the resolver: a day list becomes its first day. */
  function CollapseDays(s: string): string
  {
    match MatchMultiDay(s)
    case Some((d, w, y)) => d + " " + w + " " + y
    case None => s
  }

  // ----------------------------------------------------------- numeric form

  predicate IsDateSep(c: char) { c == '-' || c == '/' || c == '.' }

  /** `^(\d{1,2})[-/.](\d{1,2})[-/.](\d{4})$`: day, month and year. */
  function MatchNumeric(s: string): (r: Option<(string, string, string)>)
    ensures r.Some? ==>
      var (d, m, y) := r.value;
      DayDigits(d) && DayDigits(m) && YearDigits(y) &&
      |s| == |d| + |m| + |y| + 2 && s[..|d|] == d && IsDateSep(s[|d|]) &&
      s[|d| + 1..|d| + 1 + |m|] == m && IsDateSep(s[|d| + 1 + |m|]) && s[|d| + |m| + 2..] == y
  {
    var a := Run(s, Digits);
    if a < 1 || a > 2 || a == |s| || !IsDateSep(s[a]) then None
    else
      var t := s[a + 1..];
      var b := Run(t, Digits);
      if b < 1 || b > 2 || b == |t| || !IsDateSep(t[b]) then None
      else
        var y := t[b + 1..];
        if !YearDigits(y) then None
        else
          assert s[a + 1..a + 1 + b] == t[..b];
          Some((s[..a], t[..b], y))
  }

  /** Every numeric label is recognised with its three groups. */
  lemma NumericComplete(d: string, sep1: char, m: string, sep2: char, y: string)
    requires DayDigits(d) && DayDigits(m) && YearDigits(y) && IsDateSep(sep1) && IsDateSep(sep2)
    ensures MatchNumeric(d + [sep1] + m + [sep2] + y) == Some((d, m, y))
  {
    var t := m + [sep2] + y;
    var s := d + [sep1] + m + [sep2] + y;
    assert s == d + ([sep1] + t) && s[|d|] == sep1 && s[..|d|] == d && s[|d| + 1..] == t by {
      assert s == d + ([sep1] + t);
    }
    assert Run(s, Digits) == |d| by {
      RunOf(d, [sep1] + t, Digits);
    }
    assert t == m + ([sep2] + y) && t[|m|] == sep2 && t[..|m|] == m && t[|m| + 1..] == y by {
      assert t == m + ([sep2] + y);
    }
    assert Run(t, Digits) == |m| by {
      RunOf(m, [sep2] + y, Digits);
    }
  }

  // ------------------------------------------------------- embedded pattern

  /** `\s+([a-z]+)\.?\s+(\d{4})` (case-insensitive) at the start of `t`:
      the word and the year that follow the day. */
  function AfterDay(t: string): (r: Option<(string, string)>)
    ensures r.Some? ==> |r.value.0| > 0 && AllIn(r.value.0, Letters) && YearDigits(r.value.1)
  {
    var s1 := Run(t, Spaces);
    var t2 := t[s1..];
    var w := Run(t2, Letters);
    var t3 := t2[w..];
    var t4 := if |t3| > 0 && t3[0] == '.' then t3[1..] else t3;
    var s2 := Run(t4, Spaces);
    var t5 := t4[s2..];
    if s1 == 0 || w == 0 || s2 == 0 || |t5| < 4 || !AllDigits(t5[..4]) then None
    else Some((t2[..w], t5[..4]))
  }

  /** `(\d{1,2})\s+([a-z]+)\.?\s+(\d{4})` at the start of `t`: the day,
      the word and the year. A run of three or more digits has no match
      at its start, because neither one nor two digits are then followed
      by white space. */
  function MatchFrom(t: string): (r: Option<(string, string, string)>)
    ensures r.Some? ==> DayDigits(r.value.0) && |r.value.1| > 0 && AllIn(r.value.1, Letters) &&
                        YearDigits(r.value.2)
  {
    var a := Run(t, Digits);
    if a < 1 || a > 2 then None
    else
      match AfterDay(t[a..])
      case None => None
      case Some((w, y)) => Some((t[..a], w, y))
  }

  /** The pattern tried at position `i` of `s`. */
  function MatchAt(s: string, i: nat): (r: Option<(string, string, string)>)
    requires i <= |s|
  {
    MatchFrom(s[i..])
  }

  /** White space, a word, one space and the rest: the rest supplies the
      year when it starts with four digits. */
  lemma AfterDayOf(w: string, rest: string)
    requires |w| > 0 && AllIn(w, Letters) && (rest == [] || !IsSpace(rest[0]))
    ensures AfterDay(" " + w + " " + rest) ==
            (if |rest| >= 4 && AllDigits(rest[..4]) then Some((w, rest[..4])) else None)
  {
    var t := " " + w + " " + rest;
    assert t == " " + (w + (" " + rest));
    RunOf(" ", w + (" " + rest), Spaces);
    var t2 := w + (" " + rest);
    assert t[1..] == t2;
    RunOf(w, " " + rest, Letters);
    assert t2[|w|..] == " " + rest;
    assert t2[..|w|] == w;
    RunOf(" ", rest, Spaces);
    assert (" " + rest)[1..] == rest;
  }

  /** A day of one or two digits, then what follows it. */
  lemma MatchFromOf(d: string, rest: string)
    requires DayDigits(d) && (rest == [] || !IsDigit(rest[0]))
    ensures MatchFrom(d + rest) ==
            (if AfterDay(rest).Some? then Some((d, AfterDay(rest).value.0, AfterDay(rest).value.1)) else None)
  {
    DigitsInClass(d);
    RunOf(d, rest, Digits);
    assert (d + rest)[|d|..] == rest;
    assert (d + rest)[..|d|] == d;
  }

  /** The leftmost match at position `i` or later, with its position. */
  function FirstEmbedded(s: string, i: nat): (r: Option<(nat, (string, string, string))>)
    requires i <= |s|
    ensures r.Some? ==> i <= r.value.0 <= |s| && MatchAt(s, r.value.0) == Some(r.value.1)
    ensures r.Some? ==> forall j | i <= j < r.value.0 :: MatchAt(s, j).None?
    ensures r.None? ==> forall j | i <= j <= |s| :: MatchAt(s, j).None?
    decreases |s| - i
  {
    match MatchAt(s, i)
    case Some(g) => Some((i, g))
    case None => if i == |s| then None else FirstEmbedded(s, i + 1)
  }

  /** The leftmost match is found: when no position before `k` matches and
      `k` does, the scan stops at `k`. */
  lemma {:induction false} FirstEmbeddedAt(s: string, i: nat, k: nat)
    requires i <= k <= |s| && MatchAt(s, k).Some?
    requires forall j | i <= j < k :: MatchAt(s, j).None?
    ensures FirstEmbedded(s, i) == Some((k, MatchAt(s, k).value))
    decreases k - i
  {
    if i < k {
      FirstEmbeddedAt(s, i + 1, k);
    }
  }

  // -------------------------------------------------------- the host parser

  /** The English month names the host parser knows, lower case. */
  const EnglishNames: seq<string> := [
    "january", "february", "march", "april", "may", "june",
    "july", "august", "september", "october", "november", "december"
  ]

  /** A month word as the host reads it: the full English name or its first
      three letters, in any case. */
  function MonthNumber(w: string): (r: Option<int>)
    ensures r.Some? ==> (1 <= r.value <= 12 &&
      (Lower(w) == EnglishNames[r.value - 1] || Lower(w) == EnglishNames[r.value - 1][..3]))
    ensures r.None? ==>
      (forall k | 0 <= k < 12 :: Lower(w) != EnglishNames[k] && Lower(w) != EnglishNames[k][..3])
  {
    MonthSearch(Lower(w), 0)
  }

  /** The first month from index `k` on (counting from 0) whose name or
      abbreviation is `lw`. */
  function MonthSearch(lw: string, k: nat): (r: Option<int>)
    requires k <= 12
    ensures r.Some? ==> (k < r.value <= 12 &&
      (lw == EnglishNames[r.value - 1] || lw == EnglishNames[r.value - 1][..3]))
    ensures r.None? ==>
      (forall j | k <= j < 12 :: lw != EnglishNames[j] && lw != EnglishNames[j][..3])
    decreases 12 - k
  {
    if k == 12 then None
    else if lw == EnglishNames[k] || lw == EnglishNames[k][..3] then Some(k + 1)
    else MonthSearch(lw, k + 1)
  }

  /** `new Date(str)`, deliberately narrow: exactly "D Month YYYY" with single
      spaces, a day of one or two digits that exists in that month, an
      English month name or abbreviation and a four-digit year. */
  function HostParse(s: string): (r: Option<Date>)
    ensures r.Some? ==> Valid(r.value)
  {
    var parts := SplitOn(s, ' ');
    if |parts| != 3 || !DayDigits(parts[0]) || !YearDigits(parts[2]) then None
    else
      match MonthNumber(parts[1])
      case None => None
      case Some(m) =>
        var year := DecimalValue(parts[2]);
        var day := DecimalValue(parts[0]);
        if 1 <= day <= DaysInMonth(year, m) then Some(Date(year, m, day)) else None
  }

  /** Three parts joined by single spaces split back into those parts. */
  lemma SplitThree(a: string, b: string, c: string)
    requires ' ' !in a && ' ' !in b && ' ' !in c
    ensures SplitOn(a + " " + b + " " + c, ' ') == [a, b, c]
  {
    assert a + " " + b + " " + c == a + [' '] + (b + [' '] + c);
    SplitOnCons(a, ' ', b + [' '] + c);
    SplitOnCons(b, ' ', c);
  }

  /** The host reads the English month names of the table. */
  lemma MonthNumberOfEnglish(m: int)
    requires 1 <= m <= 12
    ensures MonthNumber(EnglishMonth(m)) == Some(m)
  {
    var e := EnglishMonth(m);
    assert Lower(e) == EnglishNames[m - 1] by {
      assert |Lower(e)| == |EnglishNames[m - 1]|;
      forall i | 0 <= i < |e| ensures Lower(e)[i] == EnglishNames[m - 1][i] {
      }
    }
    forall j | 0 <= j < m - 1
      ensures EnglishNames[m - 1] != EnglishNames[j] && EnglishNames[m - 1] != EnglishNames[j][..3]
    {
      NamesDiffer(j, m - 1);
    }
    MonthSearchFinds(Lower(e), 0, m);
  }

  /** A month name differs from every earlier name and abbreviation. */
  lemma NamesDiffer(i: nat, k: nat)
    requires i < k < 12
    ensures EnglishNames[k] != EnglishNames[i] && EnglishNames[k] != EnglishNames[i][..3]
  {
    var a, b := EnglishNames[i], EnglishNames[k];
    assert |a[..3]| == 3;
    assert |a| != |b| || a[0] != b[0] || a[2] != b[2];
    assert |b| != 3 || b[0] != a[0] || b[2] != a[2];
  }

  lemma {:induction false} MonthSearchFinds(lw: string, from: nat, m: int)
    requires from < m <= 12 && (lw == EnglishNames[m - 1] || lw == EnglishNames[m - 1][..3])
    requires forall j | from <= j < m - 1 :: lw != EnglishNames[j] && lw != EnglishNames[j][..3]
    ensures MonthSearch(lw, from) == Some(m)
    decreases m - from
  {
    if from < m - 1 {
      MonthSearchFinds(lw, from + 1, m);
    }
  }

  /** The host parses a well-formed "D Month YYYY" to that date. */
  lemma HostParseOf(d: string, m: int, y: string)
    requires DayDigits(d) && 1 <= m <= 12 && YearDigits(y)
    requires 1 <= DecimalValue(d) <= DaysInMonth(DecimalValue(y), m)
    ensures HostParse(d + " " + EnglishMonth(m) + " " + y) == Some(Date(DecimalValue(y), m, DecimalValue(d)))
  {
    var e := EnglishMonth(m);
    assert SplitOn(d + " " + e + " " + y, ' ') == [d, e, y] by {
      DigitsInClass(d);
      DigitsInClass(y);
      EnglishWord(m);
      assert ' ' !in d by { assert NoSpace(d); }
      assert ' ' !in y by { assert NoSpace(y); }
      SplitThree(d, e, y);
    }
    MonthNumberOfEnglish(m);
  }

  /** A label holding no space is never read by the host. */
  lemma HostParseNoSpace(s: string)
    requires ' ' !in s
    ensures HostParse(s) == None
  {
  }

  // ---------------------------------------------------------- the resolver

  /** Which attempt produced the date. */
  datatype Outcome = Direct(date: Date) | Numeric(date: Date) | Embedded(date: Date) | Unknown

  /** The text after trimming, lower-casing, collapsing a day list and
      translating the month names. */
  function Prepared(text: string): string
  {
    TranslateMonths(CollapseDays(Lower(Trim(text))))
  }

  /** The three attempts on the prepared text, in order. */
  function Attempt(s: string): (o: Outcome)
    ensures !o.Unknown? ==> Valid(o.date)
  {
    match HostParse(s)
    case Some(date) => Direct(date)
    case None =>
      match MatchNumeric(s)
      case Some((d, m, y)) => Numeric(MakeDate(DecimalValue(y), DecimalValue(m) - 1, DecimalValue(d)))
      case None =>
        match FirstEmbedded(s, 0)
        case None => Unknown
        case Some((_, g)) =>
          match HostParse(EmbeddedText(g))
          case Some(date) => Embedded(date)
          case None => Unknown
  }

  /** The embedded match rewritten as "D word YYYY" for the host parser. */
  function EmbeddedText(g: (string, string, string)): string
  {
    g.0 + " " + g.1 + " " + g.2
  }

  function OutcomeOf(text: string): Outcome
  {
    if text == "" then Unknown else Attempt(Prepared(text))
  }

  /** The date an outcome stands for; the sentinel when nothing was read. */
  function DateOf(o: Outcome): Date
  {
    if o.Unknown? then Epoch else o.date
  }

  /** `parseDate(text)`: the date of the first attempt that succeeds, the
      sentinel when the text is empty or no attempt succeeds. */
  function Resolve(text: string): (d: Date)
    ensures Valid(d)
    ensures text == "" ==> d == Epoch
  {
    DateOf(OutcomeOf(text))
  }

  /** `isPast(text)` for the injected day `today`. */
  predicate IsPast(text: string, today: Date)
  {
    Before(Resolve(text), today)
  }

  // ------------------------------------------------------ the attempt order

  /** The host's reading wins whenever there is one. */
  lemma AttemptDirect(s: string)
    requires HostParse(s).Some?
    ensures Attempt(s) == Direct(HostParse(s).value)
  {
  }

  /** The numeric form is used only when the host did not read the text. */
  lemma AttemptNumeric(s: string, d: string, m: string, y: string)
    requires HostParse(s).None? && MatchNumeric(s) == Some((d, m, y))
    ensures Attempt(s) == Numeric(MakeDate(DecimalValue(y), DecimalValue(m) - 1, DecimalValue(d)))
  {
  }

  /** The embedded pattern is used only when both earlier attempts failed,
      and only its first match is handed to the host. */
  lemma AttemptEmbedded(s: string, k: nat, g: (string, string, string))
    requires HostParse(s).None? && MatchNumeric(s).None? && FirstEmbedded(s, 0) == Some((k, g))
    requires HostParse(EmbeddedText(g)).Some?
    ensures Attempt(s) == Embedded(HostParse(EmbeddedText(g)).value)
  {
  }

  /** Nothing is read exactly when the host, the numeric form and the first
      embedded match all fail. */
  lemma AttemptUnknown(s: string)
    ensures Attempt(s).Unknown? <==>
      HostParse(s).None? && MatchNumeric(s).None? &&
      (FirstEmbedded(s, 0).None? || HostParse(EmbeddedText(FirstEmbedded(s, 0).value.1)).None?)
  {
  }

  /** A non-empty text resolves through its prepared form. */
  lemma ResolveVia(text: string, s: string)
    requires text != "" && Prepared(text) == s
    ensures Resolve(text) == DateOf(Attempt(s))
  {
  }

  /** `parseDate` as the source runs it: the text is rebound step by step,
      the month table is applied entry by entry and the attempts follow. */
  method ParseDate(text: string) returns (date: Date)
    ensures date == Resolve(text)
  {
    if text == "" {
      return Epoch;
    }
    var str := PrepareText(text);
    ResolveVia(text, str);
    date := TryAttempts(str);
  }

  /** The rewriting half of `parseDate`: trim, lower-case, collapse a day
      list and translate the month names. */
  method PrepareText(text: string) returns (str: string)
    ensures str == Prepared(text)
  {
    str := Lower(Trim(text));
    var multi := MatchMultiDay(str);
    if multi.Some? {
      var (d, w, y) := multi.value;
      str := d + " " + w + " " + y;
    }
    str := ReplaceMonthNames(str);
  }

  /** The month loop of `parseDate`: one table entry at a time, in order. */
  method ReplaceMonthNames(s: string) returns (str: string)
    ensures str == TranslateMonths(s)
  {
    str := s;
    var i := 0;
    TableKeysWellFormed();
    while i < |MonthTable|
      invariant 0 <= i <= |MonthTable|
      invariant ApplyKeys(str, i, |MonthTable|) == TranslateMonths(s)
    {
      str := ReplaceAll(str, MonthTable[i].0, MonthTable[i].1);
      i := i + 1;
    }
  }

  /** The reading half of `parseDate`: the host, the numeric form, then the
      first embedded match, and the sentinel when all fail. */
  method TryAttempts(str: string) returns (date: Date)
    ensures date == DateOf(Attempt(str))
  {
    var direct := HostParse(str);
    if direct.Some? {
      AttemptDirect(str);
      return direct.value;
    }
    var dmy := MatchNumeric(str);
    if dmy.Some? {
      var (d, m, y) := dmy.value;
      AttemptNumeric(str, d, m, y);
      return MakeDate(DecimalValue(y), DecimalValue(m) - 1, DecimalValue(d));
    }
    var complex := FirstEmbedded(str, 0);
    if complex.Some? {
      var extracted := HostParse(EmbeddedText(complex.value.1));
      if extracted.Some? {
        AttemptEmbedded(str, complex.value.0, complex.value.1);
        return extracted.value;
      }
    }
    AttemptUnknown(str);
    return Epoch;
  }

  // ------------------------------------------------------------ properties

  /** Surrounding white space and letter case do not matter. */
  lemma ResolveNormalised(text: string)
    ensures Resolve(text) == Resolve(Lower(Trim(text)))
  {
    var n := Lower(Trim(text));
    TrimLowerCommute(text);
    TrimIdempotent(Lower(text));
    LowerOfLowered(Trim(text));
    assert Lower(Trim(n)) == n by {
      assert Trim(n) == Trim(Trim(Lower(text)));
    }
    if text != "" && n == "" {
      EmptyPreparedUnknown();
    }
  }

  /** A label that trims to nothing resolves to the sentinel. */
  lemma EmptyPreparedUnknown()
    ensures Attempt(Prepared("")) == Unknown
  {
    assert Trim("") == "" && Lower("") == "";
    assert MatchMultiDay("") == None;
    NoLettersUntouched("");
    assert SplitOn("", ' ') == [""];
    assert MatchAt("", 0) == None;
  }

  /** Text that stays free of digits through the month pass. */
  lemma {:induction false} ReplaceKeepsNoDigits(s: string, key: string, value: string)
    requires |key| > 0
    requires forall i | 0 <= i < |s| :: !IsDigit(s[i])
    requires forall i | 0 <= i < |value| :: !IsDigit(value[i])
    ensures forall i | 0 <= i < |ReplaceAll(s, key, value)| :: !IsDigit(ReplaceAll(s, key, value)[i])
    decreases |s|
  {
    if |s| > 0 {
      if StartsWithKey(s, key) {
        ReplaceKeepsNoDigits(s[|key|..], key, value);
      } else {
        ReplaceKeepsNoDigits(s[1..], key, value);
      }
    }
  }

  lemma {:induction false} ApplyKeepsNoDigits(s: string, lo: nat, hi: nat)
    requires lo <= hi <= |MonthTable|
    requires forall i | 0 <= i < |s| :: !IsDigit(s[i])
    ensures forall i | 0 <= i < |ApplyKeys(s, lo, hi)| :: !IsDigit(ApplyKeys(s, lo, hi)[i])
    decreases hi - lo
  {
    if lo < hi {
      TableKeysWellFormed();
      var (k, v) := MonthTable[lo];
      ValuesHaveNoDigits(lo);
      ReplaceKeepsNoDigits(s, k, v);
      ApplyKeepsNoDigits(ReplaceAll(s, k, v), lo + 1, hi);
    }
  }

  /** The English values of the table are words without digits. */
  lemma ValuesHaveNoDigits(t: nat)
    requires t < |MonthTable|
    ensures forall i | 0 <= i < |MonthTable[t].1| :: !IsDigit(MonthTable[t].1[i])
  {
    if t < 12 {
      FullValuesNoDigits();
    } else {
      ShortValuesNoDigits();
    }
  }

  lemma FullValuesNoDigits()
    ensures forall t, i | 0 <= t < 12 && 0 <= i < |MonthTable[t].1| :: !IsDigit(MonthTable[t].1[i])
  {
  }

  lemma ShortValuesNoDigits()
    ensures forall t, i | 12 <= t < 35 && 0 <= i < |MonthTable[t].1| :: !IsDigit(MonthTable[t].1[i])
  {
  }

  /** Every attempt needs a digit: text without one is never a date. */
  lemma AttemptNeedsDigit(s: string)
    requires forall i | 0 <= i < |s| :: !IsDigit(s[i])
    ensures Attempt(s) == Unknown
  {
    var parts := SplitOn(s, ' ');
    if |parts| == 3 && DayDigits(parts[0]) {
      var k := SplitPartIn(s, ' ', 0);
      assert false;
    }
    forall j | 0 <= j <= |s| ensures MatchAt(s, j).None? {
      if j < |s| {
        assert !IsDigit(s[j..][0]);
      }
    }
  }

  /** The characters of a part of `SplitOn(s, sep)` are characters of `s`:
      the first character of part `p`, when there is one, sits at `k`. */
  lemma {:induction false} SplitPartIn(s: string, sep: char, p: nat) returns (k: nat)
    requires p < |SplitOn(s, sep)| && |SplitOn(s, sep)[p]| > 0
    ensures k < |s| && s[k] == SplitOn(s, sep)[p][0]
    decreases |s|
  {
    if sep !in s {
      assert SplitOn(s, sep) == [s];
      k := 0;
    } else {
      var i := IndexOf(s, sep);
      var rest := s[i + 1..];
      assert SplitOn(s, sep) == [s[..i]] + SplitOn(rest, sep);
      if p == 0 {
        k := 0;
      } else {
        assert SplitOn(s, sep)[p] == SplitOn(rest, sep)[p - 1];
        var k' := SplitPartIn(rest, sep, p - 1);
        k := i + 1 + k';
        assert s[k] == rest[k'];
      }
    }
  }

  /** A label without any digit ("n.t.b.", "Not a date") resolves to the sentinel. */
  lemma NoDigitsIsSentinel(text: string)
    requires forall i | 0 <= i < |text| :: !IsDigit(text[i])
    ensures Resolve(text) == Epoch
  {
    if text != "" {
      var t := Trim(text);
      var n := Lower(t);
      var k := TrimShape(text);
      assert forall i | 0 <= i < |t| :: !IsDigit(t[i]) by {
        forall i | 0 <= i < |t| ensures !IsDigit(t[i]) {
          assert t[i] == text[k + i];
        }
      }
      assert MatchMultiDay(n) == None;
      ApplyKeepsNoDigits(n, 0, |MonthTable|);
      AttemptNeedsDigit(Prepared(text));
    }
  }

  /** A label that is already trimmed, lower case and starts and ends with a
      digit is its own normal form. */
  lemma NormalFormOf(s: string)
    requires |s| > 0 && IsDigit(s[0]) && IsDigit(s[|s| - 1]) && NoUpper(s)
    ensures Lower(Trim(s)) == s
  {
    TrimUnchanged(s);
    LowerNoUpper(s);
  }

  /** Preparing "D maand YYYY" only translates the Dutch month. */
  lemma PreparedDutchDate(d: string, m: int, y: string)
    requires DayDigits(d) && 1 <= m <= 12 && YearDigits(y)
    ensures Prepared(d + " " + DutchMonth(m) + " " + y) == d + " " + EnglishMonth(m) + " " + y
  {
    var w := DutchMonth(m);
    assert CollapseDays(Lower(Trim(d + " " + w + " " + y))) == d + " " + w + " " + y by {
      assert NoUpper(w);
      ShortNormal(d, w, y);
    }
    assert TranslateMonths(d + " " + w + " " + y) == d + " " + EnglishMonth(m) + " " + y by {
      DigitsInClass(d);
      DigitsInClass(y);
      NoLettersUntouched(d);
      NoLettersUntouched(y);
      TranslateDutchMonth(m);
      TranslateBetween(d, w, EnglishMonth(m), y);
    }
  }

  /** "D maand YYYY" with a Dutch month resolves to that day. */
  lemma ResolveDutchDate(d: string, m: int, y: string)
    requires DayDigits(d) && 1 <= m <= 12 && YearDigits(y)
    requires 1 <= DecimalValue(d) <= DaysInMonth(DecimalValue(y), m)
    ensures Resolve(d + " " + DutchMonth(m) + " " + y) == Date(DecimalValue(y), m, DecimalValue(d))
  {
    var s := d + " " + EnglishMonth(m) + " " + y;
    PreparedDutchDate(d, m, y);
    HostParseOf(d, m, y);
    AttemptDirect(s);
    ResolveVia(d + " " + DutchMonth(m) + " " + y, s);
  }

  /** Preparing a day list collapses it to its first day. */
  lemma PreparedDayList(f: DayList)
    requires WellFormedDayList(f) && NoUpper(f.word)
    ensures Prepared(SpellDayList(f)) == Prepared(f.first + " " + f.word + " " + f.year)
  {
    var short := f.first + " " + f.word + " " + f.year;
    DayListNormal(f);
    ShortNormal(f.first, f.word, f.year);
    assert CollapseDays(Lower(Trim(SpellDayList(f)))) == short;
    assert CollapseDays(Lower(Trim(short))) == short;
  }

  /** A day list is its own normal form and collapses to its first day. */
  lemma DayListNormal(f: DayList)
    requires WellFormedDayList(f) && NoUpper(f.word)
    ensures CollapseDays(Lower(Trim(SpellDayList(f)))) == f.first + " " + f.word + " " + f.year
  {
    var s := SpellDayList(f);
    DigitsInClass(f.first);
    DigitsInClass(f.year);
    assert NoUpper(s) by {
      assert NoUpper(SpellMore(f.more)) by { SpellMoreNoUpper(f.more); }
      assert NoUpper(f.gap1) && NoUpper(f.gap2);
    }
    assert s[0] == f.first[0];
    assert s[|s| - 1] == f.year[3];
    NormalFormOf(s);
    MultiDayComplete(f);
  }

  /** "D word YYYY" is its own normal form and is not a day list. */
  lemma ShortNormal(d: string, w: string, y: string)
    requires DayDigits(d) && YearDigits(y) && NoUpper(w)
    ensures CollapseDays(Lower(Trim(d + " " + w + " " + y))) == d + " " + w + " " + y
  {
    var short := d + " " + w + " " + y;
    DigitsInClass(d);
    DigitsInClass(y);
    assert NoUpper(short);
    assert short[|short| - 1] == y[3];
    NormalFormOf(short);
    assert short == d + (" " + w + " " + y);
    NotMultiDay(d, " " + w + " " + y);
  }

  /** A day list resolves like its first day alone. */
  lemma ResolveDayList(f: DayList)
    requires WellFormedDayList(f) && NoUpper(f.word)
    ensures Resolve(SpellDayList(f)) == Resolve(f.first + " " + f.word + " " + f.year)
  {
    var short := f.first + " " + f.word + " " + f.year;
    PreparedDayList(f);
    assert |SpellDayList(f)| > 0 by { assert |f.first| > 0; }
    ResolveVia(SpellDayList(f), Prepared(short));
    ResolveVia(short, Prepared(short));
  }

  lemma {:induction false} SpellMoreNoUpper(more: seq<(string, string)>)
    requires forall k | 0 <= k < |more| :: AllIn(more[k].0, Spaces) && DayDigits(more[k].1)
    ensures NoUpper(SpellMore(more))
    decreases |more|
  {
    if |more| > 0 {
      SpellMoreNoUpper(more[1..]);
      assert NoUpper(more[0].0) && NoUpper(more[0].1);
    }
  }

  /** Preparing the numeric form changes nothing. */
  lemma PreparedNumeric(d: string, sep1: char, m: string, sep2: char, y: string)
    requires DayDigits(d) && DayDigits(m) && YearDigits(y) && IsDateSep(sep1) && IsDateSep(sep2)
    ensures Prepared(d + [sep1] + m + [sep2] + y) == d + [sep1] + m + [sep2] + y
  {
    var s := d + [sep1] + m + [sep2] + y;
    DigitsInClass(d);
    DigitsInClass(m);
    DigitsInClass(y);
    assert Lower(Trim(s)) == s by {
      assert NoUpper(s);
      assert s[|s| - 1] == y[3];
      NormalFormOf(s);
    }
    assert CollapseDays(s) == s by {
      assert s == d + ([sep1] + m + [sep2] + y);
      NotMultiDay(d, [sep1] + m + [sep2] + y);
    }
    assert TranslateMonths(s) == s by {
      assert forall i | 0 <= i < |s| :: !IsLetter(s[i]);
      NoLettersUntouched(s);
    }
  }

  /** The numeric form is read as day, month, year with the month counted
      from zero in the constructor, so overflowing days and months carry. */
  lemma ResolveNumeric(d: string, sep1: char, m: string, sep2: char, y: string)
    requires DayDigits(d) && DayDigits(m) && YearDigits(y) && IsDateSep(sep1) && IsDateSep(sep2)
    ensures Resolve(d + [sep1] + m + [sep2] + y) ==
            MakeDate(DecimalValue(y), DecimalValue(m) - 1, DecimalValue(d))
  {
    var s := d + [sep1] + m + [sep2] + y;
    assert HostParse(s) == None by {
      DigitsInClass(d);
      DigitsInClass(m);
      DigitsInClass(y);
      assert ' ' !in s;
      HostParseNoSpace(s);
    }
    assert MatchNumeric(s) == Some((d, m, y)) by {
      NumericComplete(d, sep1, m, sep2, y);
    }
    AttemptNumeric(s, d, m, y);
    PreparedNumeric(d, sep1, m, sep2, y);
    ResolveVia(s, s);
  }

  /** Preparing "A en B maand YYYY" only translates the Dutch month. */
  lemma PreparedTwoDays(a: string, b: string, m: int, y: string)
    requires DayDigits(a) && DayDigits(b) && 1 <= m <= 12 && YearDigits(y)
    ensures Prepared(a + " en " + b + " " + DutchMonth(m) + " " + y) ==
            a + " en " + (b + " " + EnglishMonth(m) + " " + y)
  {
    var text := a + " en " + b + " " + DutchMonth(m) + " " + y;
    TwoDaysNormal(a, b, DutchMonth(m), y);
    TwoDaysTranslate(a, b, m, y);
    assert CollapseDays(Lower(Trim(text))) == text;
  }

  /** "A en B word YYYY" is its own normal form and is not a day list. */
  lemma TwoDaysNormal(a: string, b: string, w: string, y: string)
    requires DayDigits(a) && DayDigits(b) && YearDigits(y) && NoUpper(w)
    ensures CollapseDays(Lower(Trim(a + " en " + b + " " + w + " " + y))) == a + " en " + b + " " + w + " " + y
  {
    var text := a + " en " + b + " " + w + " " + y;
    DigitsInClass(a);
    DigitsInClass(b);
    DigitsInClass(y);
    assert NoUpper(text);
    assert text[|text| - 1] == y[3];
    NormalFormOf(text);
    assert text == a + (" en " + b + " " + w + " " + y);
    NotMultiDay(a, " en " + b + " " + w + " " + y);
  }

  /** The month pass on "A en B maand YYYY" touches only the month name. */
  lemma TwoDaysTranslate(a: string, b: string, m: int, y: string)
    requires DayDigits(a) && DayDigits(b) && 1 <= m <= 12 && YearDigits(y)
    ensures TranslateMonths(a + " en " + b + " " + DutchMonth(m) + " " + y) ==
            a + " en " + (b + " " + EnglishMonth(m) + " " + y)
  {
    var p := a + " en " + b;
    var e := EnglishMonth(m);
    assert TranslateMonths(p + " " + DutchMonth(m) + " " + y) == p + " " + e + " " + y by {
      DigitsInClass(y);
      NoLettersUntouched(y);
      TwoDaysPrefix(a, b);
      TranslateDutchMonth(m);
      TranslateBetween(p, DutchMonth(m), e, y);
    }
    assert p + " " + e + " " + y == a + " en " + (b + " " + e + " " + y);
  }

  /** The month pass on three space-separated parts is the pass on each. */
  lemma TranslateBetween(p: string, w: string, e: string, y: string)
    requires TranslateMonths(p) == p && TranslateMonths(w) == e && TranslateMonths(y) == y
    ensures TranslateMonths(p + " " + w + " " + y) == p + " " + e + " " + y
  {
    TranslateAroundSpace(p, w);
    TranslateAroundSpace(p + " " + w, y);
  }

  /** The month pass leaves "A en B" alone. */
  lemma TwoDaysPrefix(a: string, b: string)
    requires DayDigits(a) && DayDigits(b)
    ensures TranslateMonths(a + " en " + b) == a + " en " + b
  {
    DigitsInClass(a);
    DigitsInClass(b);
    TranslateAroundSpace(a, "en");
    TranslateAroundSpace(a + " " + "en", b);
    NoLettersUntouched(a);
    NoLettersUntouched(b);
    EnUntouched();
    assert a + " en " + b == (a + " " + "en") + " " + b;
  }

  /** "A en B maand YYYY" resolves to day B: the first embedded match is the
      one at B, because A is not followed by a month and a year. */
  lemma ResolveTwoDays(a: string, b: string, m: int, y: string)
    requires DayDigits(a) && DayDigits(b) && 1 <= m <= 12 && YearDigits(y)
    requires 1 <= DecimalValue(b) <= DaysInMonth(DecimalValue(y), m)
    ensures Resolve(a + " en " + b + " " + DutchMonth(m) + " " + y) ==
            Date(DecimalValue(y), m, DecimalValue(b))
  {
    PreparedTwoDays(a, b, m, y);
    TwoDaysAttempt(a, b, m, y);
    ResolveVia(a + " en " + b + " " + DutchMonth(m) + " " + y, a + " en " + (b + " " + EnglishMonth(m) + " " + y));
  }

  lemma EnUntouched()
    ensures ApplyKeys("en", 0, |MonthTable|) == "en"
  {
    assert CoveredBy("en", {'e', 'n'});
    assert forall u | 0 <= u < 35 :: KeyMisses(MonthTable[u].0, {'e', 'n'});
    ApplyMissing("en", 0, 35, {'e', 'n'});
  }

  /** On the prepared form, the host and the numeric form both fail and the
      first embedded match is the one at B. */
  lemma TwoDaysAttempt(a: string, b: string, m: int, y: string)
    requires DayDigits(a) && DayDigits(b) && 1 <= m <= 12 && YearDigits(y)
    requires 1 <= DecimalValue(b) <= DaysInMonth(DecimalValue(y), m)
    ensures Attempt(a + " en " + (b + " " + EnglishMonth(m) + " " + y)) ==
            Embedded(Date(DecimalValue(y), m, DecimalValue(b)))
  {
    var e := EnglishMonth(m);
    var g := (b, e, y);
    var s := a + " en " + EmbeddedText(g);
    EnglishWord(m);
    assert HostParse(s).None? && MatchNumeric(s).None? by {
      TwoDaysFailEarly(a, b, e, y);
    }
    EmbeddedAtTail(b, e, y);
    var k := TwoDaysFirstMatch(a, b, e, y, e);
    assert HostParse(EmbeddedText(g)) == Some(Date(DecimalValue(y), m, DecimalValue(b))) by {
      HostParseOf(b, m, y);
    }
    AttemptEmbedded(s, k, g);
  }

  /** An English month name is a single word of letters. */
  lemma EnglishWord(m: int)
    requires 1 <= m <= 12
    ensures |EnglishMonth(m)| > 0 && AllIn(EnglishMonth(m), Letters) && ' ' !in EnglishMonth(m)
  {
    if m <= 6 {
      EnglishWordFirstHalf(m);
    } else {
      EnglishWordSecondHalf(m);
    }
  }

  lemma EnglishWordFirstHalf(m: int)
    requires 1 <= m <= 6
    ensures |EnglishMonth(m)| > 0 && AllIn(EnglishMonth(m), Letters) && ' ' !in EnglishMonth(m)
  {
  }

  lemma EnglishWordSecondHalf(m: int)
    requires 7 <= m <= 12
    ensures |EnglishMonth(m)| > 0 && AllIn(EnglishMonth(m), Letters) && ' ' !in EnglishMonth(m)
  {
  }

  /** Neither the host nor the numeric form reads "A en B Month YYYY". */
  lemma TwoDaysFailEarly(a: string, b: string, e: string, y: string)
    requires DayDigits(a) && DayDigits(b) && YearDigits(y) && ' ' !in e
    ensures HostParse(a + " en " + (b + " " + e + " " + y)) == None
    ensures MatchNumeric(a + " en " + (b + " " + e + " " + y)) == None
  {
    var tail := b + " " + e + " " + y;
    var s := a + " en " + tail;
    DigitsInClass(a);
    DigitsInClass(b);
    DigitsInClass(y);
    assert ' ' !in a && ' ' !in b && ' ' !in y;
    SplitTwoDays(a, tail, b, e, y);
    assert s == a + (" en " + tail);
    RunOf(a, " en " + tail, Digits);
  }

  /** The first embedded match in "A en B Month YYYY" starts at B; its word
      is the month without a trailing dot. */
  lemma TwoDaysFirstMatch(a: string, b: string, e: string, y: string, w: string) returns (k: nat)
    requires DayDigits(a) && DayDigits(b) && YearDigits(y)
    requires MatchFrom(b + " " + e + " " + y) == Some((b, w, y))
    ensures FirstEmbedded(a + " en " + (b + " " + e + " " + y), 0) == Some((k, (b, w, y)))
  {
    var tail := b + " " + e + " " + y;
    var s := a + " en " + tail;
    k := |a| + 4;
    assert s[k..] == tail;
    assert MatchAt(s, k) == Some((b, w, y));
    forall j | 0 <= j < k ensures MatchAt(s, j).None? {
      EmbeddedBeforeTail(a, tail, b, e, y, j);
    }
    FirstEmbeddedAt(s, 0, k);
  }

  /** "A en B Month YYYY" has five space-separated words. */
  lemma SplitTwoDays(a: string, tail: string, b: string, e: string, y: string)
    requires ' ' !in a && ' ' !in b && ' ' !in e && ' ' !in y
    requires tail == b + " " + e + " " + y
    ensures |SplitOn(a + " en " + tail, ' ')| == 5
  {
    assert a + " en " + tail == a + [' '] + ("en" + [' '] + tail);
    SplitOnCons(a, ' ', "en" + [' '] + tail);
    SplitOnCons("en", ' ', tail);
    SplitThree(b, e, y);
  }

  /** "B Month YYYY" matches at its start. */
  lemma EmbeddedAtTail(b: string, e: string, y: string)
    requires DayDigits(b) && YearDigits(y) && |e| > 0 && AllIn(e, Letters)
    ensures MatchFrom(b + " " + e + " " + y) == Some((b, e, y))
  {
    assert b + " " + e + " " + y == b + (" " + e + " " + y);
    MatchFromOf(b, " " + e + " " + y);
    AfterDayOf(e, y);
    assert y[..4] == y;
  }

  /** No match starts inside "A en " when A is a one- or two-digit day. */
  lemma EmbeddedBeforeTail(a: string, tail: string, b: string, e: string, y: string, j: nat)
    requires DayDigits(a) && DayDigits(b) && YearDigits(y)
    requires tail == b + " " + e + " " + y
    requires j < |a| + 4
    ensures MatchAt(a + " en " + tail, j).None?
  {
    var s := a + " en " + tail;
    if j >= |a| {
      assert s[j] == " en "[j - |a|];
      NoMatchAtNonDigit(s, j);
    } else {
      EmbeddedInsideDay(a, tail, b, j);
    }
  }

  /** No match starts at a character that is not a digit. */
  lemma NoMatchAtNonDigit(s: string, j: nat)
    requires j < |s| && !IsDigit(s[j])
    ensures MatchAt(s, j).None?
  {
    assert s[j..][0] == s[j];
  }

  /** Inside "A en ...", a match from A would need a year right after "en". */
  lemma EmbeddedInsideDay(a: string, tail: string, b: string, j: nat)
    requires DayDigits(a) && DayDigits(b) && |tail| > |b| && tail[..|b|] == b && tail[|b|] == ' '
    requires j < |a|
    ensures MatchAt(a + " en " + tail, j).None?
  {
    var s := a + " en " + tail;
    var rest := " " + "en" + " " + tail;
    assert s[j..] == a[j..] + rest;
    MatchFromOf(a[j..], rest);
    assert AllIn("en", Letters);
    assert tail[0] == b[0];
    AfterDayOf("en", tail);
    assert |tail| < 4 || tail[..4][|b|] == ' ';
  }

  // ------------------------------------------------- abbreviated months

  /** The first three letters of an English month name form a word. */
  lemma ShortWord(m: int)
    requires 1 <= m <= 12
    ensures |EnglishMonth(m)| >= 3
    ensures AllIn(EnglishMonth(m)[..3], Letters) && ' ' !in EnglishMonth(m)[..3]
  {
    EnglishWord(m);
    var e := EnglishMonth(m);
    assert |e| >= 3;
    assert forall i | 0 <= i < 3 :: e[..3][i] == e[i];
  }

  /** The host reads the three-letter abbreviations of the month names. */
  lemma MonthNumberOfShort(m: int)
    requires 1 <= m <= 12
    ensures |EnglishMonth(m)| >= 3 && MonthNumber(EnglishMonth(m)[..3]) == Some(m)
  {
    ShortWord(m);
    var w := EnglishMonth(m)[..3];
    var lw := EnglishNames[m - 1][..3];
    assert Lower(w) == lw by {
      assert |Lower(w)| == |lw|;
      forall i | 0 <= i < 3 ensures Lower(w)[i] == lw[i] {
      }
    }
    forall j | 0 <= j < m - 1
      ensures lw != EnglishNames[j] && lw != EnglishNames[j][..3]
    {
      ShortNamesDiffer(j, m - 1);
    }
    MonthSearchFinds(Lower(w), 0, m);
  }

  /** A month abbreviation differs from every earlier name and abbreviation. */
  lemma ShortNamesDiffer(i: nat, k: nat)
    requires i < k < 12
    ensures EnglishNames[k][..3] != EnglishNames[i] && EnglishNames[k][..3] != EnglishNames[i][..3]
  {
    var a, b := EnglishNames[i], EnglishNames[k];
    assert |b[..3]| == 3 && |a[..3]| == 3;
    assert |a| != 3 || a[0] != b[0] || a[1] != b[1] || a[2] != b[2];
    assert a[0] != b[0] || a[1] != b[1] || a[2] != b[2];
  }

  /** The host parses "D Abbr YYYY" with an English abbreviation to that date. */
  lemma HostParseOfShort(d: string, m: int, y: string)
    requires DayDigits(d) && 1 <= m <= 12 && YearDigits(y)
    requires 1 <= DecimalValue(d) <= DaysInMonth(DecimalValue(y), m)
    ensures |EnglishMonth(m)| >= 3
    ensures HostParse(d + " " + EnglishMonth(m)[..3] + " " + y) == Some(Date(DecimalValue(y), m, DecimalValue(d)))
  {
    ShortWord(m);
    var w := EnglishMonth(m)[..3];
    assert SplitOn(d + " " + w + " " + y, ' ') == [d, w, y] by {
      DigitsInClass(d);
      DigitsInClass(y);
      assert ' ' !in d by { assert NoSpace(d); }
      assert ' ' !in y by { assert NoSpace(y); }
      SplitThree(d, w, y);
    }
    MonthNumberOfShort(m);
  }

  /** No month name or abbreviation ends in a dot, so the host rejects a
      three-letter word followed by one. */
  lemma DottedWordNotMonth(w: string)
    requires |w| == 3
    ensures MonthNumber(w + ".") == None
  {
    var lw := Lower(w + ".");
    assert |lw| == 4 && lw[3] == '.';
    forall k | 0 <= k < 12
      ensures lw != EnglishNames[k] && lw != EnglishNames[k][..3]
    {
      assert |EnglishNames[k][..3]| == 3;
      if |EnglishNames[k]| == 4 {
        assert EnglishNames[k][3] != '.';
      }
    }
  }

  /** White space, a word, a dot, one space and the rest: the dot is
      skipped by `\.?`. */
  lemma AfterDayOfDot(w: string, rest: string)
    requires |w| > 0 && AllIn(w, Letters) && (rest == [] || !IsSpace(rest[0]))
    ensures AfterDay(" " + (w + ".") + " " + rest) ==
            (if |rest| >= 4 && AllDigits(rest[..4]) then Some((w, rest[..4])) else None)
  {
    var t := " " + (w + ".") + " " + rest;
    assert t == " " + (w + ("." + " " + rest));
    RunOf(" ", w + ("." + " " + rest), Spaces);
    var t2 := w + ("." + " " + rest);
    assert t[1..] == t2;
    RunOf(w, "." + " " + rest, Letters);
    assert t2[|w|..] == "." + " " + rest;
    assert t2[..|w|] == w;
    assert ("." + " " + rest)[1..] == " " + rest;
    RunOf(" ", rest, Spaces);
    assert (" " + rest)[1..] == rest;
  }

  /** "B Abbr. YYYY" matches at its start, with the word before the dot. */
  lemma EmbeddedAtTailDot(b: string, w: string, y: string)
    requires DayDigits(b) && YearDigits(y) && |w| > 0 && AllIn(w, Letters)
    ensures MatchFrom(b + " " + (w + ".") + " " + y) == Some((b, w, y))
  {
    assert b + " " + (w + ".") + " " + y == b + (" " + (w + ".") + " " + y);
    MatchFromOf(b, " " + (w + ".") + " " + y);
    AfterDayOfDot(w, y);
    assert y[..4] == y;
  }

  /** The host rejects "D Abbr. YYYY": the month word ends in a dot. */
  lemma DottedHostFails(d: string, w: string, y: string)
    requires DayDigits(d) && YearDigits(y) && |w| == 3 && AllIn(w, Letters)
    ensures HostParse(d + " " + (w + ".") + " " + y) == None
  {
    var r := w + ".";
    DigitsInClass(d);
    DigitsInClass(y);
    assert ' ' !in d by { assert NoSpace(d); }
    assert ' ' !in y by { assert NoSpace(y); }
    assert ' ' !in r by { assert forall i | 0 <= i < 3 :: IsLetter(r[i]); }
    SplitThree(d, r, y);
    DottedWordNotMonth(w);
  }

  /** The numeric form needs a separator right after the day, not a space. */
  lemma SpacedNumericFails(d: string, rest: string)
    requires DayDigits(d) && |rest| > 0 && rest[0] == ' '
    ensures MatchNumeric(d + rest) == None
  {
    DigitsInClass(d);
    RunOf(d, rest, Digits);
    assert (d + rest)[|d|] == ' ';
  }

  lemma DottedNumericFails(d: string, w: string, y: string)
    requires DayDigits(d)
    ensures MatchNumeric(d + " " + (w + ".") + " " + y) == None
  {
    var rest := " " + (w + ".") + " " + y;
    assert d + " " + (w + ".") + " " + y == d + rest;
    SpacedNumericFails(d, rest);
  }

  /** On "D Abbr. YYYY" the host and the numeric form fail and the embedded
      pattern matches at the start, without the dot; the host then reads
      the bare abbreviation. */
  lemma DottedAttempt(d: string, m: int, y: string)
    requires DayDigits(d) && 1 <= m <= 12 && YearDigits(y)
    requires 1 <= DecimalValue(d) <= DaysInMonth(DecimalValue(y), m)
    ensures |EnglishMonth(m)| >= 3
    ensures Attempt(d + " " + (EnglishMonth(m)[..3] + ".") + " " + y) == Embedded(Date(DecimalValue(y), m, DecimalValue(d)))
  {
    ShortWord(m);
    var w := EnglishMonth(m)[..3];
    var s := d + " " + (w + ".") + " " + y;
    var date := Date(DecimalValue(y), m, DecimalValue(d));
    assert HostParse(s) == None by { DottedHostFails(d, w, y); }
    assert MatchNumeric(s) == None by { DottedNumericFails(d, w, y); }
    assert FirstEmbedded(s, 0) == Some((0, (d, w, y))) by {
      EmbeddedAtTailDot(d, w, y);
      assert s[0..] == s;
      FirstEmbeddedAt(s, 0, 0);
    }
    assert HostParse(EmbeddedText((d, w, y))) == Some(date) by {
      HostParseOfShort(d, m, y);
      assert EmbeddedText((d, w, y)) == d + " " + w + " " + y;
    }
    AttemptEmbedded(s, 0, (d, w, y));
  }

  /** On "D Abbr YYYY" the host reads the date at once. */
  lemma PlainAttempt(d: string, m: int, y: string)
    requires DayDigits(d) && 1 <= m <= 12 && YearDigits(y)
    requires 1 <= DecimalValue(d) <= DaysInMonth(DecimalValue(y), m)
    ensures |EnglishMonth(m)| >= 3
    ensures Attempt(d + " " + EnglishMonth(m)[..3] + " " + y) == Direct(Date(DecimalValue(y), m, DecimalValue(d)))
  {
    HostParseOfShort(d, m, y);
    AttemptDirect(d + " " + EnglishMonth(m)[..3] + " " + y);
  }

  /** What the month pass leaves of an abbreviated key. */
  function AbbreviationText(t: int): string
    requires 12 <= t < |MonthTable|
  {
    ShortWord(AbbreviatedMonth(t));
    EnglishMonth(AbbreviatedMonth(t))[..3] + (if t == 25 || t == 32 then "." else "")
  }

  /** Preparing "D abbr YYYY" only translates the abbreviation. */
  lemma PreparedAbbreviated(d: string, t: int, y: string)
    requires DayDigits(d) && 12 <= t < |MonthTable| && YearDigits(y)
    ensures Prepared(d + " " + MonthTable[t].0 + " " + y) == d + " " + AbbreviationText(t) + " " + y
  {
    var k := MonthTable[t].0;
    TableKeysWellFormed();
    assert WellFormedKey(k);
    assert CollapseDays(Lower(Trim(d + " " + k + " " + y))) == d + " " + k + " " + y by {
      ShortNormal(d, k, y);
    }
    assert TranslateMonths(d + " " + k + " " + y) == d + " " + AbbreviationText(t) + " " + y by {
      DigitsInClass(d);
      DigitsInClass(y);
      NoLettersUntouched(d);
      NoLettersUntouched(y);
      TranslateAbbreviation(t);
      TranslateBetween(d, k, AbbreviationText(t), y);
    }
  }

  /** "D abbr YYYY" and "D abbr. YYYY", with any abbreviated key of the
      table, resolve to that day of the key's month: directly through the
      host when the pass leaves a bare English abbreviation, through the
      embedded pattern when it leaves a dot ("mrt.", "okt."). */
  lemma ResolveAbbreviatedDate(d: string, t: int, y: string)
    requires DayDigits(d) && 12 <= t < |MonthTable| && YearDigits(y)
    requires 1 <= DecimalValue(d) <= DaysInMonth(DecimalValue(y), AbbreviatedMonth(t))
    ensures Resolve(d + " " + MonthTable[t].0 + " " + y) ==
            Date(DecimalValue(y), AbbreviatedMonth(t), DecimalValue(d))
  {
    var m := AbbreviatedMonth(t);
    ShortWord(m);
    var w := EnglishMonth(m)[..3];
    var s := d + " " + AbbreviationText(t) + " " + y;
    PreparedAbbreviated(d, t, y);
    assert DateOf(Attempt(s)) == Date(DecimalValue(y), m, DecimalValue(d)) by {
      if t == 25 || t == 32 {
        assert AbbreviationText(t) == w + ".";
        DottedAttempt(d, m, y);
      } else {
        assert AbbreviationText(t) == w;
        PlainAttempt(d, m, y);
      }
    }
    ResolveVia(d + " " + MonthTable[t].0 + " " + y, s);
  }

  /** "A en B abbr YYYY" and "A en B abbr. YYYY" resolve to day B of the
      key's month, like the full month names. */
  lemma ResolveTwoDaysAbbreviated(a: string, b: string, t: int, y: string)
    requires DayDigits(a) && DayDigits(b) && 12 <= t < |MonthTable| && YearDigits(y)
    requires 1 <= DecimalValue(b) <= DaysInMonth(DecimalValue(y), AbbreviatedMonth(t))
    ensures Resolve(a + " en " + b + " " + MonthTable[t].0 + " " + y) ==
            Date(DecimalValue(y), AbbreviatedMonth(t), DecimalValue(b))
  {
    var s := a + " en " + (b + " " + AbbreviationText(t) + " " + y);
    PreparedTwoDaysAbbreviated(a, b, t, y);
    TwoDaysAbbreviatedAttempt(a, b, t, y);
    ResolveVia(a + " en " + b + " " + MonthTable[t].0 + " " + y, s);
  }

  /** On the prepared form of "A en B abbr YYYY" the first embedded match is
      the one at B, and the host reads it without any dot. */
  lemma TwoDaysAbbreviatedAttempt(a: string, b: string, t: int, y: string)
    requires DayDigits(a) && DayDigits(b) && 12 <= t < |MonthTable| && YearDigits(y)
    requires 1 <= DecimalValue(b) <= DaysInMonth(DecimalValue(y), AbbreviatedMonth(t))
    ensures Attempt(a + " en " + (b + " " + AbbreviationText(t) + " " + y)) ==
            Embedded(Date(DecimalValue(y), AbbreviatedMonth(t), DecimalValue(b)))
  {
    var m := AbbreviatedMonth(t);
    ShortWord(m);
    var w := EnglishMonth(m)[..3];
    var r := AbbreviationText(t);
    var s := a + " en " + (b + " " + r + " " + y);
    assert ' ' !in r by { assert forall i | 0 <= i < |r| :: r[i] != ' '; }
    TwoDaysFailEarly(a, b, r, y);
    assert MatchFrom(b + " " + r + " " + y) == Some((b, w, y)) by {
      if t == 25 || t == 32 {
        assert r == w + ".";
        EmbeddedAtTailDot(b, w, y);
      } else {
        assert r == w;
        EmbeddedAtTail(b, w, y);
      }
    }
    var k := TwoDaysFirstMatch(a, b, r, y, w);
    HostParseOfShort(b, m, y);
    assert EmbeddedText((b, w, y)) == b + " " + w + " " + y;
    AttemptEmbedded(s, k, (b, w, y));
  }

  /** Preparing "A en B abbr YYYY" only translates the abbreviation. */
  lemma PreparedTwoDaysAbbreviated(a: string, b: string, t: int, y: string)
    requires DayDigits(a) && DayDigits(b) && 12 <= t < |MonthTable| && YearDigits(y)
    ensures Prepared(a + " en " + b + " " + MonthTable[t].0 + " " + y) ==
            a + " en " + (b + " " + AbbreviationText(t) + " " + y)
  {
    var k := MonthTable[t].0;
    TableKeysWellFormed();
    assert WellFormedKey(k);
    TwoDaysNormal(a, b, k, y);
    TwoDaysTranslateAbbreviated(a, b, t, y);
  }

  /** The month pass on "A en B abbr YYYY" touches only the abbreviation. */
  lemma TwoDaysTranslateAbbreviated(a: string, b: string, t: int, y: string)
    requires DayDigits(a) && DayDigits(b) && 12 <= t < |MonthTable| && YearDigits(y)
    ensures TranslateMonths(a + " en " + b + " " + MonthTable[t].0 + " " + y) ==
            a + " en " + (b + " " + AbbreviationText(t) + " " + y)
  {
    var p := a + " en " + b;
    var k, r := MonthTable[t].0, AbbreviationText(t);
    assert TranslateMonths(p + " " + k + " " + y) == p + " " + r + " " + y by {
      DigitsInClass(y);
      NoLettersUntouched(y);
      TwoDaysPrefix(a, b);
      TranslateAbbreviation(t);
      TranslateBetween(p, k, r, y);
    }
    assert p + " " + r + " " + y == a + " en " + (b + " " + r + " " + y);
  }

  // --------------------------------------------------------------- isPast

  /** A label for today is never past; a label for an earlier day is. */
  lemma IsPastAtDayGranularity(text: string, today: Date)
    ensures Resolve(text) == today ==> !IsPast(text, today)
    ensures Before(Resolve(text), today) ==> IsPast(text, today)
  {
  }

  /** Once past, always past: a label past on one day is past on every day
      from then on. */
  lemma IsPastMonotone(text: string, today: Date, later: Date)
    requires IsPast(text, today) && !Before(later, today)
    ensures IsPast(text, later)
  {
    var d := Resolve(text);
    BeforeStrictTotalOrder(d, today, later);
  }

  /** A label turns past exactly at the start of the day after the one it
      names: it is upcoming on every day up to and including that day, and
      past on the next day and every later one. */
  lemma IsPastFromNextDay(text: string, today: Date)
    requires Valid(today)
    ensures IsPast(text, today) <==> (today == Next(Resolve(text)) || Before(Next(Resolve(text)), today))
  {
    var d := Resolve(text);
    var n := Next(d);
    if Before(d, today) {
      NextIsImmediate(d, today);
    }
    if today == n || Before(n, today) {
      BeforeStrictTotalOrder(d, n, today);
    }
  }

  /** An unreadable label counts as past on every day after the sentinel. */
  lemma UnknownIsPast(text: string, today: Date)
    requires OutcomeOf(text).Unknown? && Before(Epoch, today)
    ensures IsPast(text, today)
  {
  }

  // ------------------------------------------------------------- examples

  /** "8 maart 2020" is the eighth of March 2020. */
  lemma ExampleMaart()
    ensures Resolve("8 maart 2020") == Date(2020, 3, 8)
  {
    assert DutchMonth(3) == "maart";
    assert "8 maart 2020" == "8" + " " + DutchMonth(3) + " " + "2020";
    DayValue("8");
    YearValue("2020");
    ResolveDutchDate("8", 3, "2020");
  }

  /** The value of a four-digit year, digit by digit. */
  lemma YearValue(y: string)
    requires YearDigits(y)
    ensures DecimalValue(y) ==
      1000 * DigitValue(y[0]) + 100 * DigitValue(y[1]) + 10 * DigitValue(y[2]) + DigitValue(y[3])
  {
    var y3, y2, y1 := y[..3], y[..2], y[..1];
    assert y[..|y| - 1] == y3 && y3[..|y3| - 1] == y2 && y2[..|y2| - 1] == y1 && y1[..|y1| - 1] == [];
    assert DecimalValue(y1) == DigitValue(y[0]);
    assert DecimalValue(y2) == 10 * DigitValue(y[0]) + DigitValue(y[1]);
    assert DecimalValue(y3) == 100 * DigitValue(y[0]) + 10 * DigitValue(y[1]) + DigitValue(y[2]);
  }

  /** The value of a one- or two-digit day. */
  lemma DayValue(d: string)
    requires DayDigits(d)
    ensures |d| == 1 ==> DecimalValue(d) == DigitValue(d[0])
    ensures |d| == 2 ==> DecimalValue(d) == 10 * DigitValue(d[0]) + DigitValue(d[1])
  {
    assert d[..|d|] == d;
    if |d| == 2 {
      assert d[..1][..0] == [];
    } else {
      assert d[..0] == [];
    }
  }

  /** The day list "3,4,5 juni 2022" in parts. */
  const ThreeDays := DayList("3", [("", "4"), ("", "5")], " ", "juni", " ", "2022")

  lemma ThreeDaysShape()
    ensures WellFormedDayList(ThreeDays) && NoUpper(ThreeDays.word)
    ensures SpellDayList(ThreeDays) == "3,4,5 juni 2022"
    ensures ThreeDays.first + " " + ThreeDays.word + " " + ThreeDays.year == "3" + " " + DutchMonth(6) + " " + "2022"
  {
    ThreeDaysSpelling();
    ThreeDaysWellFormed();
  }

  lemma ThreeDaysSpelling()
    ensures SpellDayList(ThreeDays) == "3,4,5 juni 2022"
  {
    var more := ThreeDays.more;
    assert SpellMore(more[1..]) == ",5" by {
      assert more[1..][1..] == [];
    }
    assert SpellMore(more) == ",4,5";
  }

  lemma ThreeDaysWellFormed()
    ensures WellFormedDayList(ThreeDays) && NoUpper(ThreeDays.word)
    ensures ThreeDays.first + " " + ThreeDays.word + " " + ThreeDays.year == "3" + " " + DutchMonth(6) + " " + "2022"
  {
    assert AllIn("juni", WordChars);
  }

  /** "3,4,5 juni 2022" resolves like "3 juni 2022". */
  lemma ExampleDayList()
    ensures Resolve("3,4,5 juni 2022") == Date(2022, 6, 3)
  {
    ThreeDaysShape();
    ResolveDayList(ThreeDays);
    assert Resolve("3" + " " + DutchMonth(6) + " " + "2022") == Date(2022, 6, 3) by {
      DayValue("3");
      YearValue("2022");
      ResolveDutchDate("3", 6, "2022");
    }
  }

  /** "15-04-2023" is the fifteenth of April 2023. */
  lemma ExampleNumeric()
    ensures Resolve("15-04-2023") == Date(2023, 4, 15)
  {
    ExampleNumericParts("15-04-2023");
  }

  lemma ExampleNumericParts(t: string)
    requires t == "15" + ['-'] + "04" + ['-'] + "2023"
    ensures Resolve(t) == Date(2023, 4, 15)
  {
    ResolveNumeric("15", '-', "04", '-', "2023");
    ExampleNumericValues();
    MakeDateExact(Date(2023, 4, 15));
  }

  lemma ExampleNumericValues()
    ensures DecimalValue("15") == 15 && DecimalValue("04") == 4 && DecimalValue("2023") == 2023
  {
    DayValue("15");
    DayValue("04");
    YearValue("2023");
  }

  /** "17 en 18 mei 2024" is the eighteenth of May 2024. */
  lemma ExampleTwoDays()
    ensures Resolve("17 en 18 mei 2024") == Date(2024, 5, 18)
  {
    assert DutchMonth(5) == "mei";
    assert "17 en 18 mei 2024" == "17" + " en " + "18" + " " + DutchMonth(5) + " " + "2024";
    DayValue("18");
    YearValue("2024");
    ResolveTwoDays("17", "18", 5, "2024");
  }

  /** "8 en 15 nov. 2009", a label of the agenda data, is the fifteenth of
      November 2009. */
  lemma ExampleNovember()
    ensures Resolve("8 en 15 nov. 2009") == Date(2009, 11, 15)
  {
    assert MonthTable[33].0 == "nov.";
    assert "8 en 15 nov. 2009" == "8" + " en " + "15" + " " + MonthTable[33].0 + " " + "2009";
    DayValue("15");
    YearValue("2009");
    ResolveTwoDaysAbbreviated("8", "15", 33, "2009");
  }

  /** "3 mrt. 2020" keeps its dot through the month pass and is read through
      the embedded pattern as the third of March 2020. */
  lemma ExampleMaartDotted()
    ensures Resolve("3 mrt. 2020") == Date(2020, 3, 3)
  {
    assert MonthTable[25].0 == "mrt." && AbbreviatedMonth(25) == 3;
    assert "3 mrt. 2020" == "3" + " " + MonthTable[25].0 + " " + "2020";
    assert DecimalValue("3") == 3 by { DayValue("3"); }
    assert DecimalValue("2020") == 2020 by { YearValue("2020"); }
    ResolveAbbreviatedDate("3", 25, "2020");
  }

  /** A real date can coincide with the sentinel: "1 januari 1970" is read by
      the host, yet it is indistinguishable from an unreadable label. */
  lemma SentinelCollision()
    ensures OutcomeOf("1 januari 1970").Direct?
    ensures Resolve("1 januari 1970") == Epoch
  {
    var text := "1 januari 1970";
    var s := "1" + " " + EnglishMonth(1) + " " + "1970";
    assert text == "1" + " " + DutchMonth(1) + " " + "1970";
    DayValue("1");
    YearValue("1970");
    assert Prepared(text) == s by {
      PreparedDutchDate("1", 1, "1970");
    }
    assert HostParse(s) == Some(Epoch) by {
      HostParseOf("1", 1, "1970");
    }
    AttemptDirect(s);
  }
}
