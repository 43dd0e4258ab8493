/** The month-name table of `parseDate` and its substitution pass: every
    case-insensitive occurrence of each Dutch key is replaced by its English
    value, key after key in table order (full names, then abbreviations,
    then abbreviations with a dot). */
module MonthNames {
  import opened Strings

  /** The table in its source order. */
  const MonthTable: seq<(string, string)> := [
    ("januari", "January"), ("februari", "February"), ("maart", "March"), ("april", "April"),
    ("mei", "May"), ("juni", "June"), ("juli", "July"), ("augustus", "August"),
    ("september", "September"), ("oktober", "October"), ("november", "November"), ("december", "December"),
    ("jan", "Jan"), ("feb", "Feb"), ("mrt", "Mar"), ("apr", "Apr"), ("jun", "Jun"), ("jul", "Jul"),
    ("aug", "Aug"), ("sep", "Sep"), ("okt", "Oct"), ("nov", "Nov"), ("dec", "Dec"),
    ("jan.", "Jan"), ("feb.", "Feb"), ("mrt.", "Mar"), ("apr.", "Apr"), ("jun.", "Jun"), ("jul.", "Jul"),
    ("aug.", "Aug"), ("sep.", "Sep"), ("sept.", "Sep"), ("okt.", "Oct"), ("nov.", "Nov"), ("dec.", "Dec")
  ]

  /** The Dutch name of month `m` (1 to 12) in the table. */
  function DutchMonth(m: int): string
    requires 1 <= m <= 12
  {
    MonthTable[m - 1].0
  }

  /** The English name of month `m`, as the table writes it. */
  function EnglishMonth(m: int): string
    requires 1 <= m <= 12
  {
    MonthTable[m - 1].1
  }

  /** Every key is lower case, starts with a letter and holds no space. */
  predicate WellFormedKey(k: string)
  {
    |k| > 0 && IsLowerLetter(k[0]) && NoUpper(k) && ' ' !in k
  }

  lemma TableKeysWellFormed()
    ensures |MonthTable| == 35
    ensures forall t | 0 <= t < |MonthTable| :: WellFormedKey(MonthTable[t].0)
  {
    FullKeysWellFormed();
    ShortKeysWellFormed();
    DottedKeysWellFormed();
  }

  lemma FullKeysWellFormed()
    ensures forall t | 0 <= t < 12 :: WellFormedKey(MonthTable[t].0)
  {
  }

  lemma ShortKeysWellFormed()
    ensures forall t | 12 <= t < 23 :: WellFormedKey(MonthTable[t].0)
  {
  }

  lemma DottedKeysWellFormed()
    ensures forall t | 23 <= t < 35 :: WellFormedKey(MonthTable[t].0)
  {
  }

  // ------------------------------------------------------ one replacement

  /** The key, case-insensitively, at the start of `s` (the key is lower case). */
  predicate StartsWithKey(s: string, key: string)
  {
    |key| <= |s| && forall i | 0 <= i < |key| :: LowerChar(s[i]) == key[i]
  }

  /** `s.replace(new RegExp(key, 'gi'), value)` for a key without regular
      expression operators: the matches are found left to right and do not
      overlap. */
  function ReplaceAll(s: string, key: string, value: string): string
    requires |key| > 0
    decreases |s|
  {
    if |s| == 0 then []
    else if StartsWithKey(s, key) then value + ReplaceAll(s[|key|..], key, value)
    else [s[0]] + ReplaceAll(s[1..], key, value)
  }

  /** Every character of `s`, lower-cased, is in `letters`. */
  predicate CoveredBy(s: string, letters: set<char>)
  {
    forall i | 0 <= i < |s| :: LowerChar(s[i]) in letters
  }

  /** One of the first five characters of the key is outside `letters`. */
  predicate KeyMisses(key: string, letters: set<char>)
  {
    (|key| > 0 && key[0] !in letters) || (|key| > 1 && key[1] !in letters) ||
    (|key| > 2 && key[2] !in letters) || (|key| > 3 && key[3] !in letters) ||
    (|key| > 4 && key[4] !in letters)
  }

  /** A string in which the key's `j`-th character never appears is left alone. */
  lemma {:induction false} ReplaceAbsent(s: string, key: string, value: string, j: nat)
    requires |key| > 0 && j < |key|
    requires forall i | 0 <= i < |s| :: LowerChar(s[i]) != key[j]
    ensures ReplaceAll(s, key, value) == s
    decreases |s|
  {
    if |s| > 0 {
      if j < |s| {
        assert LowerChar(s[j]) != key[j];
      }
      ReplaceAbsent(s[1..], key, value, j);
      assert s == [s[0]] + s[1..];
    }
  }

  /** A key with a character that `s` lacks cannot occur in `s`. */
  lemma ReplaceMissing(s: string, key: string, value: string, letters: set<char>)
    requires |key| > 0 && CoveredBy(s, letters) && KeyMisses(key, letters)
    ensures ReplaceAll(s, key, value) == s
  {
    var j := if |key| > 0 && key[0] !in letters then 0
      else if |key| > 1 && key[1] !in letters then 1
      else if |key| > 2 && key[2] !in letters then 2
      else if |key| > 3 && key[3] !in letters then 3
      else 4;
    assert j < |key| && key[j] !in letters;
    ReplaceAbsent(s, key, value, j);
  }

  /** A key replaces itself by its value. */
  lemma ReplaceWhole(key: string, value: string)
    requires WellFormedKey(key)
    ensures ReplaceAll(key, key, value) == value
  {
    assert StartsWithKey(key, key);
    assert key[|key|..] == [];
  }

  /** A prefix that never starts an occurrence passes through unchanged. */
  lemma {:induction false} ReplaceSkip(a: string, b: string, key: string, value: string)
    requires |key| > 0
    requires forall i | 0 <= i < |a| :: LowerChar(a[i]) != key[0]
    ensures ReplaceAll(a + b, key, value) == a + ReplaceAll(b, key, value)
    decreases |a|
  {
    if |a| == 0 {
      assert a + b == b;
    } else {
      var s := a + b;
      assert !StartsWithKey(s, key) by { assert s[0] == a[0]; }
      assert ReplaceAll(s, key, value) == [a[0]] + ReplaceAll(s[1..], key, value);
      assert s[1..] == a[1..] + b;
      ReplaceSkip(a[1..], b, key, value);
      assert a == [a[0]] + a[1..];
    }
  }

  /** A key whose value is the text it matched leaves that text as it is. */
  lemma ReplaceSelfPrefix(s: string, key: string, value: string)
    requires WellFormedKey(key) && StartsWithKey(s, key) && value == s[..|key|]
    requires forall i | |key| <= i < |s| :: LowerChar(s[i]) != key[0]
    ensures ReplaceAll(s, key, value) == s
  {
    var rest := s[|key|..];
    ReplaceAbsent(rest, key, value, 0);
    assert |s| > 0 && ReplaceAll(s, key, value) == value + ReplaceAll(rest, key, value);
    assert s == value + rest;
  }

  /** A key that holds no space never matches across a space, so the
      replacement works on the two sides separately. */
  lemma {:induction false} ReplaceAroundSpace(a: string, b: string, key: string, value: string)
    requires WellFormedKey(key)
    ensures ReplaceAll(a + " " + b, key, value) ==
            ReplaceAll(a, key, value) + " " + ReplaceAll(b, key, value)
    decreases |a|
  {
    if |a| == 0 {
      var s := a + " " + b;
      assert s == " " + b;
      assert !StartsWithKey(s, key) by { assert LowerChar(s[0]) != key[0]; }
      assert s[1..] == b;
    } else {
      KeyAtSpaceJoin(a, b, key);
      if StartsWithKey(a, key) {
        ReplaceAroundSpace(a[|key|..], b, key, value);
        MatchBeforeSpace(a, b, key, value);
      } else {
        ReplaceAroundSpace(a[1..], b, key, value);
        SkipBeforeSpace(a, b, key, value);
      }
    }
  }

  /** One step of `ReplaceAroundSpace` when the key starts `a`. */
  lemma MatchBeforeSpace(a: string, b: string, key: string, value: string)
    requires WellFormedKey(key) && StartsWithKey(a, key) && StartsWithKey(a + " " + b, key)
    requires ReplaceAll(a[|key|..] + " " + b, key, value) ==
             ReplaceAll(a[|key|..], key, value) + " " + ReplaceAll(b, key, value)
    ensures ReplaceAll(a + " " + b, key, value) ==
            ReplaceAll(a, key, value) + " " + ReplaceAll(b, key, value)
  {
    ReplaceMatch(a + " " + b, key, value);
    ReplaceMatch(a, key, value);
    DropBeforeSpace(a, b, |key|);
    SpaceAssoc(value, ReplaceAll(a[|key|..], key, value), ReplaceAll(b, key, value));
  }

  /** One step of `ReplaceAroundSpace` when the key does not start `a`. */
  lemma SkipBeforeSpace(a: string, b: string, key: string, value: string)
    requires WellFormedKey(key) && |a| > 0 && !StartsWithKey(a, key) && !StartsWithKey(a + " " + b, key)
    requires ReplaceAll(a[1..] + " " + b, key, value) ==
             ReplaceAll(a[1..], key, value) + " " + ReplaceAll(b, key, value)
    ensures ReplaceAll(a + " " + b, key, value) ==
            ReplaceAll(a, key, value) + " " + ReplaceAll(b, key, value)
  {
    ReplaceNoMatch(a + " " + b, key, value);
    ReplaceNoMatch(a, key, value);
    DropBeforeSpace(a, b, 1);
    assert (a + " " + b)[0] == a[0];
    SpaceAssoc([a[0]], ReplaceAll(a[1..], key, value), ReplaceAll(b, key, value));
  }

  lemma ReplaceMatch(s: string, key: string, value: string)
    requires |key| > 0 && StartsWithKey(s, key)
    ensures ReplaceAll(s, key, value) == value + ReplaceAll(s[|key|..], key, value)
  {
  }

  lemma ReplaceNoMatch(s: string, key: string, value: string)
    requires |key| > 0 && |s| > 0 && !StartsWithKey(s, key)
    ensures ReplaceAll(s, key, value) == [s[0]] + ReplaceAll(s[1..], key, value)
  {
  }

  lemma DropBeforeSpace(a: string, b: string, k: nat)
    requires k <= |a|
    ensures (a + " " + b)[k..] == a[k..] + " " + b
  {
  }

  lemma SpaceAssoc(x: string, y: string, z: string)
    ensures x + (y + " " + z) == x + y + " " + z
  {
  }

  /** A key without spaces starts `a + " " + b` exactly when it starts `a`. */
  lemma KeyAtSpaceJoin(a: string, b: string, key: string)
    requires WellFormedKey(key)
    ensures StartsWithKey(a + " " + b, key) <==> StartsWithKey(a, key)
  {
    var s := a + " " + b;
    if |key| <= |a| {
      assert forall i | 0 <= i < |key| :: s[i] == a[i];
    } else {
      assert s[|a|] == ' ';
    }
  }

  // ------------------------------------------------------ the whole table

  /** The substitution pass over the keys `lo` to `hi - 1`, in table order. */
  function ApplyKeys(s: string, lo: nat, hi: nat): string
    requires lo <= hi <= |MonthTable|
    decreases hi - lo
  {
    if lo == hi then s
    else
      TableKeysWellFormed();
      ApplyKeys(ReplaceAll(s, MonthTable[lo].0, MonthTable[lo].1), lo + 1, hi)
  }

  /** The whole substitution pass of `parseDate`. */
  function TranslateMonths(s: string): string
  {
    ApplyKeys(s, 0, |MonthTable|)
  }

  lemma {:induction false} ApplySplit(s: string, lo: nat, mid: nat, hi: nat)
    requires lo <= mid <= hi <= |MonthTable|
    ensures ApplyKeys(s, lo, hi) == ApplyKeys(ApplyKeys(s, lo, mid), mid, hi)
    decreases mid - lo
  {
    if lo < mid {
      TableKeysWellFormed();
      ApplySplit(ReplaceAll(s, MonthTable[lo].0, MonthTable[lo].1), lo + 1, mid, hi);
    }
  }

  /** Keys that each leave `s` alone leave it alone together. */
  lemma {:induction false} ApplyFixed(s: string, lo: nat, hi: nat)
    requires lo <= hi <= |MonthTable|
    requires forall t | lo <= t < hi :: |MonthTable[t].0| > 0 && ReplaceAll(s, MonthTable[t].0, MonthTable[t].1) == s
    ensures ApplyKeys(s, lo, hi) == s
    decreases hi - lo
  {
    if lo < hi {
      ApplyFixed(s, lo + 1, hi);
    }
  }

  lemma ApplyMissing(s: string, lo: nat, hi: nat, letters: set<char>)
    requires lo <= hi <= |MonthTable| && CoveredBy(s, letters)
    requires forall t | lo <= t < hi :: KeyMisses(MonthTable[t].0, letters)
    ensures ApplyKeys(s, lo, hi) == s
  {
    TableKeysWellFormed();
    forall t | lo <= t < hi
      ensures ReplaceAll(s, MonthTable[t].0, MonthTable[t].1) == s
    {
      ReplaceMissing(s, MonthTable[t].0, MonthTable[t].1, letters);
    }
    ApplyFixed(s, lo, hi);
  }

  lemma {:induction false} ApplyAroundSpace(a: string, b: string, lo: nat, hi: nat)
    requires lo <= hi <= |MonthTable|
    ensures ApplyKeys(a + " " + b, lo, hi) == ApplyKeys(a, lo, hi) + " " + ApplyKeys(b, lo, hi)
    decreases hi - lo
  {
    if lo < hi {
      TableKeysWellFormed();
      var (k, v) := MonthTable[lo];
      ReplaceAroundSpace(a, b, k, v);
      ApplyAroundSpace(ReplaceAll(a, k, v), ReplaceAll(b, k, v), lo + 1, hi);
    }
  }

  /** The month pass never joins or splits across a space. */
  lemma TranslateAroundSpace(a: string, b: string)
    ensures TranslateMonths(a + " " + b) == TranslateMonths(a) + " " + TranslateMonths(b)
  {
    ApplyAroundSpace(a, b, 0, |MonthTable|);
  }

  /** Text without letters (digits, punctuation, white space) is never touched. */
  lemma NoLettersUntouched(s: string)
    requires forall i | 0 <= i < |s| :: !IsLetter(s[i])
    ensures TranslateMonths(s) == s
  {
    TableKeysWellFormed();
    forall t | 0 <= t < |MonthTable|
      ensures ReplaceAll(s, MonthTable[t].0, MonthTable[t].1) == s
    {
      ReplaceAbsent(s, MonthTable[t].0, MonthTable[t].1, 0);
    }
    ApplyFixed(s, 0, |MonthTable|);
  }

  // ------------------------------------------------- the twelve month names

  /** The letters of the English name of month `m`, lower-cased. */
  function EnglishLetters(m: int): set<char>
  {
    if m == 1 then {'j', 'a', 'n', 'u', 'r', 'y'}
    else if m == 2 then {'f', 'e', 'b', 'r', 'u', 'a', 'y'}
    else if m == 3 then {'m', 'a', 'r', 'c', 'h'}
    else if m == 4 then {'a', 'p', 'r', 'i', 'l'}
    else if m == 5 then {'m', 'a', 'y'}
    else if m == 6 then {'j', 'u', 'n', 'e'}
    else if m == 7 then {'j', 'u', 'l', 'y'}
    else if m == 8 then {'a', 'u', 'g', 's', 't'}
    else if m == 9 then {'s', 'e', 'p', 't', 'm', 'b', 'r'}
    else if m == 10 then {'o', 'c', 't', 'b', 'e', 'r'}
    else if m == 11 then {'n', 'o', 'v', 'e', 'm', 'b', 'r'}
    else {'d', 'e', 'c', 'm', 'b', 'r'}
  }

  /** The letters of the Dutch name of month `m`. */
  function DutchLetters(m: int): set<char>
  {
    if m == 1 then {'j', 'a', 'n', 'u', 'r', 'i'}
    else if m == 2 then {'f', 'e', 'b', 'r', 'u', 'a', 'i'}
    else if m == 3 then {'m', 'a', 'r', 't'}
    else if m == 4 then {'a', 'p', 'r', 'i', 'l'}
    else if m == 5 then {'m', 'e', 'i'}
    else if m == 6 then {'j', 'u', 'n', 'i'}
    else if m == 7 then {'j', 'u', 'l', 'i'}
    else if m == 8 then {'a', 'u', 'g', 's', 't'}
    else if m == 9 then {'s', 'e', 'p', 't', 'm', 'b', 'r'}
    else if m == 10 then {'o', 'k', 't', 'b', 'e', 'r'}
    else if m == 11 then {'n', 'o', 'v', 'e', 'm', 'b', 'r'}
    else {'d', 'e', 'c', 'm', 'b', 'r'}
  }

  lemma LettersCover(m: int)
    requires 1 <= m <= 12
    ensures CoveredBy(EnglishMonth(m), EnglishLetters(m))
    ensures CoveredBy(DutchMonth(m), DutchLetters(m))
  {
    if m <= 6 {
      EnglishCoverFirstHalf(m);
      DutchCoverFirstHalf(m);
    } else {
      EnglishCoverSecondHalf(m);
      DutchCoverSecondHalf(m);
    }
  }

  lemma EnglishCoverFirstHalf(m: int)
    requires 1 <= m <= 6
    ensures CoveredBy(EnglishMonth(m), EnglishLetters(m))
  {
  }

  lemma EnglishCoverSecondHalf(m: int)
    requires 7 <= m <= 12
    ensures CoveredBy(EnglishMonth(m), EnglishLetters(m))
  {
  }

  lemma DutchCoverFirstHalf(m: int)
    requires 1 <= m <= 6
    ensures CoveredBy(DutchMonth(m), DutchLetters(m))
  {
  }

  lemma DutchCoverSecondHalf(m: int)
    requires 7 <= m <= 12
    ensures CoveredBy(DutchMonth(m), DutchLetters(m))
  {
  }

  /** The keys after a month's own entry miss a letter of its English name,
      except the abbreviations that are a prefix of it and two keys ("jun"
      for January, "mrt" for September) whose letters all occur. */
  lemma EnglishMissesLater(m: int)
    requires 1 <= m <= 12
    ensures forall u | m <= u < |MonthTable| && (m, u) !in SelfMatches() ::
      KeyMisses(MonthTable[u].0, EnglishLetters(m))
  {
    if m == 1 {
      LaterKeysMissJanuary();
    } else if m == 2 {
      LaterKeysMissFebruary();
    } else if m == 3 {
      LaterKeysMissMarch();
    } else if m == 4 {
      LaterKeysMissApril();
    } else if m == 5 {
      LaterKeysMissMay();
    } else if m == 6 {
      LaterKeysMissJune();
    } else if m == 7 {
      LaterKeysMissJuly();
    } else if m == 8 {
      LaterKeysMissAugust();
    } else if m == 9 {
      LaterKeysMissSeptember();
    } else if m == 10 {
      LaterKeysMissOctober();
    } else if m == 11 {
      LaterKeysMissNovember();
    } else {
      LaterKeysMissDecember();
    }
  }

  lemma LaterKeysMissJanuary()
    ensures forall u | 1 <= u < 35 && u != 12 && u != 16 :: KeyMisses(MonthTable[u].0, EnglishLetters(1))
  {
  }

  lemma LaterKeysMissFebruary()
    ensures forall u | 2 <= u < 35 && u != 13 :: KeyMisses(MonthTable[u].0, EnglishLetters(2))
  {
  }

  lemma LaterKeysMissMarch()
    ensures forall u | 3 <= u < 35 :: KeyMisses(MonthTable[u].0, EnglishLetters(3))
  {
  }

  lemma LaterKeysMissApril()
    ensures forall u | 4 <= u < 35 && u != 15 :: KeyMisses(MonthTable[u].0, EnglishLetters(4))
  {
  }

  lemma LaterKeysMissMay()
    ensures forall u | 5 <= u < 35 :: KeyMisses(MonthTable[u].0, EnglishLetters(5))
  {
  }

  lemma LaterKeysMissJune()
    ensures forall u | 6 <= u < 35 && u != 16 :: KeyMisses(MonthTable[u].0, EnglishLetters(6))
  {
  }

  lemma LaterKeysMissJuly()
    ensures forall u | 7 <= u < 35 && u != 17 :: KeyMisses(MonthTable[u].0, EnglishLetters(7))
  {
  }

  lemma LaterKeysMissAugust()
    ensures forall u | 8 <= u < 35 && u != 18 :: KeyMisses(MonthTable[u].0, EnglishLetters(8))
  {
  }

  lemma LaterKeysMissSeptember()
    ensures forall u | 9 <= u < 35 && u != 14 && u != 19 :: KeyMisses(MonthTable[u].0, EnglishLetters(9))
  {
  }

  lemma LaterKeysMissOctober()
    ensures forall u | 10 <= u < 35 :: KeyMisses(MonthTable[u].0, EnglishLetters(10))
  {
  }

  lemma LaterKeysMissNovember()
    ensures forall u | 11 <= u < 35 && u != 21 :: KeyMisses(MonthTable[u].0, EnglishLetters(11))
  {
  }

  lemma LaterKeysMissDecember()
    ensures forall u | 12 <= u < 35 && u != 22 :: KeyMisses(MonthTable[u].0, EnglishLetters(12))
  {
  }

  /** The (month, entry) pairs where every letter of the key occurs in the
      English name. */
  function SelfMatches(): set<(int, int)>
  {
    {(1, 12), (1, 16), (2, 13), (4, 15), (6, 16), (7, 17), (8, 18), (9, 14), (9, 19), (11, 21), (12, 22)}
  }

  /** The keys before a month's own entry all miss a letter of its Dutch name. */
  lemma DutchMissesEarlier(m: int)
    requires 1 <= m <= 12
    ensures forall u | 0 <= u < m - 1 :: KeyMisses(MonthTable[u].0, DutchLetters(m))
  {
    if m <= 6 {
      DutchMissesEarlierFirstHalf(m);
    } else {
      DutchMissesEarlierSecondHalf(m);
    }
  }

  lemma DutchMissesEarlierFirstHalf(m: int)
    requires 1 <= m <= 6
    ensures forall u | 0 <= u < m - 1 :: KeyMisses(MonthTable[u].0, DutchLetters(m))
  {
  }

  lemma DutchMissesEarlierSecondHalf(m: int)
    requires 7 <= m <= 12
    ensures forall u | 0 <= u < m - 1 :: KeyMisses(MonthTable[u].0, DutchLetters(m))
  {
  }

  /** "jun" against "January": the only 'j' is followed by 'a'. */
  lemma JanuaryJun()
    ensures ReplaceAll(EnglishMonth(1), MonthTable[16].0, MonthTable[16].1) == EnglishMonth(1)
  {
    var e, k := EnglishMonth(1), MonthTable[16].0;
    assert e == "January" && k == "jun";
    assert forall i | 0 <= i < |e| && i != 0 :: LowerChar(e[i]) != k[0];
    assert LowerChar(e[1]) != k[1];
    ReplaceOneCandidate(e, k, MonthTable[16].1, 0);
  }

  /** "mrt" against "September": the only 'm' is followed by 'b'. */
  lemma SeptemberMrt()
    ensures ReplaceAll(EnglishMonth(9), MonthTable[14].0, MonthTable[14].1) == EnglishMonth(9)
  {
    var e, k := EnglishMonth(9), MonthTable[14].0;
    assert e == "September" && k == "mrt";
    assert forall i | 0 <= i < |e| && i != 5 :: LowerChar(e[i]) != k[0];
    assert LowerChar(e[6]) != k[1];
    ReplaceOneCandidate(e, k, MonthTable[14].1, 5);
  }

  /** When the key's first letter occurs only at `p` and the key's second
      letter does not follow it there, the key does not occur. */
  lemma ReplaceOneCandidate(s: string, key: string, value: string, p: nat)
    requires |key| > 1 && p + 1 < |s|
    requires forall i | 0 <= i < |s| && i != p :: LowerChar(s[i]) != key[0]
    requires LowerChar(s[p + 1]) != key[1]
    ensures ReplaceAll(s, key, value) == s
  {
    var a, b := s[..p], s[p..];
    assert s == a + b;
    assert forall i | 0 <= i < |a| :: LowerChar(a[i]) != key[0] by {
      forall i | 0 <= i < |a| ensures LowerChar(a[i]) != key[0] {
        assert a[i] == s[i];
      }
    }
    ReplaceSkip(a, b, key, value);
    assert !StartsWithKey(b, key) by { assert b[1] == s[p + 1]; }
    var c := b[1..];
    assert forall i | 0 <= i < |c| :: LowerChar(c[i]) != key[0] by {
      forall i | 0 <= i < |c| ensures LowerChar(c[i]) != key[0] {
        assert c[i] == s[p + 1 + i];
      }
    }
    ReplaceAbsent(c, key, value, 0);
    assert b == [b[0]] + c;
  }

  /** The abbreviations that begin an English month name replace that
      beginning by itself. */
  lemma PrefixKeys(m: int, t: int)
    requires (m, t) in SelfMatches() && (m, t) != (1, 16) && (m, t) != (9, 14)
    ensures 1 <= m <= 12 && 0 <= t < |MonthTable|
    ensures ReplaceAll(EnglishMonth(m), MonthTable[t].0, MonthTable[t].1) == EnglishMonth(m)
  {
    TableKeysWellFormed();
    if m <= 2 {
      PrefixKeysJanFeb(m, t);
    } else if m <= 6 {
      PrefixKeysAprJun(m, t);
    } else if m <= 8 {
      PrefixKeysJulAug(m, t);
    } else if m <= 11 {
      PrefixKeysSepNov(m, t);
    } else {
      PrefixKeysDec(m, t);
    }
  }

  /** The facts `SelfPrefix` needs about month `m` and entry `t`. */
  predicate PrefixFacts(m: int, t: int)
    requires 1 <= m <= 12 && 0 <= t < |MonthTable|
  {
    var e, k := EnglishMonth(m), MonthTable[t].0;
    |k| == 3 && |e| >= 3 && MonthTable[t].1 == e[..3] &&
    LowerChar(e[0]) == k[0] && LowerChar(e[1]) == k[1] && LowerChar(e[2]) == k[2] &&
    (forall i | 3 <= i < |e| :: LowerChar(e[i]) != k[0])
  }

  lemma PrefixKeysJanFeb(m: int, t: int)
    requires (m, t) in {(1, 12), (2, 13)}
    ensures ReplaceAll(EnglishMonth(m), MonthTable[t].0, MonthTable[t].1) == EnglishMonth(m)
  {
    TableKeysWellFormed();
    assert PrefixFacts(m, t);
    SelfPrefix(EnglishMonth(m), MonthTable[t].0, MonthTable[t].1);
  }

  lemma PrefixKeysAprJun(m: int, t: int)
    requires (m, t) in {(4, 15), (6, 16)}
    ensures ReplaceAll(EnglishMonth(m), MonthTable[t].0, MonthTable[t].1) == EnglishMonth(m)
  {
    TableKeysWellFormed();
    assert PrefixFacts(m, t);
    SelfPrefix(EnglishMonth(m), MonthTable[t].0, MonthTable[t].1);
  }

  lemma PrefixKeysJulAug(m: int, t: int)
    requires (m, t) in {(7, 17), (8, 18)}
    ensures ReplaceAll(EnglishMonth(m), MonthTable[t].0, MonthTable[t].1) == EnglishMonth(m)
  {
    TableKeysWellFormed();
    assert PrefixFacts(m, t);
    SelfPrefix(EnglishMonth(m), MonthTable[t].0, MonthTable[t].1);
  }

  lemma PrefixKeysSepNov(m: int, t: int)
    requires (m, t) in {(9, 19), (11, 21)}
    ensures ReplaceAll(EnglishMonth(m), MonthTable[t].0, MonthTable[t].1) == EnglishMonth(m)
  {
    TableKeysWellFormed();
    assert PrefixFacts(m, t);
    SelfPrefix(EnglishMonth(m), MonthTable[t].0, MonthTable[t].1);
  }

  lemma PrefixKeysDec(m: int, t: int)
    requires (m, t) in {(12, 22)}
    ensures ReplaceAll(EnglishMonth(m), MonthTable[t].0, MonthTable[t].1) == EnglishMonth(m)
  {
    TableKeysWellFormed();
    assert PrefixFacts(m, t);
    SelfPrefix(EnglishMonth(m), MonthTable[t].0, MonthTable[t].1);
  }

  /** The abbreviation `k` starts `e`, its value is that start, and its
      first letter does not occur again in `e`. */
  lemma SelfPrefix(e: string, k: string, v: string)
    requires WellFormedKey(k) && |k| == 3 && |e| >= 3 && v == e[..3]
    requires LowerChar(e[0]) == k[0] && LowerChar(e[1]) == k[1] && LowerChar(e[2]) == k[2]
    requires forall i | 3 <= i < |e| :: LowerChar(e[i]) != k[0]
    ensures ReplaceAll(e, k, v) == e
  {
    ReplaceSelfPrefix(e, k, v);
  }

  lemma EnglishKeyStable(m: int, t: int)
    requires 1 <= m <= 12 && m <= t < |MonthTable|
    ensures |MonthTable[t].0| > 0
    ensures ReplaceAll(EnglishMonth(m), MonthTable[t].0, MonthTable[t].1) == EnglishMonth(m)
  {
    TableKeysWellFormed();
    if (m, t) == (1, 16) {
      JanuaryJun();
    } else if (m, t) == (9, 14) {
      SeptemberMrt();
    } else if (m, t) in SelfMatches() {
      PrefixKeys(m, t);
    } else {
      LettersCover(m);
      EnglishMissesLater(m);
      ReplaceMissing(EnglishMonth(m), MonthTable[t].0, MonthTable[t].1, EnglishLetters(m));
    }
  }

  /** The table entries after month `m`'s own entry leave its English name
      as it is. */
  lemma EnglishStable(m: int)
    requires 1 <= m <= 12
    ensures ApplyKeys(EnglishMonth(m), m, |MonthTable|) == EnglishMonth(m)
  {
    TableKeysWellFormed();
    LettersCover(m);
    var e := EnglishMonth(m);
    forall t | m <= t < |MonthTable|
      ensures ReplaceAll(e, MonthTable[t].0, MonthTable[t].1) == e
    {
      EnglishKeyStable(m, t);
    }
    ApplyFixed(e, m, |MonthTable|);
  }

  /** The substitution pass turns each full Dutch month name into its
      English name: no other key touches the Dutch name before its own entry
      fires, and none garbles the English name afterwards. */
  lemma TranslateDutchMonth(m: int)
    requires 1 <= m <= 12
    ensures TranslateMonths(DutchMonth(m)) == EnglishMonth(m)
  {
    TableKeysWellFormed();
    LettersCover(m);
    var w := DutchMonth(m);
    ApplySplit(w, 0, m - 1, |MonthTable|);
    DutchMissesEarlier(m);
    ApplyMissing(w, 0, m - 1, DutchLetters(m));
    ReplaceWhole(w, EnglishMonth(m));
    assert ApplyKeys(w, m - 1, |MonthTable|) == ApplyKeys(EnglishMonth(m), m, |MonthTable|);
    EnglishStable(m);
  }

  // ------------------------------------------------- the abbreviated keys

  /** The month an abbreviated key (entries 12 to 34) stands for. */
  function AbbreviatedMonth(t: int): (m: int)
    requires 12 <= t < |MonthTable|
    ensures 1 <= m <= 12
  {
    [1, 2, 3, 4, 6, 7, 8, 9, 10, 11, 12, 1, 2, 3, 4, 6, 7, 8, 9, 9, 10, 11, 12][t - 12]
  }

  /** Every abbreviated key maps to the first three letters of its month's
      English name. */
  lemma AbbreviatedValue(t: int)
    requires 12 <= t < |MonthTable|
    ensures MonthTable[t].1 == EnglishMonth(AbbreviatedMonth(t))[..3]
  {
  }

  /** A key longer than the text never matches in it. */
  lemma {:induction false} ReplaceLonger(s: string, key: string, value: string)
    requires |key| > |s|
    ensures ReplaceAll(s, key, value) == s
    decreases |s|
  {
    if |s| > 0 {
      ReplaceLonger(s[1..], key, value);
      assert s == [s[0]] + s[1..];
    }
  }

  /** The keys `lo` to `hi - 1` each leave `s` as it is. */
  predicate Leaves(s: string, lo: nat, hi: nat)
    requires lo <= hi <= |MonthTable|
  {
    forall u | lo <= u < hi :: |MonthTable[u].0| > 0 && ReplaceAll(s, MonthTable[u].0, MonthTable[u].1) == s
  }

  /** Keys longer than `s`, or lacking a letter of it, leave `s` alone. */
  lemma LeavesByLetters(s: string, lo: nat, hi: nat, letters: set<char>)
    requires lo <= hi <= |MonthTable| && CoveredBy(s, letters)
    requires forall u | lo <= u < hi :: |MonthTable[u].0| > |s| || KeyMisses(MonthTable[u].0, letters)
    ensures Leaves(s, lo, hi)
  {
    TableKeysWellFormed();
    forall u | lo <= u < hi
      ensures ReplaceAll(s, MonthTable[u].0, MonthTable[u].1) == s
    {
      if |MonthTable[u].0| > |s| {
        ReplaceLonger(s, MonthTable[u].0, MonthTable[u].1);
      } else {
        ReplaceMissing(s, MonthTable[u].0, MonthTable[u].1, letters);
      }
    }
  }

  /** A three-letter key that no other key touches, before or after its own
      entry fires, is translated to its value. */
  lemma TranslateShortKey(t: int, letters: set<char>)
    requires 12 <= t < 23
    requires CoveredBy(MonthTable[t].0, letters) && CoveredBy(MonthTable[t].1, letters)
    requires forall u | 0 <= u < |MonthTable| && u != t :: |MonthTable[u].0| > 3 || KeyMisses(MonthTable[u].0, letters)
    ensures TranslateMonths(MonthTable[t].0) == MonthTable[t].1
  {
    TableKeysWellFormed();
    var (k, v) := MonthTable[t];
    assert |k| == 3 && |v| == 3;
    ApplySplit(k, 0, t, |MonthTable|);
    LeavesByLetters(k, 0, t, letters);
    ApplyFixed(k, 0, t);
    ReplaceWhole(k, v);
    LeavesByLetters(v, t + 1, |MonthTable|, letters);
    ApplyFixed(v, t + 1, |MonthTable|);
  }

  /** A dotted key: the entry `b` of its undotted form fires first and
      capitalises it; the keys after that leave the result alone until the
      dotted entry `t`, which then matches the whole text. */
  lemma TranslateDottedKey(t: int, b: int, rest: string, before: set<char>)
    requires 12 <= b < 23 <= t < |MonthTable|
    requires MonthTable[t].0 == MonthTable[b].0 + rest && 0 < |rest| < 3
    requires MonthTable[t].1 == MonthTable[b].1
    requires CoveredBy(MonthTable[t].0, before)
    requires forall u | 0 <= u < b :: |MonthTable[u].0| > |MonthTable[t].0| || KeyMisses(MonthTable[u].0, before)
    requires Leaves(MonthTable[b].1 + rest, b + 1, t)
    requires StartsWithKey(MonthTable[b].1 + rest, MonthTable[t].0)
    ensures TranslateMonths(MonthTable[t].0) == MonthTable[t].1
  {
    var s1 := DottedFirstStep(t, b, rest, before);
    DottedMatchStep(t, b, s1);
  }

  /** The dotted entry matches the whole capitalised text, and the later
      entries, all longer, leave the three-letter result alone. */
  lemma DottedMatchStep(t: int, b: int, s1: string)
    requires 12 <= b < 23 <= t < |MonthTable|
    requires |s1| == |MonthTable[t].0| && |MonthTable[t].1| == 3
    requires Leaves(s1, b + 1, t) && StartsWithKey(s1, MonthTable[t].0)
    ensures ApplyKeys(s1, b + 1, |MonthTable|) == MonthTable[t].1
  {
    ApplySplit(s1, b + 1, t, |MonthTable|);
    ApplyFixed(s1, b + 1, t);
    ApplyStep(s1, t);
    ReplaceWholeText(s1, MonthTable[t].0, MonthTable[t].1);
    LaterKeysLonger(t, MonthTable[t].1);
  }

  /** One entry of the pass. */
  lemma ApplyStep(s: string, t: nat)
    requires t < |MonthTable|
    ensures |MonthTable[t].0| > 0
    ensures ApplyKeys(s, t, |MonthTable|) == ApplyKeys(ReplaceAll(s, MonthTable[t].0, MonthTable[t].1), t + 1, |MonthTable|)
  {
    TableKeysWellFormed();
  }

  /** A key that matches the whole text replaces all of it. */
  lemma ReplaceWholeText(s: string, key: string, value: string)
    requires |key| > 0 && |s| == |key| && StartsWithKey(s, key)
    ensures ReplaceAll(s, key, value) == value
  {
    ReplaceMatch(s, key, value);
    assert s[|key|..] == [];
  }

  /** The entries after a dotted entry are all longer than three letters. */
  lemma LaterKeysLonger(t: int, v: string)
    requires 23 <= t < |MonthTable| && |v| == 3
    ensures ApplyKeys(v, t + 1, |MonthTable|) == v
  {
    TableKeysWellFormed();
    forall u | t < u < |MonthTable|
      ensures ReplaceAll(v, MonthTable[u].0, MonthTable[u].1) == v
    {
      assert |MonthTable[u].0| >= 4;
      ReplaceLonger(v, MonthTable[u].0, MonthTable[u].1);
    }
    ApplyFixed(v, t + 1, |MonthTable|);
  }

  /** A dotted key whose own entry no longer matches once the undotted entry
      has fired keeps its dot. */
  lemma TranslateDottedKeyUnmatched(t: int, b: int, rest: string, before: set<char>)
    requires 12 <= b < 23 <= t < |MonthTable|
    requires MonthTable[t].0 == MonthTable[b].0 + rest && 0 < |rest| < 3
    requires CoveredBy(MonthTable[t].0, before)
    requires forall u | 0 <= u < b :: |MonthTable[u].0| > |MonthTable[t].0| || KeyMisses(MonthTable[u].0, before)
    requires Leaves(MonthTable[b].1 + rest, b + 1, |MonthTable|)
    ensures TranslateMonths(MonthTable[t].0) == MonthTable[b].1 + rest
  {
    var s1 := DottedFirstStep(t, b, rest, before);
    ApplyFixed(s1, b + 1, |MonthTable|);
  }

  /** The pass on a dotted key up to and including its undotted entry. */
  lemma DottedFirstStep(t: int, b: int, rest: string, before: set<char>) returns (s1: string)
    requires 12 <= b < 23 <= t < |MonthTable|
    requires MonthTable[t].0 == MonthTable[b].0 + rest && 0 < |rest| < 3
    requires CoveredBy(MonthTable[t].0, before)
    requires forall u | 0 <= u < b :: |MonthTable[u].0| > |MonthTable[t].0| || KeyMisses(MonthTable[u].0, before)
    ensures s1 == MonthTable[b].1 + rest
    ensures TranslateMonths(MonthTable[t].0) == ApplyKeys(s1, b + 1, |MonthTable|)
  {
    var s0 := MonthTable[t].0;
    var (k, v) := MonthTable[b];
    s1 := v + rest;
    assert ApplyKeys(s0, 0, b) == s0 by {
      LeavesByLetters(s0, 0, b, before);
      ApplyFixed(s0, 0, b);
    }
    assert ReplaceAll(s0, k, v) == s1 by {
      assert WellFormedKey(k) && |k| == 3 by { TableKeysWellFormed(); }
      UndottedFires(s0, k, v, rest);
    }
    ApplySplit(s0, 0, b, |MonthTable|);
    ApplyStep(s0, b);
  }

  /** A key followed by a short rest: the key is replaced and the rest,
      shorter than the key, stays. */
  lemma UndottedFires(s: string, k: string, v: string, rest: string)
    requires WellFormedKey(k) && |k| == 3 && s == k + rest && |rest| < 3
    ensures ReplaceAll(s, k, v) == v + rest
  {
    assert StartsWithKey(s, k) by {
      assert forall i | 0 <= i < |k| :: s[i] == k[i] && LowerChar(k[i]) == k[i];
    }
    ReplaceMatch(s, k, v);
    assert s[|k|..] == rest;
    ReplaceLonger(rest, k, v);
  }

  /** "Sept." is not an occurrence of "sep.": its fourth character is 't',
      and no other position starts with 's'. */
  lemma SeptNotSepDot()
    ensures ReplaceAll(MonthTable[19].1 + "t.", MonthTable[30].0, MonthTable[30].1) == MonthTable[19].1 + "t."
  {
    var s, k, v := MonthTable[19].1 + "t.", MonthTable[30].0, MonthTable[30].1;
    assert s == "Sept." && k == "sep.";
    assert !StartsWithKey(s, k) by { assert LowerChar(s[3]) != k[3]; }
    ReplaceNoMatch(s, k, v);
    assert forall i | 0 <= i < |s[1..]| :: LowerChar(s[1..][i]) != k[0];
    ReplaceAbsent(s[1..], k, v, 0);
    assert s == [s[0]] + s[1..];
  }

  /** The pass turns every undotted abbreviation into its English value. */
  lemma TranslateShortKeys(t: int)
    requires 12 <= t < 23
    ensures TranslateMonths(MonthTable[t].0) == MonthTable[t].1
  {
    if t == 12 {
      TranslateJan();
    } else if t == 13 {
      TranslateFeb();
    } else if t == 14 {
      TranslateMrt();
    } else if t == 15 {
      TranslateApr();
    } else if t == 16 {
      TranslateJun();
    } else if t == 17 {
      TranslateJul();
    } else if t == 18 {
      TranslateAug();
    } else if t == 19 {
      TranslateSep();
    } else if t == 20 {
      TranslateOkt();
    } else if t == 21 {
      TranslateNov();
    } else {
      TranslateDec();
    }
  }

  /** The pass turns every dotted abbreviation into its English value, except
      "mrt." and "okt.", which keep their dot. */
  lemma TranslateDottedKeys(t: int)
    requires 23 <= t < |MonthTable|
    ensures TranslateMonths(MonthTable[t].0) ==
            if t == 25 || t == 32 then MonthTable[t].1 + "." else MonthTable[t].1
  {
    if t == 23 {
      TranslateJanDot();
    } else if t == 24 {
      TranslateFebDot();
    } else if t == 25 {
      TranslateMrtDot();
    } else if t == 26 {
      TranslateAprDot();
    } else if t == 27 {
      TranslateJunDot();
    } else if t == 28 {
      TranslateJulDot();
    } else if t == 29 {
      TranslateAugDot();
    } else if t == 30 {
      TranslateSepDot();
    } else if t == 31 {
      TranslateSeptDot();
    } else if t == 32 {
      TranslateOktDot();
    } else if t == 33 {
      TranslateNovDot();
    } else {
      TranslateDecDot();
    }
  }

  lemma TranslateJan()
    ensures TranslateMonths(MonthTable[12].0) == MonthTable[12].1
  {
    TranslateShortKey(12, {'a', 'j', 'n'});
  }

  lemma TranslateFeb()
    ensures TranslateMonths(MonthTable[13].0) == MonthTable[13].1
  {
    TranslateShortKey(13, {'b', 'e', 'f'});
  }

  lemma TranslateMrt()
    ensures TranslateMonths(MonthTable[14].0) == MonthTable[14].1
  {
    TranslateShortKey(14, {'a', 'm', 'r', 't'});
  }

  lemma TranslateApr()
    ensures TranslateMonths(MonthTable[15].0) == MonthTable[15].1
  {
    TranslateShortKey(15, {'a', 'p', 'r'});
  }

  lemma TranslateJun()
    ensures TranslateMonths(MonthTable[16].0) == MonthTable[16].1
  {
    TranslateShortKey(16, {'j', 'n', 'u'});
  }

  lemma TranslateJul()
    ensures TranslateMonths(MonthTable[17].0) == MonthTable[17].1
  {
    TranslateShortKey(17, {'j', 'l', 'u'});
  }

  lemma TranslateAug()
    ensures TranslateMonths(MonthTable[18].0) == MonthTable[18].1
  {
    TranslateShortKey(18, {'a', 'g', 'u'});
  }

  lemma TranslateSep()
    ensures TranslateMonths(MonthTable[19].0) == MonthTable[19].1
  {
    TranslateShortKey(19, {'e', 'p', 's'});
  }

  lemma TranslateOkt()
    ensures TranslateMonths(MonthTable[20].0) == MonthTable[20].1
  {
    TranslateShortKey(20, {'c', 'k', 'o', 't'});
  }

  lemma TranslateNov()
    ensures TranslateMonths(MonthTable[21].0) == MonthTable[21].1
  {
    TranslateShortKey(21, {'n', 'o', 'v'});
  }

  lemma TranslateDec()
    ensures TranslateMonths(MonthTable[22].0) == MonthTable[22].1
  {
    TranslateShortKey(22, {'c', 'd', 'e'});
  }

  lemma TranslateJanDot()
    ensures TranslateMonths(MonthTable[23].0) == MonthTable[23].1
  {
    LeavesByLetters(MonthTable[12].1 + ".", 13, 23, {'.', 'a', 'j', 'n'});
    TranslateDottedKey(23, 12, ".", {'.', 'a', 'j', 'n'});
  }

  lemma TranslateFebDot()
    ensures TranslateMonths(MonthTable[24].0) == MonthTable[24].1
  {
    LeavesByLetters(MonthTable[13].1 + ".", 14, 24, {'.', 'b', 'e', 'f'});
    TranslateDottedKey(24, 13, ".", {'.', 'b', 'e', 'f'});
  }

  lemma TranslateMrtDot()
    ensures TranslateMonths(MonthTable[25].0) == MonthTable[25].1 + "."
  {
    LeavesByLetters(MonthTable[14].1 + ".", 15, |MonthTable|, {'.', 'a', 'm', 'r'});
    TranslateDottedKeyUnmatched(25, 14, ".", {'.', 'm', 'r', 't'});
  }

  lemma TranslateAprDot()
    ensures TranslateMonths(MonthTable[26].0) == MonthTable[26].1
  {
    LeavesByLetters(MonthTable[15].1 + ".", 16, 26, {'.', 'a', 'p', 'r'});
    TranslateDottedKey(26, 15, ".", {'.', 'a', 'p', 'r'});
  }

  lemma TranslateJunDot()
    ensures TranslateMonths(MonthTable[27].0) == MonthTable[27].1
  {
    LeavesByLetters(MonthTable[16].1 + ".", 17, 27, {'.', 'j', 'n', 'u'});
    TranslateDottedKey(27, 16, ".", {'.', 'j', 'n', 'u'});
  }

  lemma TranslateJulDot()
    ensures TranslateMonths(MonthTable[28].0) == MonthTable[28].1
  {
    LeavesByLetters(MonthTable[17].1 + ".", 18, 28, {'.', 'j', 'l', 'u'});
    TranslateDottedKey(28, 17, ".", {'.', 'j', 'l', 'u'});
  }

  lemma TranslateAugDot()
    ensures TranslateMonths(MonthTable[29].0) == MonthTable[29].1
  {
    LeavesByLetters(MonthTable[18].1 + ".", 19, 29, {'.', 'a', 'g', 'u'});
    TranslateDottedKey(29, 18, ".", {'.', 'a', 'g', 'u'});
  }

  lemma TranslateSepDot()
    ensures TranslateMonths(MonthTable[30].0) == MonthTable[30].1
  {
    LeavesByLetters(MonthTable[19].1 + ".", 20, 30, {'.', 'e', 'p', 's'});
    TranslateDottedKey(30, 19, ".", {'.', 'e', 'p', 's'});
  }

  lemma TranslateSeptDot()
    ensures TranslateMonths(MonthTable[31].0) == MonthTable[31].1
  {
    LeavesByLetters(MonthTable[19].1 + "t.", 20, 30, {'.', 'e', 'p', 's', 't'});
    SeptNotSepDot();
    TranslateDottedKey(31, 19, "t.", {'.', 'e', 'p', 's', 't'});
  }

  lemma TranslateOktDot()
    ensures TranslateMonths(MonthTable[32].0) == MonthTable[32].1 + "."
  {
    LeavesByLetters(MonthTable[20].1 + ".", 21, |MonthTable|, {'.', 'c', 'o', 't'});
    TranslateDottedKeyUnmatched(32, 20, ".", {'.', 'k', 'o', 't'});
  }

  lemma TranslateNovDot()
    ensures TranslateMonths(MonthTable[33].0) == MonthTable[33].1
  {
    LeavesByLetters(MonthTable[21].1 + ".", 22, 33, {'.', 'n', 'o', 'v'});
    TranslateDottedKey(33, 21, ".", {'.', 'n', 'o', 'v'});
  }

  lemma TranslateDecDot()
    ensures TranslateMonths(MonthTable[34].0) == MonthTable[34].1
  {
    LeavesByLetters(MonthTable[22].1 + ".", 23, 34, {'.', 'c', 'd', 'e'});
    TranslateDottedKey(34, 22, ".", {'.', 'c', 'd', 'e'});
  }

  /** The whole pass on any abbreviated key gives the three-letter English
      abbreviation of its month, followed by a dot for "mrt." and "okt.":
      "nov." becomes "Nov", "sept." becomes "Sep", "mrt." becomes "Mar.". */
  lemma TranslateAbbreviation(t: int)
    requires 12 <= t < |MonthTable|
    ensures TranslateMonths(MonthTable[t].0) ==
            EnglishMonth(AbbreviatedMonth(t))[..3] + (if t == 25 || t == 32 then "." else "")
  {
    AbbreviatedValue(t);
    if t < 23 {
      TranslateShortKeys(t);
    } else {
      TranslateDottedKeys(t);
    }
  }

  /** Three labels from the agenda data and the table's corner cases. */
  lemma AbbreviationExamples()
    ensures TranslateMonths("nov.") == "Nov"
    ensures TranslateMonths("sept.") == "Sep"
    ensures TranslateMonths("mrt.") == "Mar."
    ensures TranslateMonths("okt") == "Oct"
  {
    TranslateDottedKeys(33);
    TranslateDottedKeys(31);
    TranslateDottedKeys(25);
    TranslateShortKeys(20);
  }
}
