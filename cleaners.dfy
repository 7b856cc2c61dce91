/**
 * The per-value cleaning rules and derivations of the pipeline
 * (`name_cleaner`, `birthdate_cleaner`, the name splitting and joining of
 * `create_fullName`, `calculate_age`, `number_cleaner`, `salaryBucketer`),
 * each first on one value and then on a whole column of cells.
 */
module Cleaners {
  import opened Wrappers
  import opened Text
  import opened Dates
  import opened Frames

  // ---------------------------------------------------------------------
  // name_cleaner

  /** `re.sub('[^a-zA-ZÀ-ÿ]+', '', s)`: the letters of `s`, in order. */
  function KeepLetters(s: string): (r: string)
    ensures |r| <= |s|
    ensures forall i :: 0 <= i < |r| ==> IsNameLetter(r[i])
  {
    if s == [] then []
    else (if IsNameLetter(s[0]) then [s[0]] else []) + KeepLetters(s[1..])
  }

  /** The two-character string `\s`, which line 47 replaces only as a whole value. */
  const BackslashS: string := ['\\', 's']

  /**
   * One value of `name_cleaner`: the whole-value `replace('\s', '')` of
   * line 47 (which only touches a cell that is exactly `\s`), then the
   * letter filter of line 48.
   */
  function CleanName(s: string): (r: string)
    ensures forall i :: 0 <= i < |r| ==> IsNameLetter(r[i])
  {
    if s == BackslashS then "" else KeepLetters(s)
  }

  lemma {:induction false} KeepLettersAppend(a: string, b: string)
    ensures KeepLetters(a + b) == KeepLetters(a) + KeepLetters(b)
  {
    if a == [] {
      assert a + b == b;
    } else {
      assert (a + b)[1..] == a[1..] + b;
      KeepLettersAppend(a[1..], b);
    }
  }

  /** Each letter occurs in the output exactly as often as in the input; nothing else occurs. */
  lemma {:induction false} KeepLettersCounts(s: string, c: char)
    ensures multiset(KeepLetters(s))[c] == if IsNameLetter(c) then multiset(s)[c] else 0
  {
    if s != [] {
      KeepLettersCounts(s[1..], c);
      assert s == [s[0]] + s[1..];
      assert multiset(s) == multiset{s[0]} + multiset(s[1..]);
    }
  }

  lemma {:induction false} KeepLettersOfLetters(s: string)
    requires forall i :: 0 <= i < |s| ==> IsNameLetter(s[i])
    ensures KeepLetters(s) == s
  {
    if s != [] {
      KeepLettersOfLetters(s[1..]);
    }
  }

  /** Cleaning a cleaned name changes nothing. */
  lemma CleanNameIdempotent(s: string)
    ensures CleanName(CleanName(s)) == CleanName(s)
  {
    var r := CleanName(s);
    assert !IsNameLetter(BackslashS[0]);
    KeepLettersOfLetters(r);
  }

  /** A cleaned name holds no whitespace and no digit. */
  lemma CleanNameNoSpaceNoDigit(s: string)
    ensures NoSpace(CleanName(s))
    ensures forall i :: 0 <= i < |CleanName(s)| ==> !IsDigit(CleanName(s)[i])
  {
  }

  lemma KeepLettersCons(c: char, s: string)
    ensures KeepLetters([c] + s) == (if IsNameLetter(c) then [c] else []) + KeepLetters(s)
  {
    assert ([c] + s)[1..] == s;
  }

  lemma KeepLettersExampleBlanks()
    ensures KeepLetters("  Carla ") == "Carla"
  {
    KeepLettersCons(' ', "");
    KeepLettersCons('a', " ");
    KeepLettersCons('l', "a ");
    KeepLettersCons('r', "la ");
    KeepLettersCons('a', "rla ");
    KeepLettersCons('C', "arla ");
    KeepLettersCons(' ', "Carla ");
    KeepLettersCons(' ', " Carla ");
  }

  /** The example of unittests.py: surrounding blanks go. */
  lemma CleanNameExampleBlanks()
    ensures CleanName("  Carla ") == "Carla"
  {
    assert "  Carla " != BackslashS by { assert |"  Carla "| != |BackslashS|; }
    KeepLettersExampleBlanks();
  }

  lemma KeepLettersExampleDigits()
    ensures KeepLetters("Dena99") == "Dena"
  {
    KeepLettersCons('9', "");
    KeepLettersCons('9', "9");
    KeepLettersCons('a', "99");
    KeepLettersCons('n', "a99");
    KeepLettersCons('e', "na99");
    KeepLettersCons('D', "ena99");
  }

  /** The example of unittests.py: digits go. */
  lemma CleanNameExampleDigits()
    ensures CleanName("Dena99") == "Dena"
  {
    assert "Dena99" != BackslashS by { assert |"Dena99"| != |BackslashS|; }
    KeepLettersExampleDigits();
  }

  lemma KeepLettersExampleUnderscore()
    ensures KeepLetters("Ellie_J") == "EllieJ"
  {
    KeepLettersCons('J', "");
    KeepLettersCons('_', "J");
    KeepLettersCons('e', "_J");
    KeepLettersCons('i', "e_J");
    KeepLettersCons('l', "ie_J");
    KeepLettersCons('l', "lie_J");
    KeepLettersCons('E', "llie_J");
  }

  /** The example of unittests.py: an underscore goes. */
  lemma CleanNameExampleUnderscore()
    ensures CleanName("Ellie_J") == "EllieJ"
  {
    assert "Ellie_J" != BackslashS by { assert |"Ellie_J"| != |BackslashS|; }
    KeepLettersExampleUnderscore();
  }

  /** `name_cleaner` on one cell: a string is cleaned, anything else makes `re.sub` raise. */
  function NameCell(c: Cell): (r: Result<Cell, Error>)
    ensures r.Ok? <==> c.Str?
    ensures r.Ok? ==> r.value == Str(CleanName(c.s))
    ensures r.Err? ==> r.error == TypeError
  {
    if c.Str? then Ok(Str(CleanName(c.s))) else Err(TypeError)
  }

  /** `name_cleaner` on a column: every cell cleaned, or `TypeError` when some cell is not a string. */
  function NameCleaner(col: seq<Cell>): (r: Result<seq<Cell>, Error>)
    ensures r.Ok? <==> forall i :: 0 <= i < |col| ==> col[i].Str?
    ensures r.Err? ==> r.error == TypeError
    ensures r.Ok? ==> |r.value| == |col|
                      && forall i :: 0 <= i < |col| ==> r.value[i] == Str(CleanName(col[i].s))
  {
    TryMap(NameCell, col)
  }

  // ---------------------------------------------------------------------
  // birthdate_cleaner

  /** The fallback written for a missing or unparseable birthdate. */
  const Sentinel: string := "01/01/2023"

  /** The date `Sentinel` stands for, also the reference date of `calculate_age`. */
  const ReferenceDate: Date := Date(2023, 1, 1)

  lemma SentinelIsReference()
    ensures ValidDate(ReferenceDate) && FormatDMY(ReferenceDate) == Sentinel
    ensures ParseDMY(Sentinel) == Some(ReferenceDate)
  {
    DMYRoundTrip(ReferenceDate);
  }

  /**
   * One value of `birthdate_cleaner`: year-month-day becomes `DD/MM/YYYY`,
   * anything else the sentinel. The text written names the parsed date, or
   * the sentinel's date for a missing or unparseable value.
   */
  function CleanBirthdate(c: Cell): (r: string)
    ensures ParseDMY(r) == Some(if c.Str? && ParseYMD(c.s).Some? then ParseYMD(c.s).value else ReferenceDate)
  {
    if c.Str? && ParseYMD(c.s).Some? then
      DMYRoundTrip(ParseYMD(c.s).value);
      FormatDMY(ParseYMD(c.s).value)
    else
      SentinelIsReference();
      Sentinel
  }

  /** A date written year-month-day comes out as the same date written `DD/MM/YYYY`. */
  lemma CleanBirthdateFormats(d: Date, sep: char)
    requires ValidDate(d) && InTimestampRange(d) && (sep == '-' || sep == '/')
    ensures CleanBirthdate(Str(FormatYMD(d, sep))) == FormatDMY(d)
  {
    YMDRoundTrip(d, sep);
  }

  lemma CleanBirthdateExample(y: int, m: int, d: int, iso: string, dmy: string)
    requires ValidDate(Date(y, m, d)) && InTimestampRange(Date(y, m, d))
    requires iso == FormatYMD(Date(y, m, d), '-') && dmy == FormatDMY(Date(y, m, d))
    ensures CleanBirthdate(Str(iso)) == dmy
  {
    CleanBirthdateFormats(Date(y, m, d), '-');
  }

  lemma CleanBirthdateExample1975()
    ensures CleanBirthdate(Str("1975-03-03")) == "03/03/1975"
  {
    assert FormatYMD(Date(1975, 3, 3), '-') == "1975-03-03";
    assert FormatDMY(Date(1975, 3, 3)) == "03/03/1975";
    CleanBirthdateExample(1975, 3, 3, "1975-03-03", "03/03/1975");
  }

  lemma CleanBirthdateExample1980()
    ensures CleanBirthdate(Str("1980-01-01")) == "01/01/1980"
  {
    assert FormatYMD(Date(1980, 1, 1), '-') == "1980-01-01";
    assert FormatDMY(Date(1980, 1, 1)) == "01/01/1980";
    CleanBirthdateExample(1980, 1, 1, "1980-01-01", "01/01/1980");
  }

  lemma CleanBirthdateExample2023()
    ensures CleanBirthdate(Str("2023-11-20")) == "20/11/2023"
  {
    assert FormatYMD(Date(2023, 11, 20), '-') == "2023-11-20";
    assert FormatDMY(Date(2023, 11, 20)) == "20/11/2023";
    CleanBirthdateExample(2023, 11, 20, "2023-11-20", "20/11/2023");
  }

  lemma CleanBirthdateFallbackExamples()
    ensures CleanBirthdate(Str("not-a-date")) == Sentinel
    ensures CleanBirthdate(Nan) == Sentinel
  {
  }

  /** `birthdate_cleaner`: one `DD/MM/YYYY` string per input cell, never an error. */
  function BirthdateCleaner(col: seq<Cell>): (r: seq<Cell>)
    ensures |r| == |col|
    ensures forall i :: 0 <= i < |col| ==> r[i].Str? && ParseDMY(r[i].s).Some?
  {
    var r := seq(|col|, i requires 0 <= i < |col| => Str(CleanBirthdate(col[i])));
    r
  }

  /** The date a birthdate cell names once `birthdate_cleaner` has rewritten it. */
  function BirthDateOf(c: Cell): (d: Date)
    ensures ValidDate(d) && InTimestampRange(d) && ParseDMY(CleanBirthdate(c)) == Some(d)
  {
    if c.Str? && ParseYMD(c.s).Some? then ParseYMD(c.s).value else ReferenceDate
  }

  // ---------------------------------------------------------------------
  // create_fullName, lines 91-93: splitting the first name before capitals

  /** `re.sub(r"([A-Z])", r" \1", s)`: a space inserted before every ASCII capital. */
  function InsertSpaces(s: string): string {
    if s == [] then []
    else (if IsAsciiUpper(s[0]) then [' ', s[0]] else [s[0]]) + InsertSpaces(s[1..])
  }

  /** `' '.join(re.sub(r"([A-Z])", r" \1", s).split())`: the words come out single-spaced. */
  function SplitCapitals(s: string): (r: string)
    ensures SingleSpaced(r)
  {
    Join(Words(InsertSpaces(s)))
  }

  /** Without whitespace in `s`, every space of `InsertSpaces(s)` stands right before a capital. */
  lemma {:induction false} InsertSpacesShape(s: string)
    requires NoSpace(s)
    ensures var t := InsertSpaces(s);
            && (forall i :: 0 <= i < |t| && IsSpace(t[i]) ==>
                  t[i] == ' ' && i + 1 < |t| && IsAsciiUpper(t[i + 1]))
            && RemoveSpaces(t) == s
            && (t != [] && t[0] == ' ' <==> s != [] && IsAsciiUpper(s[0]))
  {
    if s != [] {
      var head := if IsAsciiUpper(s[0]) then [' ', s[0]] else [s[0]];
      var rest := InsertSpaces(s[1..]);
      InsertSpacesShape(s[1..]);
      var t := head + rest;
      assert InsertSpaces(s) == t;
      forall i | 0 <= i < |t| && IsSpace(t[i])
        ensures t[i] == ' ' && i + 1 < |t| && IsAsciiUpper(t[i + 1])
      {
        if i >= |head| {
          assert t[i] == rest[i - |head|];
        }
      }
      RemoveSpacesAppend(head, rest);
      assert RemoveSpaces(head) == [s[0]] by {
        assert head == [' ', s[0]] ==> head[1..] == [s[0]] && [s[0]][1..] == [];
        assert head == [s[0]] ==> head[1..] == [];
      }
      assert s == [s[0]] + s[1..];
    }
  }

  /**
   * Lines 91-93 on a whitespace-free name: single spaces only, each before
   * an ASCII capital, and deleting the spaces gives the name back.
   */
  lemma SplitCapitalsShape(s: string)
    requires NoSpace(s)
    ensures var r := SplitCapitals(s);
            && SingleSpaced(r)
            && (forall i :: 0 <= i < |r| && r[i] == ' ' ==> i + 1 < |r| && IsAsciiUpper(r[i + 1]))
            && RemoveSpaces(r) == s
  {
    var t := InsertSpaces(s);
    InsertSpacesShape(s);
    var u := if t != [] && t[0] == ' ' then t[1..] else t;
    if t != [] && t[0] == ' ' {
      assert t == [' '] + u;
      WordsLeadingSpace(u);
      RemoveSpacesAppend([' '], u);
    }
    forall i | 0 <= i < |u| && IsSpace(u[i])
      ensures u[i] == ' ' && 0 < i && i + 1 < |u| && !IsSpace(u[i + 1])
    {
      var k := if t != [] && t[0] == ' ' then i + 1 else i;
      assert u[i] == t[k];
      assert u[i + 1] == t[k + 1];
    }
    JoinWordsSingleSpaced(u);
  }

  lemma InsertSpacesCons(c: char, s: string)
    ensures InsertSpaces([c] + s) == (if IsAsciiUpper(c) then [' ', c] else [c]) + InsertSpaces(s)
  {
    assert ([c] + s)[1..] == s;
  }

  lemma {:induction false} InsertSpacesAppend(a: string, b: string)
    ensures InsertSpaces(a + b) == InsertSpaces(a) + InsertSpaces(b)
  {
    if a != [] {
      assert (a + b)[0] == a[0] && (a + b)[1..] == a[1..] + b;
      InsertSpacesAppend(a[1..], b);
      var head := if IsAsciiUpper(a[0]) then [' ', a[0]] else [a[0]];
      assert InsertSpaces(a + b) == head + (InsertSpaces(a[1..]) + InsertSpaces(b));
      assert head + (InsertSpaces(a[1..]) + InsertSpaces(b)) == (head + InsertSpaces(a[1..])) + InsertSpaces(b);
    } else {
      assert a + b == b;
    }
  }

  lemma InsertSpacesJohn()
    ensures InsertSpaces("John") == " John"
  {
    InsertSpacesCons('n', "");
    InsertSpacesCons('h', "n");
    InsertSpacesCons('o', "hn");
    InsertSpacesCons('J', "ohn");
  }

  lemma InsertSpacesPaul()
    ensures InsertSpaces("Paul") == " Paul"
  {
    InsertSpacesCons('l', "");
    InsertSpacesCons('u', "l");
    InsertSpacesCons('a', "ul");
    InsertSpacesCons('P', "aul");
  }

  lemma InsertSpacesExample()
    ensures InsertSpaces("JohnPaul") == [' '] + "John Paul"
  {
    assert "JohnPaul" == "John" + "Paul";
    InsertSpacesAppend("John", "Paul");
    InsertSpacesJohn();
    InsertSpacesPaul();
  }

  lemma SingleSpacedExample()
    ensures SingleSpaced("John Paul")
  {
    forall i | 0 <= i < |"John Paul"| && IsSpace("John Paul"[i])
      ensures i == 4
    {
    }
  }

  /** The example of line 92: "JohnPaul" becomes "John Paul". */
  lemma SplitCapitalsExample()
    ensures SplitCapitals("JohnPaul") == "John Paul"
  {
    InsertSpacesExample();
    WordsLeadingSpace("John Paul");
    SingleSpacedExample();
    JoinWordsSingleSpaced("John Paul");
  }

  /** Lines 91-93 on one cell: only strings can be split. */
  function SplitCapitalsCell(c: Cell): (r: Result<Cell, Error>)
    ensures r.Ok? <==> c.Str?
    ensures r.Ok? ==> r.value == Str(SplitCapitals(c.s))
    ensures r.Err? ==> r.error == TypeError
  {
    if c.Str? then Ok(Str(SplitCapitals(c.s))) else Err(TypeError)
  }

  // ---------------------------------------------------------------------
  // create_fullName, lines 98-100: first and last name joined

  /**
   * `strip(first.fillna(last) + ' ' + last.fillna(first))`: a missing side
   * takes the other side's value; both missing stays missing.
   */
  function FullName(first: Option<string>, last: Option<string>): (r: Option<string>)
    ensures r.None? <==> first.None? && last.None?
  {
    var f := if first.Some? then first else last;
    var l := if last.Some? then last else first;
    if f.Some? && l.Some? then Some(Strip(f.value + " " + l.value)) else None
  }

  /**
   * With both names present and free of edge whitespace: an empty side
   * disappears together with the joining space.
   */
  lemma FullNameJoin(first: string, last: string)
    requires first == [] || (!IsSpace(first[0]) && !IsSpace(first[|first| - 1]))
    requires last == [] || (!IsSpace(last[0]) && !IsSpace(last[|last| - 1]))
    ensures FullName(Some(first), Some(last)) ==
              Some(if first == [] then last else if last == [] then first else first + " " + last)
  {
    var j := first + " " + last;
    if first == [] && last == [] {
      assert TrimLeft(j) == [];
    } else if first == [] {
      assert j == [' '] + last && j[1..] == last;
      StripTrimmed(last);
    } else if last == [] {
      assert j == first + [' '] && j[..|j| - 1] == first;
      assert TrimLeft(j) == j;
      StripTrimmed(first);
    } else {
      StripTrimmed(j);
    }
  }

  /** `fillna` only replaces NaN: a missing first name repeats the last name. */
  lemma FullNameMissingFirst(last: string)
    requires last != [] && !IsSpace(last[0]) && !IsSpace(last[|last| - 1])
    ensures FullName(None, Some(last)) == Some(last + " " + last)
  {
    var j := last + " " + last;
    assert j[0] == last[0] && j[|j| - 1] == last[|last| - 1];
    StripTrimmed(j);
  }

  /** Lines 98-100 on one pair of cells; a number cannot be concatenated with a string. */
  function FullNameCell(first: Cell, last: Cell): (r: Result<Cell, Error>)
    ensures r.Err? <==> first.Num? || last.Num?
    ensures r.Ok? ==> var n := FullName(if first.Str? then Some(first.s) else None,
                                         if last.Str? then Some(last.s) else None);
                      r.value == if n.Some? then Str(n.value) else Nan
  {
    if first.Num? || last.Num? then Err(TypeError)
    else
      var n := FullName(if first.Str? then Some(first.s) else None,
                        if last.Str? then Some(last.s) else None);
      Ok(if n.Some? then Str(n.value) else Nan)
  }

  // ---------------------------------------------------------------------
  // calculate_age

  /** Python's `int(a / b)` for a positive divisor: the quotient truncated toward zero. */
  function TruncDiv(a: int, b: int): int
    requires b > 0
  {
    if a >= 0 then a / b else -((-a) / b)
  }

  function Abs(x: int): nat {
    if x < 0 then -x else x
  }

  /** `abs(int(days / 365))`: the whole 365-day periods in the span, whichever way it runs. */
  function AgeFromDays(days: int): (r: nat)
    ensures 365 * r <= Abs(days) < 365 * (r + 1)
  {
    Abs(TruncDiv(days, 365))
  }

  /** A span counted backwards gets the same age as the same span forwards. */
  lemma AgeFromDaysSymmetric(days: int)
    ensures AgeFromDays(-days) == AgeFromDays(days)
  {
  }

  /**
   * Age in years of someone born on `birth`, measured against `reference`:
   * the whole 365-day periods between the two days, whichever comes first.
   */
  function Age(birth: Date, reference: Date): (r: nat)
    requires ValidDate(birth) && ValidDate(reference)
    ensures 365 * r <= Abs(DayNumber(birth) - DayNumber(reference)) < 365 * (r + 1)
  {
    AgeFromDays(DayNumber(birth) - DayNumber(reference))
  }

  lemma AgeOfReference()
    ensures Age(ReferenceDate, ReferenceDate) == 0
  {
  }

  /** Ages are symmetric: a date as far after the reference as another is before gets the same age. */
  lemma AgeSymmetric(a: Date, b: Date)
    requires ValidDate(a) && ValidDate(b)
    ensures Age(a, b) == Age(b, a)
  {
    AgeFromDaysSymmetric(DayNumber(a) - DayNumber(b));
  }

  /** The age on 01/01/2023, the reference date `transform_data` passes to `calculate_age`. */
  function AgeOn(birth: Date): nat
    requires ValidDate(birth)
  {
    SentinelIsReference();
    Age(birth, ReferenceDate)
  }

  /** How line 125's format-less `pd.to_datetime` reads `DD/MM/YYYY` text. */
  datatype Reading =
    | DayFirst     // as line 71 wrote it, the evidently intended reading
    | MonthFirst   // as `dateutil` reads it before pandas 2.0, the code as written

  /**
   * Line 125 on one birthday cell: the date its text names, read as
   * `reading`, when a nanosecond `Timestamp` can hold it. A cell that is
   * not text has no date (NaN becomes NaT).
   */
  function Birthday(reading: Reading, c: Cell): (r: Option<Date>)
    ensures r.Some? ==> c.Str? && ValidDate(r.value) && InTimestampRange(r.value)
  {
    if c.Str? then
      var d := if reading == DayFirst then ParseDMY(c.s) else ParseMonthFirst(c.s);
      if d.Some? && InTimestampRange(d.value) then d else None
    else None
  }

  /** Line 125 accepts the cell: NaN becomes NaT, and text must name a date in the `Timestamp` range. */
  predicate Converts(reading: Reading, c: Cell) {
    c.Nan? || Birthday(reading, c).Some?
  }

  /** Nanoseconds in a day, the unit of a pandas `Timedelta`. */
  const NanosPerDay: int := 86_400_000_000_000

  predicate FitsInt64(x: int) {
    -0x8000_0000_0000_0000 <= x < 0x8000_0000_0000_0000
  }

  /**
   * Line 127 subtracts the reference's nanoseconds from the birthday's with
   * an overflow check, and raises `OverflowError` when the difference does
   * not fit in int64.
   */
  predicate Overflows(birth: Date, reference: Date)
    requires 1 <= birth.month <= 12 && 1 <= reference.month <= 12
  {
    !FitsInt64((DayNumber(birth) - DayNumber(reference)) * NanosPerDay)
  }

  /** 2^63 nanoseconds are 106751.99 days, so a difference overflows exactly from 106752 days on. */
  lemma OverflowDays(birth: Date, reference: Date)
    requires 1 <= birth.month <= 12 && 1 <= reference.month <= 12
    ensures Overflows(birth, reference) <==> Abs(DayNumber(birth) - DayNumber(reference)) >= 106752
  {
  }

  /** The cell converts at line 125, and its difference from `reference` overflows at line 127. */
  predicate OverflowsAt(reading: Reading, c: Cell, reference: Date)
    requires 1 <= reference.month <= 12
  {
    Birthday(reading, c).Some? && Overflows(Birthday(reading, c).value, reference)
  }

  /**
   * `calculate_age(birthdays, rel_date)`, with line 125 reading the text as
   * `reading`. The exceptions come in the order the lines run:
   * - `strptime` (line 123) raises `ValueError` for a reference that is no date;
   * - `pd.to_datetime` (line 125) raises `ValueError` for a birthday that is no
   *   date or lies outside the `Timestamp` range;
   * - the subtraction (line 127) raises `ValueError` for a reference outside
   *   that range, and `OverflowError` for a difference outside int64 nanoseconds;
   * - `int()` of a NaT's days (line 129) raises `ValueError` for a NaN birthday.
   */
  function CalculateAge(reading: Reading, col: seq<Cell>, relDate: string): (r: Result<seq<Cell>, Error>)
    ensures r.Ok? <==> && ParseDMY(relDate).Some? && InTimestampRange(ParseDMY(relDate).value)
                       && forall i :: 0 <= i < |col| ==>
                            Birthday(reading, col[i]).Some? && !OverflowsAt(reading, col[i], ParseDMY(relDate).value)
    ensures r == Err(OverflowError) <==>
              && ParseDMY(relDate).Some? && InTimestampRange(ParseDMY(relDate).value)
              && (forall i :: 0 <= i < |col| ==> Converts(reading, col[i]))
              && exists i :: 0 <= i < |col| && OverflowsAt(reading, col[i], ParseDMY(relDate).value)
    ensures r.Err? && r.error != OverflowError ==> r.error == ValueError
    ensures r.Ok? ==> |r.value| == |col|
                      && forall i :: 0 <= i < |col| ==>
                           r.value[i] == Num(Age(Birthday(reading, col[i]).value, ParseDMY(relDate).value))
  {
    match ParseDMY(relDate)
    case None => Err(ValueError)
    case Some(reference) =>
      if exists i :: 0 <= i < |col| && !Converts(reading, col[i]) then Err(ValueError)
      else if !InTimestampRange(reference) then Err(ValueError)
      else if exists i :: 0 <= i < |col| && OverflowsAt(reading, col[i], reference) then Err(OverflowError)
      else if exists i :: 0 <= i < |col| && col[i].Nan? then Err(ValueError)
      else Ok(seq(|col|, i requires 0 <= i < |col| => Num(Age(Birthday(reading, col[i]).value, reference))))
  }

  /** The reference date is a `Timestamp`, so only the birthdays decide whether line 127 raises. */
  lemma ReferenceInRange()
    ensures ValidDate(ReferenceDate) && InTimestampRange(ReferenceDate)
    ensures ParseDMY(Sentinel) == Some(ReferenceDate)
  {
    SentinelIsReference();
  }

  /**
   * The column `birthdate_cleaner` produces is aged, day first, exactly when
   * no cleaned birthdate lies so far before the reference date that line
   * 127 overflows; otherwise `OverflowError`. Each age is that of the
   * cleaned date, and the sentinel's is 0.
   */
  lemma CleanedBirthdatesHaveAges(col: seq<Cell>)
    ensures ValidDate(ReferenceDate)
    ensures var r := CalculateAge(DayFirst, BirthdateCleaner(col), Sentinel);
            && (r.Ok? <==> forall i :: 0 <= i < |col| ==> !Overflows(BirthDateOf(col[i]), ReferenceDate))
            && (r.Err? ==> r.error == OverflowError)
            && (r.Ok? ==> |r.value| == |col|
                          && forall i :: 0 <= i < |col| ==>
                               && r.value[i] == Num(AgeOn(BirthDateOf(col[i])))
                               && (CleanBirthdate(col[i]) == Sentinel ==> r.value[i] == Num(0)))
  {
    ReferenceInRange();
    AgeOfReference();
    var cleaned := BirthdateCleaner(col);
    forall i | 0 <= i < |col|
      ensures Birthday(DayFirst, cleaned[i]) == Some(BirthDateOf(col[i]))
      ensures CleanBirthdate(col[i]) == Sentinel ==> BirthDateOf(col[i]) == ReferenceDate
    {
    }
  }

  /** The last birthday line 127 cannot age against 01/01/2023. */
  const LastOverflowing: Date := Date(1730, 9, 22)

  lemma DayNumberOfLastOverflowing()
    ensures DayNumber(LastOverflowing) == 631769
  {
    DaysBeforeYearClosedForm(1730);
    DaysBeforeMonthsCommon(1730);
  }

  lemma DayNumberOfTimestampLast()
    ensures DayNumber(TimestampLast) == 825914
  {
    DaysBeforeYearClosedForm(2262);
    DaysBeforeMonthsCommon(2262);
  }

  /**
   * Against the reference date, a birthday in the `Timestamp` range
   * overflows exactly when it is on or before 22 September 1730; the far
   * end of the range is too close to overflow.
   */
  lemma OverflowsUpTo(d: Date)
    requires ValidDate(d) && InTimestampRange(d)
    ensures Overflows(d, ReferenceDate) <==> !Before(LastOverflowing, d)
  {
    DayNumberOfReference();
    DayNumberOfLastOverflowing();
    DayNumberOfTimestampLast();
    OverflowDays(d, ReferenceDate);
    if Before(LastOverflowing, d) {
      DayNumberOrder(LastOverflowing, d);
      if d != TimestampLast {
        DayNumberOrder(d, TimestampLast);
      }
    } else if d != LastOverflowing {
      DayNumberOrder(d, LastOverflowing);
    }
  }

  /** One birthday text is aged as the date it is read as, or raises as line 125 or 127 does. */
  lemma AgeOfText(reading: Reading, s: string)
    ensures ValidDate(ReferenceDate)
    ensures CalculateAge(reading, [Str(s)], Sentinel) ==
              match Birthday(reading, Str(s))
              case None => Err(ValueError)
              case Some(d) => if Overflows(d, ReferenceDate) then Err(OverflowError) else Ok([Num(AgeOn(d))])
  {
    ReferenceInRange();
    var r := CalculateAge(reading, [Str(s)], Sentinel);
    if r.Ok? {
      assert r.value == [r.value[0]];
    }
  }

  /**
   * As written, a cleaned birthdate whose day is at most 12 is read as the
   * date with day and month exchanged, and raises or is aged as that date.
   */
  lemma AgeAsWrittenSwaps(d: Date)
    requires ValidDate(d) && d.day <= 12
    ensures ValidDate(Date(d.year, d.day, d.month)) && ValidDate(ReferenceDate)
    ensures var e := Date(d.year, d.day, d.month);
            CalculateAge(MonthFirst, [Str(FormatDMY(d))], Sentinel) ==
              if !InTimestampRange(e) then Err(ValueError)
              else if Overflows(e, ReferenceDate) then Err(OverflowError)
              else Ok([Num(AgeOn(e))])
  {
    MonthFirstSwaps(d);
    AgeOfText(MonthFirst, FormatDMY(d));
  }

  /**
   * Read day first as intended, the birthdate `birthdate_cleaner` writes
   * raises or is aged as that very date.
   */
  lemma CalculateAgeOfWritten(d: Date)
    requires ValidDate(d)
    ensures ValidDate(ReferenceDate)
    ensures CalculateAge(DayFirst, [Str(FormatDMY(d))], Sentinel) ==
              if !InTimestampRange(d) then Err(ValueError)
              else if Overflows(d, ReferenceDate) then Err(OverflowError)
              else Ok([Num(AgeOn(d))])
  {
    DMYRoundTrip(d);
    AgeOfText(DayFirst, FormatDMY(d));
  }

  /**
   * `1700-01-01` is a `Timestamp` and is cleaned to `01/01/1700`, but line
   * 127 overflows on it; `01/01/1500` is refused earlier, at line 125.
   */
  lemma OverflowExamples()
    ensures CleanBirthdate(Str("1700-01-01")) == "01/01/1700"
    ensures CalculateAge(DayFirst, [Str("01/01/1700")], Sentinel) == Err(OverflowError)
    ensures CalculateAge(DayFirst, [Str("01/01/1500")], Sentinel) == Err(ValueError)
  {
    var d, e := Date(1700, 1, 1), Date(1500, 1, 1);
    assert FormatYMD(d, '-') == "1700-01-01";
    assert FormatDMY(d) == "01/01/1700";
    assert FormatDMY(e) == "01/01/1500";
    CleanBirthdateExample(1700, 1, 1, "1700-01-01", "01/01/1700");
    OverflowsUpTo(d);
    CalculateAgeOfWritten(d);
    CalculateAgeOfWritten(e);
  }

  lemma DaysBefore1980()
    ensures DaysBeforeYear(1980) == 722814
  {
    DaysBeforeYearClosedForm(1980);
  }

  lemma DayNumbersIn1980()
    ensures DayNumber(Date(1980, 1, 12)) == 722826 && DayNumber(Date(1980, 12, 1)) == 723150
  {
    DaysBefore1980();
    DaysBeforeDecember(1980);
  }

  lemma DayNumberOfReference()
    ensures DayNumber(ReferenceDate) == 738521
  {
    DaysBeforeYearClosedForm(2023);
  }

  /** The two readings of `12/01/1980` are 43 and 42 years old on the reference date. */
  lemma AgesIn1980()
    ensures ValidDate(Date(1980, 1, 12)) && ValidDate(Date(1980, 12, 1))
    ensures AgeOn(Date(1980, 1, 12)) == 43 && AgeOn(Date(1980, 12, 1)) == 42
  {
    DayNumbersIn1980();
    DayNumberOfReference();
    assert AgeFromDays(722826 - 738521) == 43;
    assert AgeFromDays(723150 - 738521) == 42;
  }

  /**
   * 12 January 1980 is written `12/01/1980`: read day first it is 43 on
   * the reference date, read month first (1 December 1980) it is 42.
   */
  lemma AgeAsWrittenExample()
    ensures CleanBirthdate(Str("1980-01-12")) == "12/01/1980"
    ensures CalculateAge(DayFirst, [Str("12/01/1980")], Sentinel) == Ok([Num(43)])
    ensures CalculateAge(MonthFirst, [Str("12/01/1980")], Sentinel) == Ok([Num(42)])
  {
    var d := Date(1980, 1, 12);
    assert FormatYMD(d, '-') == "1980-01-12";
    assert FormatDMY(d) == "12/01/1980";
    CleanBirthdateExample(1980, 1, 12, "1980-01-12", "12/01/1980");
    CalculateAgeOfWritten(d);
    AgeAsWrittenSwaps(d);
    AgesIn1980();
    DayNumbersIn1980();
    DayNumberOfReference();
  }

  // ---------------------------------------------------------------------
  // number_cleaner

  /** `re.sub('[a-zA-ZÀ-ÿ]+', '', s)`: the letters of `s` deleted. */
  function DeleteLetters(s: string): (r: string)
    ensures |r| <= |s|
    ensures forall i :: 0 <= i < |r| ==> !IsNameLetter(r[i])
  {
    if s == [] then []
    else (if IsNameLetter(s[0]) then [] else [s[0]]) + DeleteLetters(s[1..])
  }

  lemma {:induction false} DeleteLettersAppend(a: string, b: string)
    ensures DeleteLetters(a + b) == DeleteLetters(a) + DeleteLetters(b)
  {
    if a == [] {
      assert a + b == b;
    } else {
      assert (a + b)[1..] == a[1..] + b;
      DeleteLettersAppend(a[1..], b);
    }
  }

  lemma {:induction false} DeleteLettersOfLetters(s: string)
    requires forall i :: 0 <= i < |s| ==> IsNameLetter(s[i])
    ensures DeleteLetters(s) == []
  {
    if s != [] {
      DeleteLettersOfLetters(s[1..]);
    }
  }

  lemma {:induction false} DeleteLettersOfNonLetters(s: string)
    requires forall i :: 0 <= i < |s| ==> !IsNameLetter(s[i])
    ensures DeleteLetters(s) == s
  {
    if s != [] {
      DeleteLettersOfNonLetters(s[1..]);
    }
  }

  /** Every character of `DeleteLetters(s)` comes from `s`. */
  lemma {:induction false} DeleteLettersFrom(s: string, c: char)
    requires c in DeleteLetters(s)
    ensures c in s
  {
    if s != [] && !(IsNameLetter(s[0]) && c == s[0]) {
      if c !in DeleteLetters(s[1..]) {
        assert c == s[0];
      } else {
        DeleteLettersFrom(s[1..], c);
      }
    }
  }

  /**
   * The digits of `b` read in base ten when `b` is ASCII digits with single
   * underscores between them, as `int()` accepts; `None` otherwise.
   */
  function DigitGroupsValue(b: string): Option<nat>
    decreases |b|
  {
    if b == [] || !IsDigit(b[|b| - 1]) then None
    else if |b| == 1 then Some(DigitValue(b[0]))
    else
      var p := b[..|b| - 1];
      var q := if p[|p| - 1] == '_' then p[..|p| - 1] else p;
      match DigitGroupsValue(q)
      case None => None
      case Some(v) => Some(v * 10 + DigitValue(b[|b| - 1]))
  }

  /** Whatever `int()` accepts after the sign consists of digits and underscores only. */
  lemma {:induction false} DigitGroupsChars(b: string, k: int)
    requires DigitGroupsValue(b).Some? && 0 <= k < |b|
    ensures IsDigit(b[k]) || b[k] == '_'
    decreases |b|
  {
    if k < |b| - 1 {
      var p := b[..|b| - 1];
      var q := if p[|p| - 1] == '_' then p[..|p| - 1] else p;
      if k < |q| {
        DigitGroupsChars(q, k);
      }
    }
  }

  /** Non-empty, and only digits and underscores after an optional leading sign. */
  predicate SignedDigits(t: string) {
    t != [] && forall k :: 0 <= k < |t| ==> IsDigit(t[k]) || t[k] == '_' || (k == 0 && (t[k] == '-' || t[k] == '+'))
  }

  /**
   * Python's `int(s)` on a string: surrounding whitespace allowed, an
   * optional sign, then ASCII digits with single underscores between them;
   * `None` where `int()` raises `ValueError`.
   */
  function PyInt(s: string): (r: Option<int>)
    ensures r.Some? ==> SignedDigits(Strip(s))
  {
    var t := Strip(s);
    var body := if t != [] && (t[0] == '-' || t[0] == '+') then t[1..] else t;
    match DigitGroupsValue(body)
    case None => None
    case Some(v) =>
      assert SignedDigits(t) by {
        forall k | 0 <= k < |t|
          ensures IsDigit(t[k]) || t[k] == '_' || (k == 0 && (t[k] == '-' || t[k] == '+'))
        {
          if body == t {
            DigitGroupsChars(body, k);
          } else if k > 0 {
            assert t[k] == body[k - 1];
            DigitGroupsChars(body, k - 1);
          }
        }
      }
      Some(if t[0] == '-' then -(v as int) else v)
  }

  lemma {:induction false} DigitGroupsOfDigits(d: string)
    requires d != [] && AllDigits(d)
    ensures DigitGroupsValue(d) == Some(DecimalValue(d))
    decreases |d|
  {
    if |d| > 1 {
      DigitGroupsOfDigits(d[..|d| - 1]);
    } else {
      assert d[..0] == [];
    }
  }

  /** A plain string of digits, with or without a leading minus, is read as its value. */
  lemma PyIntOfDigits(d: string)
    requires d != [] && AllDigits(d)
    ensures PyInt(d) == Some(DecimalValue(d))
    ensures PyInt("-" + d) == Some(-(DecimalValue(d) as int))
  {
    DigitGroupsOfDigits(d);
    assert Strip(d) == d by {
      assert !IsSpace(d[0]) && !IsSpace(d[|d| - 1]);
      StripTrimmed(d);
    }
    var m := "-" + d;
    assert |m| > 1 && m[0] == '-' && m[1..] == d && Strip(m) == m by {
      assert !IsSpace(m[0]) && m[|m| - 1] == d[|d| - 1];
      StripTrimmed(m);
    }
    PyIntSigned(m, d);
  }

  lemma PyIntSigned(m: string, d: string)
    requires |m| > 1 && m[0] == '-' && m[1..] == d && Strip(m) == m
    requires DigitGroupsValue(d).Some?
    ensures PyInt(m) == Some(-(DigitGroupsValue(d).value as int))
  {
  }

  /** `int(str(n))` is `n`, and `int('-' + str(n))` is `-n`. */
  lemma PyIntDecimal(n: nat)
    ensures PyInt(Decimal(n)) == Some(n)
    ensures PyInt("-" + Decimal(n)) == Some(-(n as int))
  {
    DecimalRoundTrip(n);
    PyIntOfValue(Decimal(n), n);
  }

  lemma PyIntOfValue(d: string, n: nat)
    requires d != [] && AllDigits(d) && DecimalValue(d) == n
    ensures PyInt(d) == Some(n) && PyInt("-" + d) == Some(-(n as int))
  {
    PyIntOfDigits(d);
  }

  /** A character that is neither digit, sign, underscore nor whitespace makes `int()` fail. */
  lemma PyIntRejects(s: string, c: char)
    requires c in s
    requires !IsDigit(c) && c != '+' && c != '-' && c != '_' && !IsSpace(c)
    ensures PyInt(s) == None
  {
    StripSlice(s);
    var t := Strip(s);
    var i, j :| 0 <= i <= j <= |s| && t == s[i..j]
               && (forall k :: 0 <= k < i ==> IsSpace(s[k]))
               && (forall k :: j <= k < |s| ==> IsSpace(s[k]));
    var k :| 0 <= k < |s| && s[k] == c;
    assert i <= k < j;
    assert t[k - i] == c;
  }

  /**
   * One value of `number_cleaner`: NaN is filled with `"0"`, letters are
   * deleted, the rest goes through `int()` and its absolute value is kept;
   * `ValueError` when `int()` rejects the rest, `TypeError` for a number.
   */
  function CleanNumber(c: Cell): (r: Result<nat, Error>)
    ensures c.Nan? ==> r == Ok(0)
    ensures c.Str? && PyInt(DeleteLetters(c.s)).None? <==> r == Err(ValueError)
    ensures c.Num? <==> r == Err(TypeError)
    ensures c.Str? && PyInt(DeleteLetters(c.s)).Some? ==> r == Ok(Abs(PyInt(DeleteLetters(c.s)).value))
  {
    match c
    case Num(_) => Err(TypeError)
    case Nan =>
      assert DeleteLetters("0") == Decimal(0);
      PyIntDecimal(0);
      CleanNumberText("0")
    case Str(s) => CleanNumberText(s)
  }

  /** Lines 150-152 on one string: letters deleted, then `abs(int(...))`. */
  function CleanNumberText(s: string): Result<nat, Error> {
    match PyInt(DeleteLetters(s))
    case None => Err(ValueError)
    case Some(v) => Ok(Abs(v))
  }

  /** Digits followed by letters come out as the number the digits spell. */
  lemma CleanNumberDigitsThenLetters(n: nat, letters: string)
    requires forall i :: 0 <= i < |letters| ==> IsNameLetter(letters[i])
    ensures CleanNumber(Str(Decimal(n) + letters)) == Ok(n)
  {
    var d := Decimal(n);
    DeleteLettersAppend(d, letters);
    DeleteLettersOfLetters(letters);
    DeleteLettersOfNonLetters(d);
    assert d + [] == d;
    PyIntDecimal(n);
  }

  /** The empty string and text with `$`, `,` or `.` are not integers. */
  lemma CleanNumberFailures(s: string)
    requires '$' in s || ',' in s || '.' in s
    ensures CleanNumber(Str(s)) == Err(ValueError)
  {
    var c := if '$' in s then '$' else if ',' in s then ',' else '.';
    DeleteLettersKeeps(s, c);
    PyIntRejects(DeleteLetters(s), c);
  }

  /** An empty string, such as the blank written by the row-29 patch, is not an integer. */
  lemma CleanNumberEmpty()
    ensures CleanNumber(Str("")) == Err(ValueError)
  {
  }

  lemma {:induction false} DeleteLettersKeeps(s: string, c: char)
    requires c in s && !IsNameLetter(c)
    ensures c in DeleteLetters(s)
  {
    if s[0] != c {
      assert c in s[1..];
      DeleteLettersKeeps(s[1..], c);
    }
  }

  lemma CleanNumberExample(n: nat, text: string, letters: string)
    requires forall i :: 0 <= i < |letters| ==> IsNameLetter(letters[i])
    requires text == Decimal(n) + letters
    ensures CleanNumber(Str(text)) == Ok(n)
  {
    CleanNumberDigitsThenLetters(n, letters);
  }

  lemma CleanNumberExample39400()
    ensures CleanNumber(Str("39400abc")) == Ok(39400)
  {
    assert Decimal(39400) == "39400";
    CleanNumberExample(39400, "39400abc", "abc");
  }

  lemma CleanNumberExample75000()
    ensures CleanNumber(Str("75000xyz")) == Ok(75000)
  {
    assert Decimal(75000) == "75000";
    CleanNumberExample(75000, "75000xyz", "xyz");
  }

  lemma CleanNumberExample10000()
    ensures CleanNumber(Str("10000")) == Ok(10000)
  {
    assert Decimal(10000) == "10000";
    assert "10000" + "" == "10000";
    CleanNumberExample(10000, "10000", "");
  }

  /** `Series.fillna(value)`: every NaN replaced, every other cell kept. */
  function FillNa(col: seq<Cell>, value: Cell): (r: seq<Cell>)
    ensures |r| == |col|
    ensures forall i :: 0 <= i < |col| ==> r[i] == if col[i].Nan? then value else col[i]
  {
    seq(|col|, i requires 0 <= i < |col| => if col[i].Nan? then value else col[i])
  }

  /** Line 150 on one cell: `re.sub` deletes the letters of a string and raises `TypeError` on anything else. */
  function DeleteLettersCell(c: Cell): (r: Result<Cell, Error>)
    ensures r.Ok? <==> c.Str?
    ensures r.Ok? ==> r.value == Str(DeleteLetters(c.s))
    ensures r.Err? ==> r.error == TypeError
  {
    if c.Str? then Ok(Str(DeleteLetters(c.s))) else Err(TypeError)
  }

  /**
   * Line 152 on one cell: `abs(int(x))`. A string goes through Python's
   * `int()`, an integer is kept, and NaN cannot be converted.
   */
  function IntCell(c: Cell): (r: Result<Cell, Error>)
    ensures c.Str? ==> r == if PyInt(c.s).Some? then Ok(Num(Abs(PyInt(c.s).value))) else Err(ValueError)
    ensures c.Num? ==> r == Ok(Num(Abs(c.n)))
    ensures c.Nan? ==> r == Err(ValueError)
  {
    match c
    case Str(s) => (match PyInt(s) case None => Err(ValueError) case Some(v) => Ok(Num(Abs(v))))
    case Num(n) => Ok(Num(Abs(n)))
    case Nan => Err(ValueError)
  }

  /** The two passes on a cell that is not a number give what `CleanNumber` gives. */
  lemma NumberPasses(c: Cell)
    requires !c.Num?
    ensures var filled := if c.Nan? then Str("0") else c;
            && DeleteLettersCell(filled).Ok?
            && IntCell(DeleteLettersCell(filled).value)
               == match CleanNumber(c) case Ok(v) => Ok(Num(v)) case Err(e) => Err(e)
  {
  }

  /**
   * `number_cleaner` (lines 148-152) on a column: NaN filled with `"0"`,
   * then the letters deleted from every cell, then `abs(int(...))` of every
   * cell. The first pass meets any number before the second pass runs, so
   * a number anywhere raises `TypeError`; otherwise the error is the
   * `ValueError` of a cell `int()` rejects.
   */
  function NumberCleaner(col: seq<Cell>): (r: Result<seq<Cell>, Error>)
    ensures r.Ok? <==> forall i :: 0 <= i < |col| ==> CleanNumber(col[i]).Ok?
    ensures r.Ok? ==> |r.value| == |col|
                      && forall i :: 0 <= i < |col| ==> r.value[i] == Num(CleanNumber(col[i]).value)
    ensures r == Err(TypeError) <==> exists i :: 0 <= i < |col| && col[i].Num?
    ensures r == Err(ValueError) <==> (forall i :: 0 <= i < |col| ==> !col[i].Num?)
                                      && exists i :: 0 <= i < |col| && CleanNumber(col[i]) == Err(ValueError)
  {
    var filled := FillNa(col, Str("0"));
    var stripped :- TryMap(DeleteLettersCell, filled);
    forall i | 0 <= i < |col|
      ensures IntCell(stripped[i]) == match CleanNumber(col[i]) case Ok(v) => Ok(Num(v)) case Err(e) => Err(e)
    {
      NumberPasses(col[i]);
    }
    TryMap(IntCell, stripped)
  }

  // ---------------------------------------------------------------------
  // salaryBucketer

  /** The salary band; the four cases are disjoint and cover every integer. */
  function SalaryBucket(salary: int): (b: string)
    ensures b == "A" <==> 0 < salary < 50000
    ensures b == "B" <==> 50000 <= salary <= 100000
    ensures b == "C" <==> salary > 100000
    ensures b == "" <==> salary <= 0
  {
    if 0 < salary < 50000 then "A"
    else if 50000 <= salary <= 100000 then "B"
    else if salary > 100000 then "C"
    else ""
  }

  function BucketRank(b: string): int {
    if b == "A" then 1 else if b == "B" then 2 else if b == "C" then 3 else 0
  }

  /** A higher salary never lands in a lower band. */
  lemma SalaryBucketMonotone(s1: int, s2: int)
    requires s1 <= s2
    ensures BucketRank(SalaryBucket(s1)) <= BucketRank(SalaryBucket(s2))
  {
  }

  lemma SalaryBucketExamples()
    ensures SalaryBucket(0) == "" && SalaryBucket(25000) == "A"
    ensures SalaryBucket(50000) == "B" && SalaryBucket(100000) == "B"
    ensures SalaryBucket(100001) == "C"
  {
  }

  /**
   * `salaryBucketer` on a row's salary cell: an integer is bucketed, NaN
   * fails every comparison and gets `""`, a string cannot be compared with 0.
   */
  function SalaryBucketCell(c: Cell): (r: Result<Cell, Error>)
    ensures r.Ok? <==> !c.Str?
    ensures c.Num? ==> r == Ok(Str(SalaryBucket(c.n)))
    ensures c.Nan? ==> r == Ok(Str(""))
  {
    match c
    case Num(n) => Ok(Str(SalaryBucket(n)))
    case Nan => Ok(Str(""))
    case Str(_) => Err(TypeError)
  }
}
