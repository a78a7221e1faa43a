/**
 * `filter_by_date_and_description` of the delete/merge flow: normalise the
 * `end_date` parameter to an 8-digit YYYYMMDD string, take the window from
 * the first of that month to that date, and keep, in input order, the
 * blacklist entries whose file name carries a date in the window and whose
 * description contains the delete text, ignoring case.
 */
module DateFilter {
  import opened Common
  import opened Strings

  /** A blacklist entry as the search endpoint lists it; a missing field is None. */
  datatype Entry = Entry(index: int, fileName: Option<string>, description: Option<string>)

  // ---------------------------------------------------------------------
  // The ISO form: datetime.strptime(s, "%Y-%m-%d").strftime("%Y%m%d")
  // ---------------------------------------------------------------------

  datatype Date = Date(year: nat, month: nat, day: nat)

  predicate IsLeapYear(y: nat) {
    y % 4 == 0 && (y % 100 != 0 || y % 400 == 0)
  }

  function DaysInMonth(y: nat, m: nat): nat
    requires 1 <= m <= 12
  {
    if m == 2 then (if IsLeapYear(y) then 29 else 28)
    else if m == 4 || m == 6 || m == 9 || m == 11 then 30
    else 31
  }

  /** A date of the proleptic Gregorian calendar that `datetime` accepts. */
  predicate ValidDate(d: Date) {
    1 <= d.year <= 9999 && 1 <= d.month <= 12 && 1 <= d.day <= DaysInMonth(d.year, d.month)
  }

  /** `s.split(sep)`: the pieces between separators, in order. */
  function Split(s: string, sep: char): (parts: seq<string>)
    ensures |parts| >= 1
  {
    if s == [] then [""]
    else
      var rest := Split(s[1..], sep);
      if s[0] == sep then [""] + rest else [[s[0]] + rest[0]] + rest[1..]
  }

  /** A `%m` or `%d` field: one or two digits. */
  predicate ShortField(f: string) {
    1 <= |f| <= 2 && AllDigits(f)
  }

  /**
   * What `strptime(s, "%Y-%m-%d")` accepts: a 4-digit year, a 1- or 2-digit
   * month and day separated by '-', and nothing else, naming a real date.
   */
  function ParseIso(s: string): (r: Option<Date>)
    ensures r.Some? ==> ValidDate(r.value)
  {
    var parts := Split(s, '-');
    if |parts| == 3 && |parts[0]| == 4 && AllDigits(parts[0]) && ShortField(parts[1]) && ShortField(parts[2]) then
      var d := Date(Value(parts[0]), Value(parts[1]), Value(parts[2]));
      if ValidDate(d) then Some(d) else None
    else None
  }

  /** A digit character. */
  /** A piece with no separator splits into itself. */
  lemma {:induction false} SplitWithoutSep(a: string, sep: char)
    requires sep !in a
    ensures Split(a, sep) == [a]
  {
    if a != [] {
      SplitWithoutSep(a[1..], sep);
      assert [a[0]] + a[1..] == a;
    }
  }

  /** A separator after a separator-free piece ends that piece. */
  lemma {:induction false} SplitAfterPiece(a: string, sep: char, rest: string)
    requires sep !in a
    ensures Split(a + [sep] + rest, sep) == [a] + Split(rest, sep)
  {
    var s := a + [sep] + rest;
    if a == [] {
      assert s[0] == sep && s[1..] == rest;
    } else {
      assert s[0] == a[0] && s[1..] == a[1..] + [sep] + rest;
      SplitAfterPiece(a[1..], sep, rest);
      assert [a[0]] + a[1..] == a;
    }
  }

  /**
   * Every well-formed ISO text of a real date is accepted, as the date its
   * fields name.
   */
  lemma ParseIsoAccepts(y: string, m: string, d: string)
    requires |y| == 4 && AllDigits(y) && ShortField(m) && ShortField(d)
    requires ValidDate(Date(Value(y), Value(m), Value(d)))
    ensures ParseIso(y + "-" + m + "-" + d) == Some(Date(Value(y), Value(m), Value(d)))
  {
    assert '-' !in y && '-' !in m && '-' !in d;
    SplitWithoutSep(d, '-');
    SplitAfterPiece(m, '-', d);
    assert y + "-" + m + "-" + d == y + ['-'] + (m + ['-'] + d);
    SplitAfterPiece(y, '-', m + ['-'] + d);
  }

  function DigitChar(n: nat): (c: char)
    requires n < 10
    ensures IsDigit(c) && DigitValue(c) == n
  {
    ('0' as int + n) as char
  }

  /** n written with exactly `width` digits, zero-padded on the left. */
  function Pad(n: nat, width: nat): (s: string)
    requires n < Pow10(width)
    ensures |s| == width && AllDigits(s) && Value(s) == n
  {
    if width == 0 then ""
    else
      DivModTen(n, Pow10(width - 1));
      var init := Pad(n / 10, width - 1);
      var last := [DigitChar(n % 10)];
      ValueAppend(init, last);
      assert last[1..] == [];
      init + last
  }

  /** `strftime("%Y%m%d")` of a valid date. */
  function FormatDate(d: Date): (s: string)
    requires ValidDate(d)
  {
    Pad(d.year, 4) + Pad(d.month, 2) + Pad(d.day, 2)
  }

  /** The compact form reads back as the same year, month and day. */
  lemma FormatDateRoundTrip(d: Date)
    requires ValidDate(d)
    ensures var s := FormatDate(d);
      |s| == 8 && AllDigits(s) &&
      Value(s[..4]) == d.year && Value(s[4..6]) == d.month && Value(s[6..]) == d.day
  {
    var s := FormatDate(d);
    assert s[..4] == Pad(d.year, 4);
    assert s[4..6] == Pad(d.month, 2);
    assert s[6..] == Pad(d.day, 2);
  }

  // ---------------------------------------------------------------------
  // end_date normalisation and the window
  // ---------------------------------------------------------------------

  /**
   * The `end_date` normalisation: an ISO date is reformatted, six digits get
   * the prefix "20", eight digits pass through, and anything else is
   * rejected. Any accepted input gives eight digits.
   */
  function NormalizeEndDate(s: string): (r: Result<string>)
    ensures r.Ok? ==> |r.value| == 8 && AllDigits(r.value)
  {
    if '-' in s then
      match ParseIso(s)
      case Some(d) => Ok(FormatDate(d))
      case None => Err(EndDateUnparsable(s))
    else if |s| == 6 && AllDigits(s) then
      assert AllDigits("20" + s) by {
        assert forall i :: 2 <= i < 8 ==> ("20" + s)[i] == s[i - 2];
      }
      Ok("20" + s)
    else if |s| == 8 && AllDigits(s) then Ok(s)
    else Err(InvalidEndDate(s))
  }

  /** Which inputs are accepted, and what each accepted form becomes. */
  lemma NormalizeEndDateForms(s: string)
    ensures NormalizeEndDate(s).Ok? <==>
      if '-' in s then ParseIso(s).Some? else AllDigits(s) && (|s| == 6 || |s| == 8)
    ensures '-' !in s && |s| == 6 && AllDigits(s) ==> NormalizeEndDate(s) == Ok("20" + s)
    ensures '-' !in s && |s| == 8 && AllDigits(s) ==> NormalizeEndDate(s) == Ok(s)
    ensures '-' in s && ParseIso(s).Some? ==>
      var r := NormalizeEndDate(s).value; var d := ParseIso(s).value;
      Value(r[..4]) == d.year && Value(r[4..6]) == d.month && Value(r[6..]) == d.day
    ensures NormalizeEndDate(s).Err? ==>
      NormalizeEndDate(s).error == if '-' in s then EndDateUnparsable(s) else InvalidEndDate(s)
  {
    if '-' in s && ParseIso(s).Some? {
      FormatDateRoundTrip(ParseIso(s).value);
    }
  }

  /** The fields of the example date "2024-1-20". */
  lemma ExampleFieldValues()
    ensures Value("2024") == 2024 && Value("1") == 1 && Value("20") == 20
  {
    assert Value("4") == 4 && Value("24") == 24 && Value("024") == 24;
    assert Value("0") == 0;
  }

  /** A one-digit month is accepted in the ISO form. */
  lemma ParseIsoExample()
    ensures ParseIso("2024-1-20") == Some(Date(2024, 1, 20))
  {
    ExampleFieldValues();
    ParseIsoAccepts("2024", "1", "20");
    assert "2024" + "-" + "1" + "-" + "20" == "2024-1-20";
  }

  /** The padded year of the example date. */
  lemma PadYearExample()
    ensures Pad(2024, 4) == "2024"
  {
    assert Pad(2, 1) == "2" && Pad(20, 2) == "20" && Pad(202, 3) == "202";
  }

  /** The padded month and day of the example date. */
  lemma PadMonthDayExample()
    ensures Pad(1, 2) == "01" && Pad(20, 2) == "20"
  {
    assert Pad(0, 1) == "0" && Pad(2, 1) == "2";
  }

  /** The compact form pads the month and day to two digits. */
  lemma FormatDateExample()
    ensures FormatDate(Date(2024, 1, 20)) == "20240120"
  {
    PadYearExample();
    PadMonthDayExample();
    assert "2024" + "01" + "20" == "20240120";
  }

  /** "2024-1-20" normalises to "20240120". */
  lemma NormalizeEndDateExample()
    ensures NormalizeEndDate("2024-1-20") == Ok("20240120")
  {
    ParseIsoExample();
    FormatDateExample();
  }

  /** `s[:6] + "01"`: the first day of the end date's month. */
  function WindowStart(end: string): (start: string)
    requires |end| >= 6
  {
    end[..6] + "01"
  }

  /** A date string lies in [start, end], compared as Python compares strings. */
  predicate InWindow(date: string, start: string, end: string) {
    LexLe(start, date) && LexLe(date, end)
  }

  /** An 8-digit string is its first six digits times 100 plus its last two. */
  lemma SplitAtDay(s: string)
    requires |s| == 8 && AllDigits(s)
    ensures Value(s) == Value(s[..6]) * 100 + Value(s[6..])
    ensures Value(s[6..]) < 100
  {
    assert s == s[..6] + s[6..];
    ValueAppend(s[..6], s[6..]);
    assert Pow10(2) == 100;
  }

  /**
   * For an 8-digit end date, an 8-digit date is in the window exactly when
   * it has the same year and month and a day from 1 to the end's day.
   */
  lemma WindowIsMonthToDate(date: string, end: string)
    requires |date| == 8 && AllDigits(date) && |end| == 8 && AllDigits(end)
    ensures InWindow(date, WindowStart(end), end) <==>
      Value(date[..6]) == Value(end[..6]) && 1 <= Value(date[6..]) <= Value(end[6..])
  {
    var start := WindowStart(end);
    WindowStartDigits(end);
    LexLeIsNumericOrder(start, date);
    LexLeIsNumericOrder(date, end);
    SplitAtDay(date);
    SplitAtDay(end);
    SplitAtDay(start);
    WindowArithmetic(Value(date[..6]), Value(date[6..]), Value(end[..6]), Value(end[6..]));
  }

  /** The window's start is the end's year and month with day "01". */
  lemma WindowStartDigits(end: string)
    requires |end| == 8 && AllDigits(end)
    ensures var start := WindowStart(end);
      |start| == 8 && AllDigits(start) && start[..6] == end[..6] && Value(start[6..]) == 1
  {
    var start := WindowStart(end);
    assert forall i :: 0 <= i < 8 ==> start[i] == if i < 6 then end[i] else "01"[i - 6];
    assert start[..6] == end[..6] && start[6..] == "01";
    assert "01"[1..] == "1" && "1"[1..] == "";
  }

  lemma WindowArithmetic(dm: nat, dd: nat, em: nat, ed: nat)
    requires dd < 100 && ed < 100
    ensures (em * 100 + 1 <= dm * 100 + dd <= em * 100 + ed) <==> (dm == em && 1 <= dd <= ed)
  {
  }

  /**
   * The window is non-empty (start <= end) exactly when the end day is not
   * "00".
   */
  lemma StartNotAfterEnd(end: string)
    requires |end| == 8 && AllDigits(end)
    ensures LexLe(WindowStart(end), end) <==> 1 <= Value(end[6..])
    ensures LexLe(WindowStart(end), end) <==> end[6..] != "00"
  {
    WindowIsMonthToDate(end, end);
    LexLeIsNumericOrder(end, end);
    ValueZeroIff(end[6..]);
    assert end[6..] == "00" <==> forall i :: 0 <= i < 2 ==> end[6..][i] == '0';
  }

  /** Every date the ISO branch produces has a day of at least 1, so its window is non-empty. */
  lemma IsoWindowNonEmpty(s: string)
    requires '-' in s && ParseIso(s).Some?
    ensures var end := NormalizeEndDate(s).value; LexLe(WindowStart(end), end)
  {
    NormalizeEndDateForms(s);
    StartNotAfterEnd(NormalizeEndDate(s).value);
  }

  // ---------------------------------------------------------------------
  // The date in a file name: re.search(r"(\d{8})", fn)
  // ---------------------------------------------------------------------

  /** Eight digits start at position i. */
  predicate DateRunAt(s: string, i: int) {
    0 <= i && i + 8 <= |s| && AllDigits(s[i..i + 8])
  }

  /** The leftmost 8-digit run at or after position i. */
  function FirstDateRunFrom(s: string, i: nat): (r: Option<nat>)
    ensures r.Some? ==> i <= r.value && DateRunAt(s, r.value)
    ensures r.Some? ==> forall j :: i <= j < r.value ==> !DateRunAt(s, j)
    ensures r.None? ==> forall j :: i <= j ==> !DateRunAt(s, j)
    decreases |s| - i
  {
    if i + 8 > |s| then None
    else if AllDigits(s[i..i + 8]) then Some(i)
    else FirstDateRunFrom(s, i + 1)
  }

  /** The first 8-digit run of a file name, as `m.group(1)`; None when there is none. */
  function FirstDateRun(s: string): (r: Option<string>)
    ensures r.Some? ==> |r.value| == 8 && AllDigits(r.value)
    ensures r.Some? ==> exists i :: DateRunAt(s, i) && r.value == s[i..i + 8] && forall j :: 0 <= j < i ==> !DateRunAt(s, j)
    ensures r.None? <==> forall j :: !DateRunAt(s, j)
  {
    match FirstDateRunFrom(s, 0)
    case Some(i) => Some(s[i..i + 8])
    case None => None
  }

  // ---------------------------------------------------------------------
  // The filter
  // ---------------------------------------------------------------------

  /** `fn or ""` and `desc or ""`. */
  function TextOr(field: Option<string>): string {
    field.GetOr("")
  }

  /** The three checks the loop body makes, in the order it makes them. */
  predicate Keep(e: Entry, start: string, end: string, deleteDescription: string) {
    match FirstDateRun(TextOr(e.fileName))
    case None => false
    case Some(date) =>
      InWindow(date, start, end) && Contains(Lower(TextOr(e.description)), Lower(deleteDescription))
  }

  /** The entries of xs that Keep accepts, in input order. */
  function Filtered(xs: seq<Entry>, start: string, end: string, deleteDescription: string): seq<Entry> {
    if xs == [] then []
    else
      var last := xs[|xs| - 1];
      Filtered(xs[..|xs| - 1], start, end, deleteDescription) + if Keep(last, start, end, deleteDescription) then [last] else []
  }

  /** What the whole function returns: the filtered entries, or the error normalisation raised. */
  function FilterSpec(results: seq<Entry>, endDate: string, deleteDescription: string): Result<seq<Entry>> {
    match NormalizeEndDate(endDate)
    case Err(e) => Err(e)
    case Ok(end) => Ok(Filtered(results, WindowStart(end), end, deleteDescription))
  }

  method FilterByDateAndDescription(results: seq<Entry>, endDate: string, deleteDescription: string)
    returns (r: Result<seq<Entry>>)
    ensures r == FilterSpec(results, endDate, deleteDescription)
  {
    var normalized := NormalizeEndDate(endDate);
    if normalized.Err? {
      return Err(normalized.error);
    }
    var end := normalized.value;
    var start := WindowStart(end);
    var matched := [];
    for i := 0 to |results|
      invariant matched == Filtered(results[..i], start, end, deleteDescription)
    {
      assert results[..i + 1][..i] == results[..i];
      var item := results[i];
      var fileDate := FirstDateRun(TextOr(item.fileName));
      if fileDate.None? {
        continue;
      }
      if !(LexLe(start, fileDate.value) && LexLe(fileDate.value, end)) {
        continue;
      }
      if !Contains(Lower(TextOr(item.description)), Lower(deleteDescription)) {
        continue;
      }
      matched := matched + [item];
    }
    assert results[..|results|] == results;
    r := Ok(matched);
  }

  /** a is a subsequence of b: b with some elements dropped, order kept. */
  predicate IsSubsequence<T(==)>(a: seq<T>, b: seq<T>) {
    if a == [] then true
    else if b == [] then false
    else if a[|a| - 1] == b[|b| - 1] then IsSubsequence(a[..|a| - 1], b[..|b| - 1])
    else IsSubsequence(a, b[..|b| - 1])
  }

  /** Every kept entry comes from the input and passes all three checks. */
  lemma {:induction false} FilteredSound(xs: seq<Entry>, start: string, end: string, needle: string)
    ensures forall e :: e in Filtered(xs, start, end, needle) ==> e in xs && Keep(e, start, end, needle)
  {
    if xs != [] {
      FilteredSound(xs[..|xs| - 1], start, end, needle);
    }
  }

  /** Every entry that passes all three checks is kept. */
  lemma {:induction false} FilteredComplete(xs: seq<Entry>, start: string, end: string, needle: string)
    ensures forall e :: e in xs && Keep(e, start, end, needle) ==> e in Filtered(xs, start, end, needle)
  {
    if xs != [] {
      FilteredComplete(xs[..|xs| - 1], start, end, needle);
      assert xs == xs[..|xs| - 1] + [xs[|xs| - 1]];
    }
  }

  /** When no entry passes the checks, nothing is kept. */
  lemma {:induction false} FilteredNoneKept(xs: seq<Entry>, start: string, end: string, needle: string)
    requires forall e :: e in xs ==> !Keep(e, start, end, needle)
    ensures Filtered(xs, start, end, needle) == []
  {
    if xs != [] {
      FilteredNoneKept(xs[..|xs| - 1], start, end, needle);
      assert xs[|xs| - 1] in xs;
    }
  }

  /** The kept entries appear in the order they had in the input. */
  lemma {:induction false} FilteredKeepsOrder(xs: seq<Entry>, start: string, end: string, needle: string)
    ensures IsSubsequence(Filtered(xs, start, end, needle), xs)
  {
    if xs != [] {
      var init, last := xs[..|xs| - 1], xs[|xs| - 1];
      FilteredKeepsOrder(init, start, end, needle);
      var f := Filtered(init, start, end, needle);
      if Keep(last, start, end, needle) {
        assert (f + [last])[..|f|] == f;
      } else if f != [] {
        FilteredSound(init, start, end, needle);
        assert f[|f| - 1] in f;
        assert Filtered(xs, start, end, needle) == f;
        assert f[|f| - 1] != last;
      }
    }
  }

  /** An empty delete text matches every description: only the date decides. */
  lemma EmptyDescriptionMatchesAll(e: Entry, start: string, end: string)
    ensures Keep(e, start, end, "") <==>
      FirstDateRun(TextOr(e.fileName)).Some? && InWindow(FirstDateRun(TextOr(e.fileName)).value, start, end)
  {
    EmptyIsContained(Lower(TextOr(e.description)));
  }

  /**
   * Case is ignored on both sides of the description match: two entries
   * with the same file name whose descriptions differ only in case, tested
   * against delete texts that differ only in case, are kept alike.
   */
  lemma DescriptionMatchIgnoresCase(e: Entry, e': Entry, start: string, end: string, needle: string, needle': string)
    requires e.fileName == e'.fileName && Lower(TextOr(e.description)) == Lower(TextOr(e'.description))
    requires Lower(needle) == Lower(needle')
    ensures Keep(e, start, end, needle) <==> Keep(e', start, end, needle')
  {
  }

  /**
   * Against the window of an 8-digit end date, an entry is kept exactly
   * when the first 8-digit run of its file name falls in the end date's
   * year and month on a day from 1 to the end's day, and its description
   * contains the delete text, ignoring case.
   */
  lemma KeepIsMonthToDate(e: Entry, end: string, needle: string)
    requires |end| == 8 && AllDigits(end)
    ensures Keep(e, WindowStart(end), end, needle) <==>
      var date := FirstDateRun(TextOr(e.fileName));
      && date.Some?
      && Value(date.value[..6]) == Value(end[..6]) && 1 <= Value(date.value[6..]) <= Value(end[6..])
      && Contains(Lower(TextOr(e.description)), Lower(needle))
  {
    var date := FirstDateRun(TextOr(e.fileName));
    if date.Some? {
      WindowIsMonthToDate(date.value, end);
    }
  }
}
