/**
 * The three input validators of the booking dialogue (app.py:126-142).
 *
 * Each one is given twice: as a reference grammar (a ghost predicate saying how
 * an accepted string is laid out) and as a computed check, and the two are
 * proved to agree on every string.
 */
module Validators {

  import opened Wrappers
  import opened Text

  predicate IsDigit(c: char) {
    '0' <= c <= '9'
  }

  function DigitValue(c: char): int
    requires IsDigit(c)
  {
    c as int - '0' as int
  }

  function Digit(n: int): (c: char)
    requires 0 <= n <= 9
    ensures IsDigit(c) && DigitValue(c) == n
  {
    ('0' as int + n) as char
  }

  /** The decimal value of a string of digits. */
  function NumberValue(t: string): int
    requires All(t, IsDigit)
  {
    if t == [] then 0 else NumberValue(t[..|t| - 1]) * 10 + DigitValue(t[|t| - 1])
  }

  /** The regular-expression class `\w` restricted to ASCII. */
  predicate IsWordChar(c: char) {
    ('a' <= c <= 'z') || ('A' <= c <= 'Z') || IsDigit(c) || c == '_'
  }

  /** The class `[\w.-]` used for both sides of the '@'. */
  predicate IsAddressChar(c: char) {
    IsWordChar(c) || c == '.' || c == '-'
  }

  // ---------------------------------------------------------------------------
  // Email (app.py:126-128)
  // ---------------------------------------------------------------------------

  /**
   * `s` is `local@domain.tld` with the '@' at `at` and the dot before the
   * top-level part at `dot`: a non-empty run of address characters, '@', a
   * non-empty run of address characters, '.', a non-empty run of word characters.
   */
  predicate EmailSplit(s: string, at: int, dot: int) {
    && 1 <= at && at + 2 <= dot && dot + 2 <= |s|
    && s[at] == '@' && s[dot] == '.'
    && All(s[..at], IsAddressChar)
    && All(s[at + 1..dot], IsAddressChar)
    && All(s[dot + 1..], IsWordChar)
  }

  ghost predicate EmailShape(s: string) {
    exists at, dot :: EmailSplit(s, at, dot)
  }

  /**
   * What `re.match` with the anchored email pattern accepts: Python's `$` also
   * matches just before one final newline.
   */
  ghost predicate EmailPatternMatches(s: string) {
    || EmailShape(s)
    || (|s| > 0 && s[|s| - 1] == '\n' && EmailShape(s[..|s| - 1]))
  }

  /** The only split worth trying: the first '@', and the last '.' after it. */
  function EmailCandidate(s: string): (r: Option<(int, int)>)
    ensures r.Some? ==> 0 <= r.value.0 < r.value.1 < |s|
  {
    match FirstIndex(s, '@')
    case None => None
    case Some(at) =>
      match LastIndex(s[at + 1..], '.')
      case None => None
      case Some(d) => Some((at, at + 1 + d))
  }

  /** Decides `EmailShape` by checking the candidate split only. */
  function HasEmailShape(s: string): (r: bool)
    ensures r <==> EmailShape(s)
  {
    EmailShapeAtCandidate(s);
    match EmailCandidate(s)
    case None => false
    case Some(split) => EmailSplit(s, split.0, split.1)
  }

  lemma EmailShapeAtCandidate(s: string)
    ensures EmailShape(s) ==> EmailCandidate(s).Some? && EmailSplit(s, EmailCandidate(s).value.0, EmailCandidate(s).value.1)
  {
    if EmailShape(s) {
      var at, dot :| EmailSplit(s, at, dot);
      EmailSplitFound(s, at, dot);
    }
  }

  /** Any split of an accepted address is the candidate split. */
  lemma EmailSplitFound(s: string, at: int, dot: int)
    requires EmailSplit(s, at, dot)
    ensures EmailCandidate(s) == Some((at, dot))
  {
    FirstAtFound(s, at, dot);
    LastDotFound(s, at, dot);
    EmailCandidateAt(s, at, dot - at - 1);
  }

  lemma EmailCandidateAt(s: string, at: nat, d: nat)
    requires FirstIndex(s, '@') == Some(at) && LastIndex(s[at + 1..], '.') == Some(d)
    ensures EmailCandidate(s) == Some((at, at + 1 + d))
  {
  }

  /** The '@' of a split is the first one: the local part has none. */
  lemma FirstAtFound(s: string, at: int, dot: int)
    requires EmailSplit(s, at, dot)
    ensures FirstIndex(s, '@') == Some(at)
  {
    forall k | 0 <= k < at
      ensures s[k] != '@'
    {
      assert s[..at][k] == s[k];
    }
  }

  /** The '.' of a split is the last one after the '@': the top-level part has none. */
  lemma LastDotFound(s: string, at: int, dot: int)
    requires EmailSplit(s, at, dot)
    ensures LastIndex(s[at + 1..], '.') == Some(dot - at - 1)
  {
    var domain := s[at + 1..];
    var d := dot - at - 1;
    assert domain[d] == '.';
    forall k | d < k < |domain|
      ensures domain[k] != '.'
    {
      assert domain[k] == s[dot + 1..][k - d - 1];
    }
  }

  /** An accepted address ends in a word character, never in a newline. */
  lemma EmailEndsInWordChar(s: string)
    ensures EmailShape(s) ==> IsWordChar(s[|s| - 1])
  {
    if EmailShape(s) {
      var at, dot :| EmailSplit(s, at, dot);
      assert s[dot + 1..][|s| - dot - 2] == s[|s| - 1];
    }
  }

  /** `is_valid_email`: the email pattern matches. */
  function IsValidEmail(s: string): (ok: bool)
    ensures ok <==> EmailPatternMatches(s)
  {
    EmailEndsInWordChar(s);
    if |s| > 0 && s[|s| - 1] == '\n' then HasEmailShape(s[..|s| - 1]) else HasEmailShape(s)
  }

  // ---------------------------------------------------------------------------
  // Numeric fields of strptime
  // ---------------------------------------------------------------------------

  /**
   * `t` is a spelling of `n` that one of strptime's numeric directives accepts
   * for a value between `lo` and `hi`: one or two digits (so both `7` and `07`),
   * or, when `spacePadded` (the `%d` and `%I` directives), a space followed by
   * one digit.
   */
  predicate FieldSpelling(t: string, n: int, lo: int, hi: int, spacePadded: bool) {
    && lo <= n <= hi
    && (|| (1 <= |t| <= 2 && All(t, IsDigit) && NumberValue(t) == n)
        || (spacePadded && |t| == 2 && t[0] == ' ' && IsDigit(t[1]) && DigitValue(t[1]) == n))
  }

  /** Reads a numeric field; the value is the one `t` spells. */
  function ReadField(t: string, lo: int, hi: int, spacePadded: bool): (r: Option<int>)
    ensures forall n :: r == Some(n) <==> FieldSpelling(t, n, lo, hi, spacePadded)
  {
    var v :=
      if 1 <= |t| <= 2 && All(t, IsDigit) then Some(NumberValue(t))
      else if spacePadded && |t| == 2 && t[0] == ' ' && IsDigit(t[1]) then Some(DigitValue(t[1]))
      else None;
    if v.Some? && lo <= v.value <= hi then v else None
  }

  /** The two-digit, zero-padded spelling of `n`. */
  function TwoDigits(n: int): (t: string)
    requires 0 <= n <= 99
    ensures |t| == 2 && All(t, IsDigit) && NumberValue(t) == n
  {
    var t := [Digit(n / 10), Digit(n % 10)];
    assert t[..1] == [Digit(n / 10)];
    assert t[..1][..0] == [];
    assert NumberValue(t[..1]) == n / 10;
    t
  }

  // ---------------------------------------------------------------------------
  // The directives' own patterns, from CPython 3.12's `_strptime`
  // ---------------------------------------------------------------------------

  predicate IsNonZeroDigit(c: char) {
    '1' <= c <= '9'
  }

  /** `%m`: `1[0-2]|0[1-9]|[1-9]`. */
  predicate MonthPattern(t: string) {
    || (|t| == 2 && t[0] == '1' && '0' <= t[1] <= '2')
    || (|t| == 2 && t[0] == '0' && IsNonZeroDigit(t[1]))
    || (|t| == 1 && IsNonZeroDigit(t[0]))
  }

  /** `%d`: `3[01]|[12]\d|0[1-9]|[1-9]| [1-9]`. */
  predicate DayPattern(t: string) {
    || (|t| == 2 && t[0] == '3' && '0' <= t[1] <= '1')
    || (|t| == 2 && '1' <= t[0] <= '2' && IsDigit(t[1]))
    || (|t| == 2 && t[0] == '0' && IsNonZeroDigit(t[1]))
    || (|t| == 1 && IsNonZeroDigit(t[0]))
    || (|t| == 2 && t[0] == ' ' && IsNonZeroDigit(t[1]))
  }

  /** `%I`: `1[0-2]|0[1-9]|[1-9]| [1-9]`. */
  predicate HourPattern(t: string) {
    || (|t| == 2 && t[0] == '1' && '0' <= t[1] <= '2')
    || (|t| == 2 && t[0] == '0' && IsNonZeroDigit(t[1]))
    || (|t| == 1 && IsNonZeroDigit(t[0]))
    || (|t| == 2 && t[0] == ' ' && IsNonZeroDigit(t[1]))
  }

  /** `%M`: `[0-5]\d|\d`. */
  predicate MinutePattern(t: string) {
    || (|t| == 2 && '0' <= t[0] <= '5' && IsDigit(t[1]))
    || (|t| == 1 && IsDigit(t[0]))
  }

  /** The value of a one- or two-character field, digit by digit. */
  lemma FieldValue(t: string, lo: int, hi: int, spacePadded: bool)
    ensures ReadField(t, lo, hi, spacePadded).Some? <==>
      || (|t| == 1 && IsDigit(t[0]) && lo <= DigitValue(t[0]) <= hi)
      || (|t| == 2 && IsDigit(t[0]) && IsDigit(t[1]) && lo <= 10 * DigitValue(t[0]) + DigitValue(t[1]) <= hi)
      || (spacePadded && |t| == 2 && t[0] == ' ' && IsDigit(t[1]) && lo <= DigitValue(t[1]) <= hi)
  {
    if 1 <= |t| <= 2 && All(t, IsDigit) {
      NumberValueShort(t);
    }
  }

  /** The month field is read exactly when it matches `%m`'s pattern. */
  lemma MonthDirective(t: string)
    ensures ReadField(t, 1, 12, false).Some? <==> MonthPattern(t)
  {
    FieldValue(t, 1, 12, false);
  }

  /** The day field is read exactly when it matches `%d`'s pattern (the calendar check comes later). */
  lemma DayDirective(t: string)
    ensures ReadField(t, 1, 31, true).Some? <==> DayPattern(t)
  {
    FieldValue(t, 1, 31, true);
  }

  /** The hour field is read exactly when it matches `%I`'s pattern. */
  lemma HourDirective(t: string)
    ensures ReadField(t, 1, 12, true).Some? <==> HourPattern(t)
  {
    FieldValue(t, 1, 12, true);
  }

  /** The minute field is read exactly when it matches `%M`'s pattern. */
  lemma MinuteDirective(t: string)
    ensures ReadField(t, 0, 59, false).Some? <==> MinutePattern(t)
  {
    FieldValue(t, 0, 59, false);
  }

  // ---------------------------------------------------------------------------
  // Date (app.py:130-135): strptime with "%Y-%m-%d"
  // ---------------------------------------------------------------------------

  datatype Date = Date(year: int, month: int, day: int)

  /** The Gregorian leap-year rule. */
  predicate IsLeapYear(year: int) {
    year % 4 == 0 && (year % 100 != 0 || year % 400 == 0)
  }

  function DaysInMonth(year: int, month: int): (n: int)
    requires 1 <= month <= 12
    ensures 28 <= n <= 31
  {
    if month == 2 then (if IsLeapYear(year) then 29 else 28)
    else if month == 4 || month == 6 || month == 9 || month == 11 then 30
    else 31
  }

  /** A date that Python's `datetime` can represent: years 1 to 9999. */
  predicate IsCalendarDate(d: Date) {
    1 <= d.year <= 9999 && 1 <= d.month <= 12 && 1 <= d.day <= DaysInMonth(d.year, d.month)
  }

  /** `%Y`: exactly four digits. */
  predicate YearSpelling(t: string, year: int) {
    |t| == 4 && All(t, IsDigit) && NumberValue(t) == year
  }

  /**
   * `s` spells the fields of `d` as "%Y-%m-%d" reads them, the second '-' at
   * index `i`. The fields are only read here; whether they form a real date is
   * `IsCalendarDate`.
   */
  predicate DateLayout(s: string, i: int, d: Date) {
    && 6 <= i < |s| && s[4] == '-' && s[i] == '-'
    && YearSpelling(s[..4], d.year)
    && FieldSpelling(s[5..i], d.month, 1, 12, false)
    && FieldSpelling(s[i + 1..], d.day, 1, 31, true)
  }

  ghost predicate SpellsDate(s: string, d: Date) {
    exists i :: DateLayout(s, i, d)
  }

  /** Where the second '-' must be: the first '-' after the year and its '-'. */
  function DateCandidate(s: string): (r: Option<int>)
    ensures r.Some? ==> 5 <= r.value < |s|
  {
    if |s| < 5 then None
    else
      match FirstIndex(s[5..], '-')
      case None => None
      case Some(k) => Some(5 + k)
  }

  lemma DateLayoutsFound(s: string)
    ensures forall d, i :: DateLayout(s, i, d) ==> DateCandidate(s) == Some(i)
  {
    forall d, i | DateLayout(s, i, d)
      ensures DateCandidate(s) == Some(i)
    {
      DateLayoutFound(s, i, d);
    }
  }

  /** Any layout of `s` puts its second '-' at the candidate position. */
  lemma DateLayoutFound(s: string, i: int, d: Date)
    requires DateLayout(s, i, d)
    ensures DateCandidate(s) == Some(i)
  {
    var rest := s[5..];
    forall k | 0 <= k < i - 5
      ensures rest[k] != '-'
    {
      assert rest[k] == s[5..i][k];
    }
    assert rest[i - 5] == '-';
    assert FirstIndex(rest, '-') == Some(i - 5);
  }

  /** The pattern-matching stage of strptime: the fields `s` spells, if any. */
  function ReadDate(s: string): (r: Option<Date>)
    ensures forall d :: r == Some(d) <==> SpellsDate(s, d)
  {
    DateLayoutsFound(s);
    match DateCandidate(s)
    case None => None
    case Some(i) =>
      var y := if All(s[..4], IsDigit) then Some(NumberValue(s[..4])) else None;
      var m := ReadField(s[5..i], 1, 12, false);
      var dd := ReadField(s[i + 1..], 1, 31, true);
      if s[4] == '-' && i >= 6 && s[i] == '-' && y.Some? && m.Some? && dd.Some? then
        assert DateLayout(s, i, Date(y.value, m.value, dd.value));
        Some(Date(y.value, m.value, dd.value))
      else
        None
  }

  /** `is_valid_date`: strptime reads the fields and `datetime` accepts them. */
  function IsValidDate(s: string): (ok: bool)
    ensures ok <==> exists d :: SpellsDate(s, d) && IsCalendarDate(d)
  {
    match ReadDate(s)
    case None => false
    case Some(d) => IsCalendarDate(d)
  }

  /** The canonical "YYYY-MM-DD" spelling the dialogue asks for. */
  function FormatDate(d: Date): string
    requires 0 <= d.year <= 9999 && 1 <= d.month <= 12 && 1 <= d.day <= 31
  {
    TwoDigits(d.year / 100) + TwoDigits(d.year % 100) + "-" + TwoDigits(d.month) + "-" + TwoDigits(d.day)
  }

  // ---------------------------------------------------------------------------
  // Time (app.py:137-142): strptime with "%I:%M %p"
  // ---------------------------------------------------------------------------

  /** A time on the 12-hour dial. */
  datatype Clock = Clock(hour: int, minute: int, pm: bool)

  /** `%p` in the C locale, matched ignoring case: "am" or "pm". */
  predicate MeridiemSpelling(t: string, pm: bool) {
    && |t| == 2
    && (if pm then t[0] == 'p' || t[0] == 'P' else t[0] == 'a' || t[0] == 'A')
    && (t[1] == 'm' || t[1] == 'M')
  }

  /**
   * `s` spells `c` as "%I:%M %p" reads it: the ':' at `colon`, and the white
   * space between the minutes and the meridiem at `gap..mer` (strptime turns
   * the blank of the format into one or more white-space characters).
   */
  predicate TimeLayout(s: string, colon: int, gap: int, mer: int, c: Clock) {
    && 1 <= colon && colon + 1 < gap < mer && mer + 2 == |s| && s[colon] == ':'
    && FieldSpelling(s[..colon], c.hour, 1, 12, true)
    && FieldSpelling(s[colon + 1..gap], c.minute, 0, 59, false)
    && All(s[gap..mer], IsSpace)
    && MeridiemSpelling(s[mer..], c.pm)
  }

  ghost predicate SpellsTime(s: string, c: Clock) {
    exists colon, gap, mer :: TimeLayout(s, colon, gap, mer, c)
  }

  function ReadMeridiem(t: string): (r: Option<bool>)
    ensures forall pm :: r == Some(pm) <==> MeridiemSpelling(t, pm)
  {
    if MeridiemSpelling(t, false) then Some(false)
    else if MeridiemSpelling(t, true) then Some(true)
    else None
  }

  /**
   * Where the ':', the white space and the meridiem must be: the first ':', the
   * end of the digits after it, and the end of the white space after those.
   */
  function TimeCandidate(s: string): (r: Option<(int, int, int)>)
    ensures r.Some? ==> 0 <= r.value.0 < r.value.1 <= r.value.2 <= |s|
  {
    match FirstIndex(s, ':')
    case None => None
    case Some(colon) =>
      var gap := colon + 1 + PrefixSpan(s[colon + 1..], IsDigit);
      var mer := gap + PrefixSpan(s[gap..], IsSpace);
      Some((colon, gap, mer))
  }

  lemma TimeLayoutsFound(s: string)
    ensures forall c, colon, gap, mer :: TimeLayout(s, colon, gap, mer, c) ==> TimeCandidate(s) == Some((colon, gap, mer))
  {
    forall c, colon, gap, mer | TimeLayout(s, colon, gap, mer, c)
      ensures TimeCandidate(s) == Some((colon, gap, mer))
    {
      TimeLayoutFound(s, colon, gap, mer, c);
    }
  }

  /** Any layout of `s` is at the candidate positions. */
  lemma TimeLayoutFound(s: string, colon: int, gap: int, mer: int, c: Clock)
    requires TimeLayout(s, colon, gap, mer, c)
    ensures TimeCandidate(s) == Some((colon, gap, mer))
  {
    forall k | 0 <= k < colon
      ensures s[k] != ':'
    {
      assert s[..colon][k] == s[k];
    }
    assert FirstIndex(s, ':') == Some(colon);
    assert s[gap..mer][0] == s[gap];
    SpanEndsAt(s, colon + 1, gap, IsDigit);
    assert s[mer..][0] == s[mer];
    SpanEndsAt(s, gap, mer, IsSpace);
    TimeCandidateAt(s, colon, gap, mer);
  }

  lemma TimeCandidateAt(s: string, colon: nat, gap: nat, mer: nat)
    requires colon < gap <= mer <= |s| && FirstIndex(s, ':') == Some(colon)
    requires PrefixSpan(s[colon + 1..], IsDigit) == gap - colon - 1
    requires PrefixSpan(s[gap..], IsSpace) == mer - gap
    ensures TimeCandidate(s) == Some((colon, gap, mer))
  {
    var g := colon + 1 + PrefixSpan(s[colon + 1..], IsDigit);
    assert g == gap;
    var m := g + PrefixSpan(s[g..], IsSpace);
    assert m == mer;
  }

  /** A run of `p` characters from `i` to `j`, ended by one that is not `p`, is the span from `i`. */
  lemma SpanEndsAt(s: string, i: int, j: int, p: char -> bool)
    requires 0 <= i <= j < |s| && All(s[i..j], p) && !p(s[j])
    ensures PrefixSpan(s[i..], p) == j - i
  {
    var rest := s[i..];
    assert rest[..j - i] == s[i..j];
    assert rest[j - i] == s[j];
    PrefixSpanExact(rest, p, j - i);
  }

  /** strptime on "%I:%M %p": the clock `s` spells, if any. */
  function ReadTime(s: string): (r: Option<Clock>)
    ensures forall c :: r == Some(c) <==> SpellsTime(s, c)
  {
    TimeLayoutsFound(s);
    match TimeCandidate(s)
    case None => None
    case Some(pos) =>
      var (colon, gap, mer) := pos;
      var h := ReadField(s[..colon], 1, 12, true);
      var m := ReadField(s[colon + 1..gap], 0, 59, false);
      var p := ReadMeridiem(s[mer..]);
      if && 1 <= colon && colon + 1 < gap < mer && mer + 2 == |s| && s[colon] == ':'
         && All(s[gap..mer], IsSpace) && h.Some? && m.Some? && p.Some?
      then
        assert TimeLayout(s, colon, gap, mer, Clock(h.value, m.value, p.value));
        Some(Clock(h.value, m.value, p.value))
      else
        None
  }

  /** `is_valid_time`: strptime reads an hour, minutes and am/pm. */
  function IsValidTime(s: string): (ok: bool)
    ensures ok <==> exists c :: SpellsTime(s, c)
  {
    ReadTime(s).Some?
  }

  /** The canonical "HH:MM AM" spelling the dialogue's example uses. */
  function FormatTime(c: Clock): string
    requires 1 <= c.hour <= 12 && 0 <= c.minute <= 59
  {
    TwoDigits(c.hour) + ":" + TwoDigits(c.minute) + " " + (if c.pm then "PM" else "AM")
  }

  // ---------------------------------------------------------------------------
  // Facts about the validators
  // ---------------------------------------------------------------------------

  /** The value of a digit string of one, two or four digits, place by place. */
  lemma NumberValueShort(t: string)
    requires All(t, IsDigit)
    ensures |t| == 1 ==> NumberValue(t) == DigitValue(t[0])
    ensures |t| == 2 ==> NumberValue(t) == 10 * DigitValue(t[0]) + DigitValue(t[1])
    ensures |t| == 4 ==>
      NumberValue(t) == 1000 * DigitValue(t[0]) + 100 * DigitValue(t[1]) + 10 * DigitValue(t[2]) + DigitValue(t[3])
  {
    if 1 <= |t| {
      assert t[..1][..0] == [];
    }
    if 2 <= |t| {
      assert t[..2][..1] == t[..1];
    }
    if |t| == 4 {
      assert t[..3][..2] == t[..2];
      assert t[..4][..3] == t[..3];
    }
  }

  /**
   * Every date written as "YYYY-MM-DD" is read back as itself, and it is
   * accepted exactly when it is a real calendar date.
   */
  lemma DateRoundTrip(d: Date)
    requires 0 <= d.year <= 9999 && 1 <= d.month <= 12 && 1 <= d.day <= 31
    ensures ReadDate(FormatDate(d)) == Some(d)
    ensures IsValidDate(FormatDate(d)) <==> IsCalendarDate(d)
  {
    var s := FormatDate(d);
    var y := TwoDigits(d.year / 100) + TwoDigits(d.year % 100);
    assert s[..4] == y;
    NumberValueShort(TwoDigits(d.year / 100));
    NumberValueShort(TwoDigits(d.year % 100));
    NumberValueShort(y);
    assert s[5..7] == TwoDigits(d.month);
    assert s[8..] == TwoDigits(d.day);
    assert DateLayout(s, 7, d);
  }

  /** Every clock time written as "HH:MM AM" or "HH:MM PM" is accepted and read back as itself. */
  lemma TimeRoundTrip(c: Clock)
    requires 1 <= c.hour <= 12 && 0 <= c.minute <= 59
    ensures ReadTime(FormatTime(c)) == Some(c)
    ensures IsValidTime(FormatTime(c))
  {
    var s := FormatTime(c);
    assert s[..2] == TwoDigits(c.hour);
    assert s[3..5] == TwoDigits(c.minute);
    assert s[5..6] == " ";
    assert TimeLayout(s, 2, 5, 6, c);
  }

  /** A string spells at most one date and at most one clock time. */
  lemma SpellingsUnique(s: string, d1: Date, d2: Date, c1: Clock, c2: Clock)
    ensures SpellsDate(s, d1) && SpellsDate(s, d2) ==> d1 == d2
    ensures SpellsTime(s, c1) && SpellsTime(s, c2) ==> c1 == c2
  {
    var _ := ReadDate(s);
    var _ := ReadTime(s);
  }

  lemma AcceptsPlainAddress()
    ensures IsValidEmail("jane@mail.com")
  {
    assert EmailSplit("jane@mail.com", 4, 9);
  }

  /** Python's `$` lets one trailing newline through. */
  lemma AcceptsAddressWithTrailingNewline()
    ensures IsValidEmail("jane@mail.com\n")
  {
    assert "jane@mail.com\n"[..13] == "jane@mail.com";
    assert EmailSplit("jane@mail.com", 4, 9);
  }

  lemma RejectsDoubleAt()
    ensures !IsValidEmail("jane@@mail")
  {
    assert '.' !in "jane@@mail";
  }

  lemma RejectsMissingDomainDot()
    ensures !IsValidEmail("a@b")
  {
  }

  lemma AcceptsMarchTenth()
    ensures IsValidDate("2025-03-10")
  {
    DateRoundTrip(Date(2025, 3, 10));
    assert FormatDate(Date(2025, 3, 10)) == "2025-03-10";
  }

  lemma AcceptsLeapDay()
    ensures IsValidDate("2024-02-29")
  {
    DateRoundTrip(Date(2024, 2, 29));
    assert FormatDate(Date(2024, 2, 29)) == "2024-02-29";
  }

  lemma RejectsLeapDayOfCommonYear()
    ensures !IsValidDate("2025-02-29")
  {
    DateRoundTrip(Date(2025, 2, 29));
    assert FormatDate(Date(2025, 2, 29)) == "2025-02-29";
  }

  lemma RejectsThirtyFirstOfApril()
    ensures !IsValidDate("2025-04-31")
  {
    DateRoundTrip(Date(2025, 4, 31));
    assert FormatDate(Date(2025, 4, 31)) == "2025-04-31";
  }

  /** `datetime` starts at year 1. */
  lemma RejectsYearZero()
    ensures !IsValidDate("0000-01-01")
  {
    DateRoundTrip(Date(0, 1, 1));
    assert FormatDate(Date(0, 1, 1)) == "0000-01-01";
  }

  /** Fields that strptime reads, joined by '-', spell a date. */
  lemma DateFromFields(y: string, m: string, d: string, date: Date)
    requires YearSpelling(y, date.year)
    requires FieldSpelling(m, date.month, 1, 12, false)
    requires FieldSpelling(d, date.day, 1, 31, true)
    ensures SpellsDate(y + "-" + m + "-" + d, date)
  {
    var s := y + "-" + m + "-" + d;
    assert s[..4] == y && s[5..5 + |m|] == m && s[5 + |m| + 1..] == d;
    assert DateLayout(s, 5 + |m|, date);
  }

  /** strptime's `%m` and `%d` also take one digit. */
  lemma AcceptsSingleDigitFields()
    ensures IsValidDate("2025-3-1")
  {
    NumberValueShort("2025");
    NumberValueShort("3");
    NumberValueShort("1");
    DateFromFields("2025", "3", "1", Date(2025, 3, 1));
    assert "2025" + "-" + "3" + "-" + "1" == "2025-3-1";
  }

  /** strptime's `%d` also takes a space followed by one digit. */
  lemma AcceptsSpacePaddedDay()
    ensures IsValidDate("2025-03- 1")
  {
    PaddedDaySpellsDate();
  }

  lemma PaddedDaySpellsDate()
    ensures SpellsDate("2025-03- 1", Date(2025, 3, 1))
  {
    NumberValueShort("2025");
    NumberValueShort("03");
    assert FieldSpelling(" 1", 1, 1, 31, true) by {
      assert " 1"[0] == ' ' && " 1"[1] == '1';
    }
    DateFromFields("2025", "03", " 1", Date(2025, 3, 1));
    assert "2025" + "-" + "03" + "-" + " 1" == "2025-03- 1";
  }

  lemma RejectsMonthThirteen()
    ensures !IsValidDate("2025-13-01")
  {
    var s := "2025-13-01";
    assert s[5..] == "13-01" && "13-01"[..2] == "13";
    FirstIndexExact("13-01", '-', 2);
    assert s[5..7] == "13";
    NumberValueShort("13");
  }

  lemma RejectsSlashes()
    ensures !IsValidDate("2025/03/10")
  {
  }

  lemma AcceptsHalfPastTen()
    ensures IsValidTime("10:30 AM")
  {
    TimeRoundTrip(Clock(10, 30, false));
    assert FormatTime(Clock(10, 30, false)) == "10:30 AM";
  }

  /** Fields that strptime reads, with white space before the meridiem, spell a time. */
  lemma TimeFromFields(h: string, m: string, gap: string, p: string, c: Clock)
    requires FieldSpelling(h, c.hour, 1, 12, true)
    requires FieldSpelling(m, c.minute, 0, 59, false)
    requires |gap| >= 1 && All(gap, IsSpace)
    requires MeridiemSpelling(p, c.pm)
    ensures SpellsTime(h + ":" + m + gap + p, c)
  {
    var s := h + ":" + m + gap + p;
    var colon := |h|;
    var g := colon + 1 + |m|;
    var mer := g + |gap|;
    assert s[..colon] == h && s[colon + 1..g] == m && s[g..mer] == gap && s[mer..] == p;
    assert TimeLayout(s, colon, g, mer, c);
  }

  /** Single-digit hours and a lower-case meridiem are accepted. */
  lemma AcceptsShortHourLowerCase()
    ensures IsValidTime("9:05 pm")
  {
    NumberValueShort("9");
    NumberValueShort("05");
    TimeFromFields("9", "05", " ", "pm", Clock(9, 5, true));
    assert "9" + ":" + "05" + " " + "pm" == "9:05 pm";
  }

  /** `%I` also takes a space followed by one digit. */
  lemma AcceptsSpacePaddedHour()
    ensures IsValidTime(" 9:05 PM")
  {
    NumberValueShort("05");
    assert FieldSpelling(" 9", 9, 1, 12, true) by {
      assert " 9"[0] == ' ' && " 9"[1] == '9';
    }
    TimeFromFields(" 9", "05", " ", "PM", Clock(9, 5, true));
    assert " 9" + ":" + "05" + " " + "PM" == " 9:05 PM";
  }

  /** The blank of the format matches any run of white space. */
  lemma AcceptsWideGap()
    ensures IsValidTime("10:30  Am")
  {
    NumberValueShort("10");
    NumberValueShort("30");
    TimeFromFields("10", "30", "  ", "Am", Clock(10, 30, false));
    assert "10" + ":" + "30" + "  " + "Am" == "10:30  Am";
  }

  /** A time needs at least six characters ("H:M am"), so a bare 24-hour time fails. */
  lemma RejectsMissingMeridiem()
    ensures !IsValidTime("14:30") && !IsValidTime("10:30")
  {
  }

  /**
   * Whatever follows, two leading digits that spell 13 or more can be neither
   * the whole hour field nor the start of a longer one.
   */
  lemma RejectsHourThirteenAndAbove(h: string, rest: string)
    requires |h| == 2 && All(h, IsDigit) && NumberValue(h) >= 13
    ensures !IsValidTime(h + rest)
  {
    var s := h + rest;
    assert s[..2] == h;
    forall c: Clock, colon: int, gap: int, mer: int
      ensures !TimeLayout(s, colon, gap, mer, c)
    {
      if colon == 2 && 2 < gap <= |s| {
        assert s[..colon] == h;
      }
    }
  }

  lemma RejectsFourteenThirty()
    ensures !IsValidTime("14:30 PM")
  {
    assert "14:30 PM" == "14" + ":30 PM";
    NumberValueShort("14");
    RejectsHourThirteenAndAbove("14", ":30 PM");
  }

  lemma RejectsHourZero()
    ensures !IsValidTime("0:30 AM")
  {
    var s := "0:30 AM";
    FirstIndexExact(s, ':', 1);
    assert s[..1] == "0";
    NumberValueShort("0");
  }
}
