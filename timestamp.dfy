/**
  Reading a deadline out of a cell's text (`getElementDateTimeFromText`):
  `DD-MM-YYYY HH:MM`, split on `-`, space and `:`, five fields read with
  `parseInt` and handed to the `Date` constructor.
 */
module Timestamp {
  import opened Wrappers
  import opened Text

  /** The characters of the pattern `/[- :]/`. */
  predicate IsSeparator(c: char) {
    c == '-' || c == ' ' || c == ':'
  }

  predicate NoSeparator(s: string) {
    forall k :: 0 <= k < |s| ==> !IsSeparator(s[k])
  }

  /**
    `s.split(/[- :]/)`: the pieces between separators, in order, with an
    empty piece wherever two separators meet or one starts or ends `s`.
   */
  function Split(s: string): (parts: seq<string>)
    ensures |parts| >= 1
  {
    SplitFrom(s, 0, 0)
  }

  /** The scan behind `Split`: the current piece began at `start`, and `i` is the next character to look at. */
  function SplitFrom(s: string, start: nat, i: nat): (parts: seq<string>)
    requires start <= i <= |s|
    ensures |parts| >= 1
    decreases |s| - i
  {
    if i == |s| then [s[start..]]
    else if IsSeparator(s[i]) then [s[start..i]] + SplitFrom(s, i + 1, i + 1)
    else SplitFrom(s, start, i + 1)
  }

  /** No piece `split` returns contains a separator. */
  lemma SplitPieces(s: string)
    ensures forall k :: 0 <= k < |Split(s)| ==> NoSeparator(Split(s)[k])
  {
    SplitFromPieces(s, 0, 0);
  }

  /** The scan keeps its pieces free of separators, given that the piece in progress is. */
  lemma {:induction false} SplitFromPieces(s: string, start: nat, i: nat)
    requires start <= i <= |s| && NoSeparator(s[start..i])
    ensures forall k :: 0 <= k < |SplitFrom(s, start, i)| ==> NoSeparator(SplitFrom(s, start, i)[k])
    decreases |s| - i
  {
    if i == |s| {
      assert s[start..] == s[start..i];
    } else if IsSeparator(s[i]) {
      SplitFromPieces(s, i + 1, i + 1);
    } else {
      assert s[start..i + 1] == s[start..i] + [s[i]];
      SplitFromPieces(s, start, i + 1);
    }
  }

  /** The separators of `s` from `i` on, in order. */
  function Seps(s: string, i: nat): seq<char>
    requires i <= |s|
    decreases |s| - i
  {
    if i == |s| then []
    else if IsSeparator(s[i]) then [s[i]] + Seps(s, i + 1)
    else Seps(s, i + 1)
  }

  /** The pieces joined back together, with `seps[k]` between piece `k` and piece `k + 1`. */
  function Join(parts: seq<string>, seps: seq<char>): string
    requires |parts| == |seps| + 1
    decreases |seps|
  {
    if seps == [] then parts[0] else parts[0] + [seps[0]] + Join(parts[1..], seps[1..])
  }

  /** `split` cuts the text at its separators: one piece more than separators, and rejoining gives the text back. */
  lemma SplitJoin(s: string)
    ensures |Split(s)| == |Seps(s, 0)| + 1
    ensures Join(Split(s), Seps(s, 0)) == s
  {
    SplitFromJoin(s, 0, 0);
  }

  /** The scan from `i` cuts `s[start..]` at the separators from `i` on. */
  lemma {:induction false} SplitFromJoin(s: string, start: nat, i: nat)
    requires start <= i <= |s|
    ensures |SplitFrom(s, start, i)| == |Seps(s, i)| + 1
    ensures Join(SplitFrom(s, start, i), Seps(s, i)) == s[start..]
    decreases |s| - i
  {
    if i == |s| {
    } else if IsSeparator(s[i]) {
      var rest := SplitFrom(s, i + 1, i + 1);
      SplitFromJoin(s, i + 1, i + 1);
      assert ([s[start..i]] + rest)[1..] == rest;
      assert ([s[i]] + Seps(s, i + 1))[1..] == Seps(s, i + 1);
      assert s[start..] == s[start..i] + [s[i]] + s[i + 1..];
    } else {
      SplitFromJoin(s, start, i + 1);
    }
  }

  /** A separator at `j`, with none between `i` and `j`, closes the piece that began at `start`. */
  lemma {:induction false} SplitFromField(s: string, start: nat, i: nat, j: nat)
    requires start <= i <= j < |s|
    requires NoSeparator(s[i..j]) && IsSeparator(s[j])
    ensures SplitFrom(s, start, i) == [s[start..j]] + SplitFrom(s, j + 1, j + 1)
    decreases j - i
  {
    if i < j {
      assert s[i..j][0] == s[i];
      assert s[i + 1..j] == s[i..j][1..];
      SplitFromField(s, start, i + 1, j);
    }
  }

  /** Without a separator from `i` on, the piece that began at `start` is the last one. */
  lemma {:induction false} SplitFromLast(s: string, start: nat, i: nat)
    requires start <= i <= |s|
    requires NoSeparator(s[i..])
    ensures SplitFrom(s, start, i) == [s[start..]]
    decreases |s| - i
  {
    if i < |s| {
      assert s[i..][0] == s[i];
      assert s[i + 1..] == s[i..][1..];
      SplitFromLast(s, start, i + 1);
    }
  }

  /** A string without separators is one piece. */
  lemma SplitNoSeparator(s: string)
    requires NoSeparator(s)
    ensures Split(s) == [s]
  {
    assert s[0..] == s;
    SplitFromLast(s, 0, 0);
  }

  /**
    When separators stand at `a < b < c < e` and at `f` (or `f` is the end),
    and nowhere else before `f`, the first five pieces are the runs between them.
   */
  lemma SplitFiveFields(s: string, a: nat, b: nat, c: nat, e: nat, f: nat)
    requires a < b < c < e < f <= |s|
    requires NoSeparator(s[..a]) && NoSeparator(s[a + 1..b]) && NoSeparator(s[b + 1..c])
    requires NoSeparator(s[c + 1..e]) && NoSeparator(s[e + 1..f])
    requires IsSeparator(s[a]) && IsSeparator(s[b]) && IsSeparator(s[c]) && IsSeparator(s[e])
    requires f == |s| || IsSeparator(s[f])
    ensures |Split(s)| >= 5
    ensures Split(s)[..5] == [s[..a], s[a + 1..b], s[b + 1..c], s[c + 1..e], s[e + 1..f]]
  {
    assert s[0..a] == s[..a];
    SplitFromField(s, 0, 0, a);
    SplitFromField(s, a + 1, a + 1, b);
    SplitFromField(s, b + 1, b + 1, c);
    SplitFromField(s, c + 1, c + 1, e);
    if f == |s| {
      assert s[e + 1..] == s[e + 1..f];
      SplitFromLast(s, e + 1, e + 1);
    } else {
      SplitFromField(s, e + 1, e + 1, f);
    }
  }

  /**
    `parseInt(s, 10)`, with `None` for NaN: leading blanks are skipped, one
    `+` or `-` is read, and the longest run of decimal digits that follows is
    the value; without a digit there the result is NaN.
   */
  function ParseInt(s: string): Option<int> {
    ParseSigned(TrimStart(s))
  }

  /** `parseInt` after the leading blanks: an optional sign, then the digits. */
  function ParseSigned(t: string): Option<int> {
    var negative := t != [] && t[0] == '-';
    var signed := negative || (t != [] && t[0] == '+');
    match ParseDigits(if signed then t[1..] else t)
    case None => None
    case Some(v) => Some(if negative then -v else v)
  }

  /** The value of the digit run `u` starts with, `None` when it starts with no digit. */
  function ParseDigits(u: string): Option<int> {
    var n := DigitRun(u);
    if n == 0 then None else Some(DigitsValue(u[..n]))
  }

  /** Digits followed by anything that is not a digit read as the digits' value. */
  lemma ParseIntDigits(d: string, t: string)
    requires d != [] && AllDigits(d)
    requires t == [] || !IsDigit(t[0])
    ensures ParseInt(d + t) == Some(DigitsValue(d))
  {
    var s := d + t;
    assert IsDigit(s[0]) by {
      assert s[0] == d[0];
    }
    assert TrimStart(s) == s;
    assert ParseSigned(s) == ParseDigits(s);
    assert ParseDigits(s) == Some(DigitsValue(d)) by {
      DigitRunOf(d, t);
      assert s[..|d|] == d;
    }
  }

  /** A non-empty digit string reads as its value. */
  lemma ParseIntDigitString(d: string)
    requires d != [] && AllDigits(d)
    ensures ParseInt(d) == Some(DigitsValue(d))
  {
    ParseIntDigits(d, []);
    assert d + [] == d;
  }

  /** The empty string, and a string whose first character is no blank, sign or digit, read as NaN. */
  lemma ParseIntRejects(s: string)
    requires s == [] || (!IsWhitespace(s[0]) && !IsDigit(s[0]) && s[0] != '+' && s[0] != '-')
    ensures ParseInt(s) == None
  {
    assert TrimStart(s) == s;
  }

  /** `parseInt` reads back the decimal text of any number. */
  lemma ParseIntDecimal(n: nat)
    ensures ParseInt(Decimal(n)) == Some(n)
  {
    ParseIntDigitString(Decimal(n));
    DecimalRoundTrip(n);
  }

  /**
    A parsed deadline: the five numbers handed to `new Date(year, month,
    day, hour, minute)` (month zero-based, as JavaScript counts it) and the
    instant the constructor produced, in epoch milliseconds.
   */
  datatype Deadline = Deadline(year: int, month: int, day: int, hour: int, minute: int, time: int)

  /**
    `new Date(year, month, day, hour, minute).getTime()` as the host computes
    it in its own time zone, with `None` for an invalid (NaN) time. Out-of-range
    components roll over into the next unit rather than being refused.
   */
  type DateConstructor = (int, int, int, int, int) -> Option<int>

  /**
    `getElementDateTimeFromText`: `None` (the script's `null`) for blank text,
    fewer than five fields, an unreadable field among the first five, or an
    invalid time; otherwise the deadline built from fields 0 to 4 as day,
    month, year, hour and minute. Fields after the fifth are ignored.
   */
  function GetElementDateTimeFromText(text: string, makeDate: DateConstructor): Option<Deadline> {
    if text == [] || Trim(text) == [] then None
    else
      var parts := Split(Trim(text));
      if |parts| < 5 then None
      else FromFields(parts, makeDate)
  }

  /**
    The fields `i` to `n - 1` read in order by `read` (the script reads each
    with `parseInt`); `None` as soon as one of them is unreadable.
   */
  function ReadFields(read: string -> Option<int>, parts: seq<string>, i: nat, n: nat): (r: Option<seq<int>>)
    requires i <= n <= |parts|
    ensures r.Some? ==> |r.value| == n - i
    decreases n - i
  {
    if i == n then Some([])
    else
      match read(parts[i])
      case None => None
      case Some(v) =>
        match ReadFields(read, parts, i + 1, n)
        case None => None
        case Some(vs) => Some([v] + vs)
  }

  /** One unreadable field makes the whole reading fail. */
  lemma {:induction false} ReadFieldsNone(read: string -> Option<int>, parts: seq<string>, i: nat, n: nat, k: nat)
    requires i <= k < n <= |parts| && read(parts[k]) == None
    ensures ReadFields(read, parts, i, n) == None
    decreases n - i
  {
    if read(parts[i]).Some? {
      assert k != i;
      ReadFieldsNone(read, parts, i + 1, n, k);
    }
  }

  /** When every field reads as a number, the reading is those numbers. */
  lemma {:induction false} ReadFieldsAll(read: string -> Option<int>, parts: seq<string>, i: nat, n: nat, values: seq<int>)
    requires i <= n <= |parts| && |values| == n - i
    requires forall k :: i <= k < n ==> read(parts[k]) == Some(values[k - i])
    ensures ReadFields(read, parts, i, n) == Some(values)
    decreases n - i
  {
    if i < n {
      var tail := values[1..];
      assert read(parts[i]) == Some(values[0]);
      forall k | i + 1 <= k < n
        ensures read(parts[k]) == Some(tail[k - (i + 1)])
      {
        assert tail[k - (i + 1)] == values[k - i];
      }
      ReadFieldsAll(read, parts, i + 1, n, tail);
      assert values == [values[0]] + tail;
    }
  }

  /** The deadline the first five fields describe, read as day, month, year, hour and minute. */
  function FromFields(parts: seq<string>, makeDate: DateConstructor): (r: Option<Deadline>)
    requires |parts| >= 5
    ensures r.Some? ==> makeDate(r.value.year, r.value.month, r.value.day, r.value.hour, r.value.minute) == Some(r.value.time)
  {
    match ReadFields(ParseInt, parts, 0, 5)
    case None => None
    case Some(v) => Build(v, makeDate)
  }

  /** `new Date(year, month - 1, day, hour, minute)` from the numbers read as day, month, year, hour and minute. */
  function Build(v: seq<int>, makeDate: DateConstructor): (r: Option<Deadline>)
    requires |v| == 5
    ensures r.Some? ==> makeDate(r.value.year, r.value.month, r.value.day, r.value.hour, r.value.minute) == Some(r.value.time)
  {
    var year, month, day, hour, minute := v[2], v[1] - 1, v[0], v[3], v[4];
    match makeDate(year, month, day, hour, minute)
    case None => None
    case Some(time) => Some(Deadline(year, month, day, hour, minute, time))
  }

  /**
    A deadline is only ever read from non-blank text of at least five fields,
    and it carries the time the `Date` constructor gave for its five numbers.
   */
  lemma DeadlineIsConstructed(text: string, makeDate: DateConstructor)
    ensures var r := GetElementDateTimeFromText(text, makeDate);
      r.Some? ==> && Trim(text) != [] && |Split(Trim(text))| >= 5
                  && makeDate(r.value.year, r.value.month, r.value.day, r.value.hour, r.value.minute) == Some(r.value.time)
  {
  }

  /** Blank text is refused. */
  lemma BlankTextRefused(text: string, makeDate: DateConstructor)
    requires forall k :: 0 <= k < |text| ==> IsWhitespace(text[k])
    ensures GetElementDateTimeFromText(text, makeDate) == None
  {
    TrimIsInfix(text);
  }

  /** Text that splits into fewer than five fields is refused. */
  lemma ShortTextRefused(text: string, makeDate: DateConstructor)
    requires |Split(Trim(text))| < 5
    ensures GetElementDateTimeFromText(text, makeDate) == None
  {
  }

  /** Text one of whose first five fields `parseInt` cannot read is refused. */
  lemma UnreadableFieldRefused(text: string, makeDate: DateConstructor, k: nat)
    requires k < 5 <= |Split(Trim(text))|
    requires ParseInt(Split(Trim(text))[k]) == None
    ensures GetElementDateTimeFromText(text, makeDate) == None
  {
    ReadFieldsNone(ParseInt, Split(Trim(text)), 0, 5, k);
  }

  /** The text `D-M-Y H:N` followed by nothing, or by a separator and further fields. */
  function DeadlineText(d: string, m: string, y: string, h: string, n: string, rest: string): string {
    d + "-" + m + "-" + y + " " + h + ":" + n + rest
  }

  /** A number below 100 written with two digits, zero-padded: how the table writes day, month, hour and minute. */
  function TwoDigits(v: nat): (r: string)
    requires v < 100
    ensures |r| == 2 && AllDigits(r)
  {
    [DigitChar(v / 10), DigitChar(v % 10)]
  }

  /** A number below 10000 written with four digits, zero-padded: how the table writes the year. */
  function FourDigits(v: nat): (r: string)
    requires v < 10000
    ensures |r| == 4 && AllDigits(r)
  {
    TwoDigits(v / 100) + TwoDigits(v % 100)
  }

  /** Two digits denote the number they were written from. */
  lemma TwoDigitsValue(v: nat)
    requires v < 100
    ensures DigitsValue(TwoDigits(v)) == v
  {
    var r := TwoDigits(v);
    assert DigitValue(r[0]) == v / 10 && DigitValue(r[1]) == v % 10;
    assert r[..1] == [r[0]];
    assert DigitsValue(r[..1]) == v / 10;
  }

  /** Four digits denote the number they were written from. */
  lemma FourDigitsValue(v: nat)
    requires v < 10000
    ensures DigitsValue(FourDigits(v)) == v
  {
    var a, b := v / 100, v % 100;
    var hi, lo := TwoDigits(a), TwoDigits(b);
    var r := FourDigits(v);
    TwoDigitsValue(a);
    var c, d := DigitValue(lo[0]), DigitValue(lo[1]);
    assert c == b / 10 && d == b % 10;
    assert r[..2] == hi && r[..3] == r[..2] + [r[2]];
    assert r[..3][..2] == r[..2];
    assert DigitsValue(r[..3]) == a * 10 + c;
    assert DigitsValue(r) == (a * 10 + c) * 10 + d;
    assert (a * 10 + c) * 10 + d == a * 100 + b;
  }

  lemma ParseTwoDigits(v: nat)
    requires v < 100
    ensures ParseInt(TwoDigits(v)) == Some(v)
  {
    TwoDigitsValue(v);
    ParseIntDigitString(TwoDigits(v));
  }

  lemma ParseFourDigits(v: nat)
    requires v < 10000
    ensures ParseInt(FourDigits(v)) == Some(v)
  {
    FourDigitsValue(v);
    ParseIntDigitString(FourDigits(v));
  }

  /** `DD-MM-YYYY HH:MM`, the way the table writes a deadline (month counted from 1). */
  function FormatDeadline(day: nat, month: nat, year: nat, hour: nat, minute: nat): string
    requires day < 100 && month < 100 && year < 10000 && hour < 100 && minute < 100
  {
    TwoDigits(day) + "-" + TwoDigits(month) + "-" + FourDigits(year) + " " + TwoDigits(hour) + ":" + TwoDigits(minute)
  }

  /**
    Round trip: a deadline written as `DD-MM-YYYY HH:MM` (extra fields
    allowed after a separator) reads back as the same numbers, month shifted
    to zero base, exactly when the `Date` constructor accepts them.
   */
  lemma ParseFormattedDeadline(day: nat, month: nat, year: nat, hour: nat, minute: nat, rest: string,
                               makeDate: DateConstructor)
    requires day < 100 && month < 100 && year < 10000 && hour < 100 && minute < 100
    requires rest == [] || (IsSeparator(rest[0]) && !IsWhitespace(rest[|rest| - 1]))
    ensures var r := GetElementDateTimeFromText(FormatDeadline(day, month, year, hour, minute) + rest, makeDate);
      && (r.Some? <==> makeDate(year, month - 1, day, hour, minute).Some?)
      && (r.Some? ==> r.value == Deadline(year, month - 1, day, hour, minute, makeDate(year, month - 1, day, hour, minute).value))
  {
    var d, m, y, h, n := TwoDigits(day), TwoDigits(month), FourDigits(year), TwoDigits(hour), TwoDigits(minute);
    var text := DeadlineText(d, m, y, h, n, rest);
    assert text == FormatDeadline(day, month, year, hour, minute) + rest;
    TrimDeadlineText(d, m, y, h, n, rest);
    assert NoSeparator(d) && NoSeparator(m) && NoSeparator(y) && NoSeparator(h) && NoSeparator(n);
    var parts := SplitDeadlineText(d, m, y, h, n, rest);
    ReadFormattedFields(parts, day, month, year, hour, minute);
    ReadFiveFields(text, makeDate, day, month, year, hour, minute);
  }

  /** Fields that are the five padded numbers of `DD-MM-YYYY HH:MM` read back as those numbers. */
  lemma ReadFormattedFields(parts: seq<string>, day: nat, month: nat, year: nat, hour: nat, minute: nat)
    requires day < 100 && month < 100 && year < 10000 && hour < 100 && minute < 100
    requires |parts| >= 5 && parts[0] == TwoDigits(day) && parts[1] == TwoDigits(month)
    requires parts[2] == FourDigits(year) && parts[3] == TwoDigits(hour) && parts[4] == TwoDigits(minute)
    ensures ReadFields(ParseInt, parts, 0, 5) == Some([day, month, year, hour, minute])
  {
    var values := [day, month, year, hour, minute];
    forall k | 0 <= k < 5
      ensures ParseInt(parts[k]) == Some(values[k])
    {
      if k == 0 {
        ParseTwoDigits(day);
      } else if k == 1 {
        ParseTwoDigits(month);
      } else if k == 2 {
        ParseFourDigits(year);
      } else if k == 3 {
        ParseTwoDigits(hour);
      } else {
        ParseTwoDigits(minute);
      }
    }
    ReadFieldsAll(ParseInt, parts, 0, 5, values);
  }

  /** The documented example: `05-03-2024 14:30` is 5 March 2024 (month 2 counted from 0), 14:30. */
  lemma ExampleDeadline(makeDate: DateConstructor)
    ensures var r := GetElementDateTimeFromText("05-03-2024 14:30", makeDate);
      && (r.Some? <==> makeDate(2024, 2, 5, 14, 30).Some?)
      && (r.Some? ==> r.value == Deadline(2024, 2, 5, 14, 30, makeDate(2024, 2, 5, 14, 30).value))
  {
    assert TwoDigits(5) == "05" && TwoDigits(3) == "03" && TwoDigits(14) == "14" && TwoDigits(30) == "30";
    assert FourDigits(2024) == "20" + "24";
    assert FormatDeadline(5, 3, 2024, 14, 30) + [] == "05-03-2024 14:30";
    ParseFormattedDeadline(5, 3, 2024, 14, 30, [], makeDate);
  }

  /**
    There is no calendar check: `31-04-2024 10:00` is handed to the `Date`
    constructor as 31 April, and is a deadline whenever the constructor
    produces a time for it (JavaScript rolls it over to 1 May).
   */
  lemma NoCalendarCheck(makeDate: DateConstructor)
    ensures var r := GetElementDateTimeFromText("31-04-2024 10:00", makeDate);
      && (r.Some? <==> makeDate(2024, 3, 31, 10, 0).Some?)
      && (r.Some? ==> r.value.day == 31 && r.value.month == 3)
  {
    assert TwoDigits(31) == "31" && TwoDigits(4) == "04" && TwoDigits(10) == "10" && TwoDigits(0) == "00";
    assert FourDigits(2024) == "20" + "24";
    assert FormatDeadline(31, 4, 2024, 10, 0) + [] == "31-04-2024 10:00";
    ParseFormattedDeadline(31, 4, 2024, 10, 0, [], makeDate);
  }

  /** Text without separators is a single field, so it is refused. */
  lemma GarbageRefused(makeDate: DateConstructor)
    ensures GetElementDateTimeFromText("garbage", makeDate) == None
  {
    TrimUnchanged("garbage");
    SplitNoSeparator("garbage");
  }

  /** Trimmed text whose first five fields read as numbers gives the deadline built from them, if the constructor accepts them. */
  lemma ReadFiveFields(text: string, makeDate: DateConstructor, day: int, month: int, year: int, hour: int, minute: int)
    requires text != [] && Trim(text) == text
    requires |Split(text)| >= 5
    requires ReadFields(ParseInt, Split(text), 0, 5) == Some([day, month, year, hour, minute])
    ensures var r := GetElementDateTimeFromText(text, makeDate);
      && (r.Some? <==> makeDate(year, month - 1, day, hour, minute).Some?)
      && (r.Some? ==> r.value == Deadline(year, month - 1, day, hour, minute, makeDate(year, month - 1, day, hour, minute).value))
  {
    assert GetElementDateTimeFromText(text, makeDate) == FromFields(Split(text), makeDate);
    FromReadFields(Split(text), makeDate, day, month, year, hour, minute);
  }

  /** Fields read as day, month, year, hour and minute are handed to the date constructor in that role, the month less one. */
  lemma FromReadFields(parts: seq<string>, makeDate: DateConstructor, day: int, month: int, year: int, hour: int, minute: int)
    requires |parts| >= 5
    requires ReadFields(ParseInt, parts, 0, 5) == Some([day, month, year, hour, minute])
    ensures var r := FromFields(parts, makeDate);
      && (r.Some? <==> makeDate(year, month - 1, day, hour, minute).Some?)
      && (r.Some? ==> r.value == Deadline(year, month - 1, day, hour, minute, makeDate(year, month - 1, day, hour, minute).value))
  {
    BuildFields(makeDate, day, month, year, hour, minute);
  }

  /** `Build` puts each number in its place, the month less one. */
  lemma BuildFields(makeDate: DateConstructor, day: int, month: int, year: int, hour: int, minute: int)
    ensures var r := Build([day, month, year, hour, minute], makeDate);
      && (r.Some? <==> makeDate(year, month - 1, day, hour, minute).Some?)
      && (r.Some? ==> r.value == Deadline(year, month - 1, day, hour, minute, makeDate(year, month - 1, day, hour, minute).value))
  {
    var v := [day, month, year, hour, minute];
    assert v[0] == day && v[1] == month && v[2] == year && v[3] == hour && v[4] == minute;
  }

  /** Text that starts with a digit and ends with a digit or a non-blank is its own trim. */
  lemma TrimDeadlineText(d: string, m: string, y: string, h: string, n: string, rest: string)
    requires d != [] && n != [] && AllDigits(d) && AllDigits(n)
    requires rest == [] || !IsWhitespace(rest[|rest| - 1])
    ensures Trim(DeadlineText(d, m, y, h, n, rest)) == DeadlineText(d, m, y, h, n, rest)
    ensures DeadlineText(d, m, y, h, n, rest) != []
  {
    var text := DeadlineText(d, m, y, h, n, rest);
    assert text[0] == d[0];
    if rest == [] {
      assert text[|text| - 1] == n[|n| - 1];
    } else {
      assert text[|text| - 1] == rest[|rest| - 1];
    }
    TrimUnchanged(text);
  }

  /** Where the fields and separators of `D-M-Y H:N...` stand. */
  lemma DeadlineTextPieces(d: string, m: string, y: string, h: string, n: string, rest: string)
    ensures var s := DeadlineText(d, m, y, h, n, rest);
      var a := |d|; var b := a + 1 + |m|; var c := b + 1 + |y|; var e := c + 1 + |h|; var f := e + 1 + |n|;
      && |s| == f + |rest|
      && s[..a] == d && s[a] == '-' && s[a + 1..b] == m && s[b] == '-' && s[b + 1..c] == y && s[c] == ' '
      && s[c + 1..e] == h && s[e] == ':' && s[e + 1..f] == n && s[f..] == rest
  {
    var s := DeadlineText(d, m, y, h, n, rest);
    var a := |d|; var b := a + 1 + |m|; var c := b + 1 + |y|; var e := c + 1 + |h|; var f := e + 1 + |n|;
    var s1 := d + "-";
    var s2 := s1 + m + "-";
    var s3 := s2 + y + " ";
    var s4 := s3 + h + ":";
    var s5 := s4 + n;
    assert s == s5 + rest;
    assert s[..f] == s5;
    assert s5[..e + 1] == s4;
    assert s4[..c + 1] == s3;
    assert s3[..b + 1] == s2;
    assert s2[..a + 1] == s1;
  }

  /** The first five pieces of `D-M-Y H:N...` are D, M, Y, H and N. */
  lemma SplitDeadlineText(d: string, m: string, y: string, h: string, n: string, rest: string)
    returns (parts: seq<string>)
    requires NoSeparator(d) && NoSeparator(m) && NoSeparator(y) && NoSeparator(h) && NoSeparator(n)
    requires rest == [] || IsSeparator(rest[0])
    ensures parts == Split(DeadlineText(d, m, y, h, n, rest))
    ensures |parts| >= 5 && parts[0] == d && parts[1] == m && parts[2] == y && parts[3] == h && parts[4] == n
  {
    DeadlineTextPieces(d, m, y, h, n, rest);
    var s := DeadlineText(d, m, y, h, n, rest);
    var a := |d|; var b := a + 1 + |m|; var c := b + 1 + |y|; var e := c + 1 + |h|; var f := e + 1 + |n|;
    if rest != [] {
      assert s[f] == s[f..][0];
    }
    SplitFiveFields(s, a, b, c, e, f);
    parts := Split(s);
  }
}
