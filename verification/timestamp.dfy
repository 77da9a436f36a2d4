/** `datetime.strptime(text, "%Y-%m-%d %H:%M:%S")` as CPython's `_strptime`
    performs it, restricted to ASCII digits.

    CPython turns the format into one regular expression, matched from the
    start of the text:
      %Y  four digits
      %m  1[0-2] | 0[1-9] | [1-9]
      %d  3[01] | [12]\d | 0[1-9] | [1-9] | " "[1-9]
      " " one or more whitespace characters
      %H  2[0-3] | [0-1]\d | \d
      %M  [0-5]\d | \d
      %S  6[0-1] | [0-5]\d | \d
    A failed match raises "does not match format"; text left after the match
    raises "unconverted data remains". A matched date that is not a real
    one (year 0, day 30 of February) is refused while `_strptime` builds a
    `date` to count the day of the year; a second of 60 or 61 is refused
    when the `datetime` itself is built. Both raise `ValueError`, here
    `OutOfRange`. Every field before %S is followed by a non-digit
    separator, so its alternatives accept exactly a run of one or two digits
    whose value is in range; %S is last and takes the first alternative that
    matches, even when digits remain after it.
 */
module Timestamp {
  import opened Results
  import opened Decimal
  import opened Text
  import Calendar

  datatype DateTime = DateTime(year: int, month: int, day: int, hour: int, minute: int, second: int)

  /** A date and time that `datetime` accepts (no leap seconds). */
  predicate Valid(t: DateTime) {
    && Calendar.ValidDate(t.year, t.month, t.day)
    && 0 <= t.hour < 24 && 0 <= t.minute < 60 && 0 <= t.second < 60
  }

  /** Every `ValueError` the parse can raise, by its cause. */
  datatype ParseError =
    | FormatMismatch   // the text does not match the format
    | UnconvertedData  // the format matched only a proper prefix of the text
    | OutOfRange       // the fields matched but name no real date and time

  /** Python's `str.isspace`, which is what `\s` matches in a `str` pattern. */
  predicate IsSpace(c: char) {
    || c == ' ' || '\t' <= c <= '\r' || '\U{1c}' <= c <= '\U{1f}'
    || c == '\U{85}' || c == '\U{a0}' || c == '\U{1680}'
    || '\U{2000}' <= c <= '\U{200a}' || c == '\U{2028}' || c == '\U{2029}'
    || c == '\U{202f}' || c == '\U{205f}' || c == '\U{3000}'
  }

  /** A numeric directive followed by a separator: a maximal run of
      `minLen` to `maxLen` digits whose value lies in `lo..hi`. */
  function Field(s: string, minLen: nat, maxLen: nat, lo: nat, hi: nat): (r: Result<(nat, string), ParseError>)
    ensures r.Ok? ==> lo <= r.value.0 <= hi
  {
    var n := Span(s, IsDigit);
    if minLen <= n <= maxLen && lo <= ValueOf(s[..n]) <= hi then Ok((ValueOf(s[..n]), s[n..]))
    else Err(FormatMismatch)
  }

  /** The %d directive, which also admits a single digit after one space. */
  function DayField(s: string): (r: Result<(nat, string), ParseError>)
    ensures r.Ok? ==> 1 <= r.value.0 <= 31
  {
    if 2 <= |s| && s[0] == ' ' && '1' <= s[1] <= '9' then Ok((DigitValue(s[1]), s[2..]))
    else Field(s, 1, 2, 1, 31)
  }

  /** The text a %d match covers: one or two digits, or a space and a
      nonzero digit. */
  predicate DayText(ds: string) {
    || (1 <= |ds| <= 2 && AllDigits(ds))
    || (|ds| == 2 && ds[0] == ' ' && '1' <= ds[1] <= '9')
  }

  /** The day of the month a %d match denotes. */
  function DayValue(ds: string): nat
    requires DayText(ds)
  {
    if ds[0] == ' ' then DigitValue(ds[1]) else ValueOf(ds)
  }

  /** The %S directive, which ends the pattern: the first alternative that
      matches wins, whatever follows it. */
  function SecondField(s: string): (r: Result<(nat, string), ParseError>)
    ensures r.Ok? ==> r.value.0 <= 61
  {
    var n := Span(s, IsDigit);
    if n == 0 then Err(FormatMismatch)
    else if n >= 2 && ValueOf(s[..2]) <= 61 then Ok((ValueOf(s[..2]), s[2..]))
    else Ok((DigitValue(s[0]), s[1..]))
  }

  function Literal(s: string, c: char): Result<string, ParseError> {
    if |s| > 0 && s[0] == c then Ok(s[1..]) else Err(FormatMismatch)
  }

  /** The blank in the format, which matches one or more whitespace characters. */
  function Blanks(s: string): Result<string, ParseError> {
    var n := Span(s, IsSpace);
    if n > 0 then Ok(s[n..]) else Err(FormatMismatch)
  }

  /** The match of "%Y-%m-%d": year, month, day and the text after them. */
  function MatchDate(text: string): Result<(nat, nat, nat, string), ParseError> {
    var y :- Field(text, 4, 4, 0, 9999);
    var s1 :- Literal(y.1, '-');
    var mo :- Field(s1, 1, 2, 1, 12);
    var s2 :- Literal(mo.1, '-');
    var d :- DayField(s2);
    Ok((y.0, mo.0, d.0, d.1))
  }

  /** The match of " %H:%M:%S": hour, minute, second and the text after them. */
  function MatchTime(s: string): Result<(nat, nat, nat, string), ParseError> {
    var s3 :- Blanks(s);
    var h :- Field(s3, 1, 2, 0, 23);
    var s4 :- Literal(h.1, ':');
    var mi :- Field(s4, 1, 2, 0, 59);
    var s5 :- Literal(mi.1, ':');
    var se :- SecondField(s5);
    Ok((h.0, mi.0, se.0, se.1))
  }

  /** `datetime.strptime(text, "%Y-%m-%d %H:%M:%S")`; every result it
      returns is a real date and time. */
  function Strptime(text: string): (r: Result<DateTime, ParseError>)
    ensures r.Ok? ==> Valid(r.value)
  {
    var date :- MatchDate(text);
    var time :- MatchTime(date.3);
    if |time.3| > 0 then Err(UnconvertedData)
    else
      var t := DateTime(date.0, date.1, date.2, time.0, time.1, time.2);
      if Valid(t) then Ok(t) else Err(OutOfRange)
  }

  /** Fields that fit the widths of the canonical layout, real or not. */
  predicate Shaped(t: DateTime) {
    && 0 <= t.year <= 9999 && 0 <= t.month <= 99 && 0 <= t.day <= 99
    && 0 <= t.hour <= 99 && 0 <= t.minute <= 99 && 0 <= t.second <= 99
  }

  /** The zero-padded "YYYY-MM-DD HH:MM:SS" layout the certificate service uses. */
  function Format(t: DateTime): (s: string)
    requires Shaped(t)
    ensures |s| == 19
  {
    Layout(Padded(t.year, 4), Padded(t.month, 2), Padded(t.day, 2), " ",
           Padded(t.hour, 2), Padded(t.minute, 2), Padded(t.second, 2))
  }

  /** The same layout without zero padding, which `strptime` also reads. */
  function FormatUnpadded(t: DateTime): string
    requires Valid(t)
  {
    Layout(Padded(t.year, 4), Digits(t.month), Digits(t.day), " ",
           Digits(t.hour), Digits(t.minute), Digits(t.second))
  }

  function Layout(ys: string, ms: string, ds: string, blank: string, hs: string, mins: string, ss: string): string {
    DateLayout(ys, ms, ds, TimeLayout(blank, hs, mins, ss))
  }

  function DateLayout(ys: string, ms: string, ds: string, rest: string): string {
    ys + ("-" + (ms + ("-" + (ds + rest))))
  }

  function TimeLayout(blank: string, hs: string, mins: string, ss: string): string {
    blank + (hs + (":" + (mins + (":" + ss))))
  }

  lemma FieldOf(p: string, rest: string, minLen: nat, maxLen: nat, lo: nat, hi: nat)
    requires AllDigits(p)
    requires |rest| == 0 || !IsDigit(rest[0])
    ensures Field(p + rest, minLen, maxLen, lo, hi)
         == if minLen <= |p| <= maxLen && lo <= ValueOf(p) <= hi then Ok((ValueOf(p), rest)) else Err(FormatMismatch)
  {
    SpanOf(p, rest, IsDigit);
    assert (p + rest)[..|p|] == p;
    assert (p + rest)[|p|..] == rest;
  }

  /** What `strptime` makes of any text laid out as the format prescribes,
      with one- or two-digit fields, any non-empty run of whitespace between
      date and time, a run of seconds digits and then a `tail` that does not
      start with a digit: it succeeds exactly when the fields name a real
      date and time and nothing follows the two seconds digits, and then it
      returns exactly those fields. */
  lemma {:induction false} StrptimeOfLayout(ys: string, ms: string, ds: string, blank: string, hs: string, mins: string, ss: string, tail: string)
    requires |ys| == 4 && 1 <= |ms| <= 2 && DayText(ds) && 1 <= |hs| <= 2 && 1 <= |mins| <= 2 && 1 <= |ss|
    requires AllDigits(ys) && AllDigits(ms) && AllDigits(hs) && AllDigits(mins) && AllDigits(ss)
    requires |blank| >= 1 && forall i :: 0 <= i < |blank| ==> IsSpace(blank[i])
    requires |tail| == 0 || !IsDigit(tail[0])
    ensures var t := DateTime(ValueOf(ys), ValueOf(ms), DayValue(ds), ValueOf(hs), ValueOf(mins), ValueOf(ss));
            var r := Strptime(Layout(ys, ms, ds, blank, hs, mins, ss + tail));
            (r.Ok? <==> Valid(t) && |ss| <= 2 && |tail| == 0) && (r.Ok? ==> r.value == t)
  {
    var rest := TimeLayout(blank, hs, mins, ss + tail);
    assert rest[0] == blank[0];
    MatchDateOf(ys, ms, ds, rest);
    MatchTimeOf(blank, hs, mins, ss, tail);
  }

  lemma MatchDateOf(ys: string, ms: string, ds: string, rest: string)
    requires |ys| == 4 && 1 <= |ms| <= 2 && DayText(ds)
    requires AllDigits(ys) && AllDigits(ms)
    requires |rest| == 0 || !IsDigit(rest[0])
    ensures MatchDate(DateLayout(ys, ms, ds, rest))
         == if 1 <= ValueOf(ms) <= 12 && 1 <= DayValue(ds) <= 31
            then Ok((ValueOf(ys), ValueOf(ms), DayValue(ds), rest))
            else Err(FormatMismatch)
  {
    var r4 := ds + rest;
    var r3 := "-" + r4;
    var r2 := ms + r3;
    var r1 := "-" + r2;
    ValueOfBound(ys);
    FieldOf(ys, r1, 4, 4, 0, 9999);
    assert Literal(r1, '-') == Ok(r2);
    FieldOf(ms, r3, 1, 2, 1, 12);
    assert Literal(r3, '-') == Ok(r4);
    if ds[0] == ' ' {
      assert r4[0] == ' ' && r4[1] == ds[1] && r4[2..] == rest;
    } else {
      FieldOf(ds, rest, 1, 2, 1, 31);
      assert r4[0] == ds[0];
      assert DayField(r4) == Field(r4, 1, 2, 1, 31);
    }
  }

  lemma MatchTimeOf(blank: string, hs: string, mins: string, ss: string, tail: string)
    requires 1 <= |hs| <= 2 && 1 <= |mins| <= 2 && 1 <= |ss|
    requires AllDigits(hs) && AllDigits(mins) && AllDigits(ss)
    requires |blank| >= 1 && forall i :: 0 <= i < |blank| ==> IsSpace(blank[i])
    requires |tail| == 0 || !IsDigit(tail[0])
    ensures var r := MatchTime(TimeLayout(blank, hs, mins, ss + tail));
            && (r.Ok? <==> ValueOf(hs) <= 23 && ValueOf(mins) <= 59)
            && (r.Ok? ==> && r.value.0 == ValueOf(hs) && r.value.1 == ValueOf(mins)
                          && (|r.value.3| == 0 <==> |ss| <= 2 && |tail| == 0 && ValueOf(ss) <= 61)
                          && (|r.value.3| == 0 ==> r.value.2 == ValueOf(ss)))
  {
    var r10 := ss + tail;
    var r9 := ":" + r10;
    var r8 := mins + r9;
    var r7 := ":" + r8;
    var r6 := hs + r7;
    assert r6[0] == hs[0];
    SpanOf(blank, r6, IsSpace);
    assert (blank + r6)[|blank|..] == r6;
    assert Blanks(blank + r6) == Ok(r6);
    FieldOf(hs, r7, 1, 2, 0, 23);
    assert Literal(r7, ':') == Ok(r8);
    FieldOf(mins, r9, 1, 2, 0, 59);
    assert Literal(r9, ':') == Ok(r10);
    SecondsOf(ss, tail);
  }

  /** The %S directive on a run of digits followed by a non-digit tail. */
  lemma {:induction false} SecondsOf(ss: string, tail: string)
    requires 1 <= |ss| && AllDigits(ss)
    requires |tail| == 0 || !IsDigit(tail[0])
    ensures var r := SecondField(ss + tail);
            && r.Ok?
            && (|r.value.1| == 0 <==> |ss| <= 2 && |tail| == 0 && ValueOf(ss) <= 61)
            && (|r.value.1| == 0 ==> r.value.0 == ValueOf(ss))
  {
    SpanOf(ss, tail, IsDigit);
    var text := ss + tail;
    if |ss| == 1 {
      assert ss == [ss[0]];
      assert ValueOf(ss) == DigitValue(ss[0]);
      assert text[0] == ss[0];
    } else if |ss| == 2 {
      assert text[..2] == ss[..2] == ss;
      ValueOfBound(ss[..1]);
      assert ValueOf(ss) > 61 ==> |text[1..]| > 0;
    } else {
      assert |text[2..]| > 0 && |text[1..]| > 0;
    }
  }

  /** The canonical layout round-trips: formatting a real date and time and
      parsing it back gives it unchanged, and a shaped but unreal one
      (month 13, day 32, 30 February, hour 24, second 60, year 0) is refused. */
  lemma StrptimeOfFormat(t: DateTime)
    requires Shaped(t)
    ensures Strptime(Format(t)).Ok? <==> Valid(t)
    ensures Valid(t) ==> Strptime(Format(t)) == Ok(t)
  {
    PaddedRoundTrip(t.year, 4);
    PaddedRoundTrip(t.month, 2);
    PaddedRoundTrip(t.day, 2);
    PaddedRoundTrip(t.hour, 2);
    PaddedRoundTrip(t.minute, 2);
    PaddedRoundTrip(t.second, 2);
    assert Padded(t.second, 2) + [] == Padded(t.second, 2);
    StrptimeOfLayout(Padded(t.year, 4), Padded(t.month, 2), Padded(t.day, 2), " ",
                     Padded(t.hour, 2), Padded(t.minute, 2), Padded(t.second, 2), []);
  }

  /** The unreal dates and times a well-formed layout can still carry are
      all refused: month 13, day 32, 30 February, 29 February of a common
      year, hour 24, second 60. */
  lemma UnrealFieldsRejected(t: DateTime)
    requires Shaped(t)
    requires || t.month == 13 || t.day == 32
             || (t.month == 2 && t.day == 30)
             || (t.month == 2 && t.day == 29 && !Calendar.IsLeap(t.year))
             || t.hour == 24 || t.second == 60
    ensures Strptime(Format(t)).Err?
  {
    StrptimeOfFormat(t);
  }

  /** 29 February is read in a leap year. */
  lemma LeapDayAccepted(t: DateTime)
    requires 1 <= t.year <= 9999 && Calendar.IsLeap(t.year) && t.month == 2 && t.day == 29
    requires 0 <= t.hour < 24 && 0 <= t.minute < 60 && 0 <= t.second < 60
    ensures Strptime(Format(t)) == Ok(t)
  {
    StrptimeOfFormat(t);
  }

  /** `strptime` does not insist on zero padding: the unpadded layout of a
      real date and time parses to the same value. */
  lemma StrptimeAcceptsUnpadded(t: DateTime)
    requires Valid(t)
    ensures Strptime(FormatUnpadded(t)) == Ok(t)
  {
    PaddedRoundTrip(t.year, 4);
    DigitsRoundTrip(t.month);
    DigitsRoundTrip(t.day);
    DigitsRoundTrip(t.hour);
    DigitsRoundTrip(t.minute);
    DigitsRoundTrip(t.second);
    ValueOfBound(Digits(t.month));
    ValueOfBound(Digits(t.day));
    ValueOfBound(Digits(t.hour));
    ValueOfBound(Digits(t.minute));
    ValueOfBound(Digits(t.second));
    DigitsLength(t.month);
    DigitsLength(t.day);
    DigitsLength(t.hour);
    DigitsLength(t.minute);
    DigitsLength(t.second);
    assert Digits(t.second) + [] == Digits(t.second);
    StrptimeOfLayout(Padded(t.year, 4), Digits(t.month), Digits(t.day), " ",
                     Digits(t.hour), Digits(t.minute), Digits(t.second), []);
  }

  lemma DigitsLength(n: nat)
    requires n < 100
    ensures |Digits(n)| <= 2
  {
  }

  /** Any character other than '-' after the four year digits is refused. */
  lemma {:induction false} WrongDateSeparatorRejected(text: string)
    requires |text| >= 5 && text[4] != '-'
    ensures Strptime(text) == Err(FormatMismatch)
  {
    var n := Span(text, IsDigit);
    if n == 4 {
      assert text[4..][0] == text[4];
    }
  }

  /** Anything after the seconds is refused, even a further digit. */
  lemma {:induction false} TrailingTextRejected(t: DateTime, c: char)
    requires Valid(t)
    ensures Strptime(Format(t) + [c]).Err?
  {
    var ys, ms, ds := Padded(t.year, 4), Padded(t.month, 2), Padded(t.day, 2);
    var hs, mins, ss := Padded(t.hour, 2), Padded(t.minute, 2), Padded(t.second, 2);
    if IsDigit(c) {
      assert Format(t) + [c] == Layout(ys, ms, ds, " ", hs, mins, (ss + [c]) + []);
      assert AllDigits(ss + [c]);
      StrptimeOfLayout(ys, ms, ds, " ", hs, mins, ss + [c], []);
    } else {
      assert Format(t) + [c] == Layout(ys, ms, ds, " ", hs, mins, ss + [c]);
      StrptimeOfLayout(ys, ms, ds, " ", hs, mins, ss, [c]);
    }
  }

  /** The pieces of a timestamp text: four year digits, one or two digits
      for every other field except a day that may also be a space and a
      digit, and a non-empty run of whitespace between date and time. */
  predicate FieldTexts(ys: string, ms: string, ds: string, blank: string, hs: string, mins: string, ss: string) {
    && |ys| == 4 && AllDigits(ys)
    && 1 <= |ms| <= 2 && AllDigits(ms)
    && DayText(ds)
    && |blank| >= 1 && (forall i :: 0 <= i < |blank| ==> IsSpace(blank[i]))
    && 1 <= |hs| <= 2 && AllDigits(hs)
    && 1 <= |mins| <= 2 && AllDigits(mins)
    && 1 <= |ss| <= 2 && AllDigits(ss)
  }

  /** `text` is the format's layout of the fields of `t`. */
  ghost predicate LaidOut(text: string, t: DateTime) {
    exists ys, ms, ds, blank, hs, mins, ss ::
      && FieldTexts(ys, ms, ds, blank, hs, mins, ss)
      && text == Layout(ys, ms, ds, blank, hs, mins, ss)
      && t == DateTime(ValueOf(ys), ValueOf(ms), DayValue(ds), ValueOf(hs), ValueOf(mins), ValueOf(ss))
  }

  /** The parse accepts exactly the layouts of real dates and times, and
      reads each as the date and time its fields spell. */
  lemma StrptimeAcceptsExactlyLayouts(text: string, t: DateTime)
    ensures Strptime(text) == Ok(t) <==> LaidOut(text, t) && Valid(t)
  {
    if LaidOut(text, t) && Valid(t) {
      var ys, ms, ds, blank, hs, mins, ss :|
        && FieldTexts(ys, ms, ds, blank, hs, mins, ss)
        && text == Layout(ys, ms, ds, blank, hs, mins, ss)
        && t == DateTime(ValueOf(ys), ValueOf(ms), DayValue(ds), ValueOf(hs), ValueOf(mins), ValueOf(ss));
      assert ss + [] == ss;
      StrptimeOfLayout(ys, ms, ds, blank, hs, mins, ss, []);
    }
    StrptimeShape(text);
  }

  /** Every text the parse accepts is laid out as the format prescribes,
      and the result is what its fields spell. */
  lemma StrptimeShape(text: string)
    ensures Strptime(text).Ok? ==> LaidOut(text, Strptime(text).value)
  {
    if Strptime(text).Ok? {
      var date := MatchDate(text).value;
      var time := MatchTime(date.3).value;
      var ys, ms, ds := MatchDateShape(text);
      var blank, hs, mins, ss := MatchTimeShape(date.3);
      assert text == Layout(ys, ms, ds, blank, hs, mins, ss);
      assert FieldTexts(ys, ms, ds, blank, hs, mins, ss);
    }
  }

  /** The pieces "%Y-%m-%d" consumed when it matched. */
  lemma MatchDateShape(text: string) returns (ys: string, ms: string, ds: string)
    requires MatchDate(text).Ok?
    ensures var d := MatchDate(text).value;
            && |ys| == 4 && AllDigits(ys) && 1 <= |ms| <= 2 && AllDigits(ms) && DayText(ds)
            && text == DateLayout(ys, ms, ds, d.3)
            && d.0 == ValueOf(ys) && d.1 == ValueOf(ms) && d.2 == DayValue(ds)
  {
    var y := Field(text, 4, 4, 0, 9999).value;
    ys := FieldShape(text, 4, 4, 0, 9999);
    var s1 := Literal(y.1, '-').value;
    LiteralShape(y.1, '-');
    var mo := Field(s1, 1, 2, 1, 12).value;
    ms := FieldShape(s1, 1, 2, 1, 12);
    var s2 := Literal(mo.1, '-').value;
    LiteralShape(mo.1, '-');
    ds := DayShape(s2);
    assert MatchDate(text) == Ok((y.0, mo.0, DayField(s2).value.0, DayField(s2).value.1));
  }

  /** The text a successful %d consumed. */
  lemma DayShape(s: string) returns (ds: string)
    requires DayField(s).Ok?
    ensures DayText(ds) && s == ds + DayField(s).value.1 && DayField(s).value.0 == DayValue(ds)
  {
    if 2 <= |s| && s[0] == ' ' && '1' <= s[1] <= '9' {
      ds := s[..2];
      assert s == ds + s[2..];
    } else {
      ds := FieldShape(s, 1, 2, 1, 31);
    }
  }

  /** The pieces " %H:%M:%S" consumed when it matched all of its text. */
  lemma MatchTimeShape(s: string) returns (blank: string, hs: string, mins: string, ss: string)
    requires MatchTime(s).Ok? && |MatchTime(s).value.3| == 0
    ensures var m := MatchTime(s).value;
            && |blank| >= 1 && (forall i :: 0 <= i < |blank| ==> IsSpace(blank[i]))
            && 1 <= |hs| <= 2 && AllDigits(hs) && 1 <= |mins| <= 2 && AllDigits(mins)
            && 1 <= |ss| <= 2 && AllDigits(ss)
            && s == TimeLayout(blank, hs, mins, ss)
            && m.0 == ValueOf(hs) && m.1 == ValueOf(mins) && m.2 == ValueOf(ss)
  {
    var s3 := Blanks(s).value;
    blank := BlanksShape(s);
    var h := Field(s3, 1, 2, 0, 23).value;
    hs := FieldShape(s3, 1, 2, 0, 23);
    var s4 := Literal(h.1, ':').value;
    LiteralShape(h.1, ':');
    mins, ss := MinutesSecondsShape(s4);
    var s5 := Literal(Field(s4, 1, 2, 0, 59).value.1, ':').value;
    assert MatchTime(s) == Ok((h.0, Field(s4, 1, 2, 0, 59).value.0, SecondField(s5).value.0, SecondField(s5).value.1));
  }

  /** The whitespace the blank consumed. */
  lemma BlanksShape(s: string) returns (blank: string)
    requires Blanks(s).Ok?
    ensures |blank| >= 1 && (forall i :: 0 <= i < |blank| ==> IsSpace(blank[i]))
    ensures s == blank + Blanks(s).value
  {
    var n := Span(s, IsSpace);
    blank := s[..n];
    assert s == blank + s[n..];
  }

  /** The character a literal consumed. */
  lemma LiteralShape(s: string, c: char)
    requires Literal(s, c).Ok?
    ensures s == [c] + Literal(s, c).value
  {
  }

  /** The pieces "%M:%S" consumed when they matched all of their text. */
  lemma MinutesSecondsShape(s4: string) returns (mins: string, ss: string)
    requires Field(s4, 1, 2, 0, 59).Ok?
    requires Literal(Field(s4, 1, 2, 0, 59).value.1, ':').Ok?
    requires var s5 := Literal(Field(s4, 1, 2, 0, 59).value.1, ':').value;
             SecondField(s5).Ok? && |SecondField(s5).value.1| == 0
    ensures var s5 := Literal(Field(s4, 1, 2, 0, 59).value.1, ':').value;
            && 1 <= |mins| <= 2 && AllDigits(mins) && 1 <= |ss| <= 2 && AllDigits(ss)
            && s4 == mins + (":" + ss)
            && Field(s4, 1, 2, 0, 59).value.0 == ValueOf(mins)
            && SecondField(s5).value.0 == ValueOf(ss)
  {
    var mi := Field(s4, 1, 2, 0, 59).value;
    mins := FieldShape(s4, 1, 2, 0, 59);
    var s5 := Literal(mi.1, ':').value;
    LiteralShape(mi.1, ':');
    SecondsShape(s5);
    ss := s5;
  }

  /** The digits a successful numeric field consumed. */
  lemma FieldShape(s: string, minLen: nat, maxLen: nat, lo: nat, hi: nat) returns (p: string)
    requires Field(s, minLen, maxLen, lo, hi).Ok?
    ensures var r := Field(s, minLen, maxLen, lo, hi).value;
            minLen <= |p| <= maxLen && AllDigits(p) && s == p + r.1 && r.0 == ValueOf(p)
  {
    var n := Span(s, IsDigit);
    p := s[..n];
    assert s == p + s[n..];
  }

  /** The digits %S consumed when nothing follows them. */
  lemma SecondsShape(s: string)
    requires SecondField(s).Ok? && |SecondField(s).value.1| == 0
    ensures 1 <= |s| <= 2 && AllDigits(s) && SecondField(s).value.0 == ValueOf(s)
  {
    var n := Span(s, IsDigit);
    if n >= 2 && ValueOf(s[..2]) <= 61 {
      assert s == s[..2];
    } else {
      assert s == [s[0]] && s[..0] == [];
      assert ValueOf(s) == ValueOf(s[..0]) * 10 + DigitValue(s[0]);
    }
  }

  /** A day written as a space and a nonzero digit reads exactly like the
      digit alone. */
  lemma SpaceBeforeDayAccepted(ys: string, ms: string, d: char, blank: string, hs: string, mins: string, ss: string)
    requires '1' <= d <= '9' && FieldTexts(ys, ms, [d], blank, hs, mins, ss)
    ensures Strptime(Layout(ys, ms, " " + [d], blank, hs, mins, ss)) == Strptime(Layout(ys, ms, [d], blank, hs, mins, ss))
  {
    SpaceDay(d);
    var rest := TimeLayout(blank, hs, mins, ss);
    MatchDateOf(ys, ms, " " + [d], rest);
    MatchDateOf(ys, ms, [d], rest);
  }

  lemma SpaceDay(d: char)
    requires '1' <= d <= '9'
    ensures DayText(" " + [d]) && DayText([d]) && DayValue(" " + [d]) == DayValue([d])
  {
    var sd := " " + [d];
    assert sd[0] == ' ' && sd[1] == d && |sd| == 2;
    assert AllDigits([d]);
    assert [d][..0] == [];
    assert ValueOf([d]) == DigitValue(d);
  }

  /** No text the parse accepts contains markup. */
  lemma ParsedTextIsPlain(text: string)
    ensures Strptime(text).Ok? ==> '<' !in text
  {
    if Strptime(text).Ok? {
      StrptimeShape(text);
      var ys, ms, ds, blank, hs, mins, ss :|
        && FieldTexts(ys, ms, ds, blank, hs, mins, ss)
        && text == Layout(ys, ms, ds, blank, hs, mins, ss)
        && Strptime(text).value == DateTime(ValueOf(ys), ValueOf(ms), DayValue(ds), ValueOf(hs), ValueOf(mins), ValueOf(ss));
      forall i | 0 <= i < |text|
        ensures text[i] != '<'
      {
        LayoutChar(ys, ms, ds, blank, hs, mins, ss, i);
      }
    }
  }

  /** Every character of a layout is a digit, a separator or whitespace. */
  lemma LayoutChar(ys: string, ms: string, ds: string, blank: string, hs: string, mins: string, ss: string, i: int)
    requires FieldTexts(ys, ms, ds, blank, hs, mins, ss)
    requires 0 <= i < |Layout(ys, ms, ds, blank, hs, mins, ss)|
    ensures var c := Layout(ys, ms, ds, blank, hs, mins, ss)[i];
            IsDigit(c) || c == '-' || c == ':' || IsSpace(c)
  {
  }
}
