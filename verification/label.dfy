/** The countdown column: each countdown is written as `f"{n}天"` and read
    back with `int(text.replace('天', ''))`. */
module Label {
  import opened Results
  import opened Decimal

  /** The day sign that follows the number in every countdown label. */
  const DaySign: char := '天'

  /** `str(n)` for any integer: a minus sign before the digits of `|n|`. */
  function IntToString(n: int): (s: string)
    ensures |s| >= 1
    ensures s[0] == '-' <==> n < 0
    ensures forall i :: 0 <= i < |s| ==> s[i] == '-' || IsDigit(s[i])
    ensures forall i :: 1 <= i < |s| ==> IsDigit(s[i])
    ensures s[0] == '0' <==> n == 0
    ensures n < 0 ==> |s| >= 2 && s[1] != '0'
  {
    if n < 0 then "-" + Digits(-n) else Digits(n)
  }

  /** `f"{n}天"`. */
  function CountdownLabel(n: int): (s: string)
    ensures |s| >= 2 && s[|s| - 1] == DaySign
    ensures forall i :: 0 <= i < |s| ==> s[i] == '-' || IsDigit(s[i]) || s[i] == DaySign
  {
    IntToString(n) + [DaySign]
  }

  /** `s.replace(c, '')`: every occurrence of `c` removed, everything else
      kept in order. */
  function RemoveAll(s: string, c: char): (r: string)
    ensures c !in r && |r| <= |s|
    ensures forall x :: x != c ==> (x in r <==> x in s)
  {
    if |s| == 0 then [] else (if s[0] == c then [] else [s[0]]) + RemoveAll(s[1..], c)
  }

  /** `int(s)` on an optional sign followed by ASCII digits; anything else
      raises `ValueError`, which is `None` here. */
  function ParseInt(s: string): (r: Option<int>)
    ensures r.Some? ==> exists i :: 0 <= i < |s| && IsDigit(s[i])
    ensures r.Some? ==> forall i :: 0 <= i < |s| ==> IsDigit(s[i]) || (i == 0 && (s[0] == '-' || s[0] == '+'))
    ensures r.Some? && s[0] == '-' ==> r.value <= 0
    ensures r.Some? && s[0] != '-' ==> r.value >= 0
  {
    if |s| >= 2 && (s[0] == '-' || s[0] == '+') && AllDigits(s[1..]) then
      var magnitude: int := ValueOf(s[1..]);
      Some(if s[0] == '-' then -magnitude else magnitude)
    else if |s| >= 1 && AllDigits(s) then Some(ValueOf(s))
    else None
  }

  /** `int(text.replace('天', ''))`. */
  function LabelDays(text: string): (r: Option<int>)
    ensures r.Some? ==> exists i :: 0 <= i < |text| && IsDigit(text[i])
    ensures r.Some? ==> forall i :: 0 <= i < |text| ==>
              text[i] == DaySign || IsDigit(text[i]) || text[i] == '-' || text[i] == '+'
  {
    var stripped := RemoveAll(text, DaySign);
    var r := ParseInt(stripped);
    assert r.Some? ==> exists i :: 0 <= i < |text| && IsDigit(text[i]) by {
      if r.Some? {
        var k :| 0 <= k < |stripped| && IsDigit(stripped[k]);
        assert stripped[k] in stripped;
        var j :| 0 <= j < |text| && text[j] == stripped[k];
      }
    }
    assert r.Some? ==> forall i :: 0 <= i < |text| && text[i] != DaySign ==>
                                     IsDigit(text[i]) || text[i] == '-' || text[i] == '+' by {
      if r.Some? {
        forall i | 0 <= i < |text| && text[i] != DaySign
          ensures IsDigit(text[i]) || text[i] == '-' || text[i] == '+'
        {
          assert text[i] in text;
          assert text[i] in stripped;
        }
      }
    }
    r
  }

  lemma {:induction false} RemoveAllAppend(a: string, b: string, c: char)
    ensures RemoveAll(a + b, c) == RemoveAll(a, c) + RemoveAll(b, c)
  {
    if |a| == 0 {
      assert a + b == b;
    } else {
      var head := if a[0] == c then [] else [a[0]];
      assert (a + b)[0] == a[0] && (a + b)[1..] == a[1..] + b;
      assert RemoveAll(a + b, c) == head + RemoveAll(a[1..] + b, c);
      RemoveAllAppend(a[1..], b, c);
      assert head + (RemoveAll(a[1..], c) + RemoveAll(b, c)) == (head + RemoveAll(a[1..], c)) + RemoveAll(b, c);
    }
  }

  lemma {:induction false} RemoveAllAbsent(s: string, c: char)
    requires c !in s
    ensures RemoveAll(s, c) == s
  {
    if |s| > 0 {
      RemoveAllAbsent(s[1..], c);
    }
  }

  /** Removing the day sign from a label leaves `str(n)`. */
  lemma LabelStripsToNumber(n: int)
    ensures RemoveAll(CountdownLabel(n), DaySign) == IntToString(n)
  {
    var s := IntToString(n);
    RemoveAllAppend(s, [DaySign], DaySign);
    assert DaySign !in s;
    RemoveAllAbsent(s, DaySign);
    assert RemoveAll([DaySign], DaySign) == [];
  }

  /** `int(str(n)) == n` for every integer, negative ones included. */
  lemma IntRoundTrip(n: int)
    ensures ParseInt(IntToString(n)) == Some(n)
  {
    var s := IntToString(n);
    if n < 0 {
      var digits := Digits(-n);
      assert s == "-" + digits;
      assert s[1..] == digits;
      DigitsRoundTrip(-n);
    } else {
      DigitsRoundTrip(n);
      assert s == Digits(n);
      assert IsDigit(s[0]);
    }
  }

  /** Reading a countdown label back gives the countdown it was made from,
      for every integer, negative ones included. */
  lemma LabelRoundTrip(n: int)
    ensures LabelDays(CountdownLabel(n)) == Some(n)
  {
    LabelStripsToNumber(n);
    IntRoundTrip(n);
  }

  /** Different countdowns never share a label. */
  lemma LabelInjective(m: int, n: int)
    requires CountdownLabel(m) == CountdownLabel(n)
    ensures m == n
  {
    LabelRoundTrip(m);
    LabelRoundTrip(n);
  }
}
