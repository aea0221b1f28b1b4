/**
 * `mins_to_hhmm`: minutes since midnight rendered as `HH:MM`, each part formatted as Python's
 * `{:02d}` does (at least two characters, zero-padded after any sign).
 */
module Clock {
  import opened Timetable

  predicate IsDigit(c: char)
  {
    '0' <= c <= '9'
  }

  /** The decimal numeral of `n`, no leading zeros. */
  function Digits(n: nat): (s: string)
    ensures |s| >= 1 && forall i :: 0 <= i < |s| ==> IsDigit(s[i])
    ensures n >= 10 ==> s[0] != '0'
    ensures n < 10 ==> |s| == 1
    ensures n < 100 ==> |s| <= 2
  {
    if n < 10 then [(n + '0' as int) as char]
    else Digits(n / 10) + [(n % 10 + '0' as int) as char]
  }

  /** The value of a string of decimal digits. */
  function DigitsValue(s: string): (n: nat)
    requires forall i :: 0 <= i < |s| ==> IsDigit(s[i])
  {
    if s == [] then 0
    else
      assert IsDigit(s[|s| - 1]);
      DigitsValue(s[..|s| - 1]) * 10 + (s[|s| - 1] as int - '0' as int)
  }

  lemma {:induction false} DigitsRoundTrip(n: nat)
    ensures DigitsValue(Digits(n)) == n
  {
    if n >= 10 {
      var s := Digits(n);
      assert s[..|s| - 1] == Digits(n / 10);
      DigitsRoundTrip(n / 10);
    }
  }

  lemma {:induction false} LeadingZero(s: string)
    requires forall i :: 0 <= i < |s| ==> IsDigit(s[i])
    ensures DigitsValue("0" + s) == DigitsValue(s)
  {
    if s != [] {
      assert ("0" + s)[..|s|] == "0" + s[..|s| - 1];
      LeadingZero(s[..|s| - 1]);
    }
  }

  /** `f"{n:02d}"`. */
  function Pad2(n: int): (s: string)
    ensures |s| >= 2
    ensures n >= 0 ==> forall i :: 0 <= i < |s| ==> IsDigit(s[i])
    ensures 0 <= n < 100 ==> |s| == 2
    ensures n < 0 ==> s[0] == '-'
  {
    if n < 0 then "-" + Digits(-n)
    else if n < 10 then "0" + Digits(n)
    else Digits(n)
  }

  /** A non-negative part reads back as the number it was formatted from. */
  lemma Pad2Value(n: nat)
    ensures DigitsValue(Pad2(n)) == n
  {
    DigitsRoundTrip(n);
    if n < 10 {
      LeadingZero(Digits(n));
    }
  }

  /**
   * `mins_to_hhmm`: `None` stands for a value `int()` rejects, which renders as "N/A"; otherwise
   * hours are `m // 60` and minutes `m % 60` (Python floors, and so does Dafny for a positive divisor).
   */
  function MinsToHhmm(m: Option<int>): (r: string)
    ensures m.None? ==> r == "N/A"
    ensures m.Some? ==> |r| >= 5 && r[|r| - 3] == ':'
  {
    match m
    case None => "N/A"
    case Some(mins) => Pad2(mins / 60) + ":" + Pad2(mins % 60)
  }

  /**
   * Reading back: for a non-negative minute count the result is digits, a colon and two digits,
   * and hours * 60 + minutes, with minutes below 60, gives back the count.
   */
  lemma {:induction false} HhmmRoundTrip(m: nat)
    ensures var r := MinsToHhmm(Some(m));
            && |r| >= 5 && r[|r| - 3] == ':'
            && (forall i :: 0 <= i < |r| && i != |r| - 3 ==> IsDigit(r[i]))
            && DigitsValue(r[|r| - 2..]) < 60
            && DigitsValue(r[..|r| - 3]) * 60 + DigitsValue(r[|r| - 2..]) == m
  {
    var r := MinsToHhmm(Some(m));
    var hh, mm := Pad2(m / 60), Pad2(m % 60);
    assert r == hh + ":" + mm;
    assert r[..|r| - 3] == hh;
    assert r[|r| - 2..] == mm;
    Pad2Value(m / 60);
    Pad2Value(m % 60);
  }

  /** Negative counts show a leading minus: the hours part is `m // 60`, rounded down. */
  lemma NegativeHours(m: int)
    requires m < 0
    ensures MinsToHhmm(Some(m))[0] == '-'
  {
  }
}
