/**
 * Track durations, held as a whole number of seconds, and the two texts the
 * program writes for them: TimeSpan.ToString() when a track is added and
 * TimeSpan.ToString(@"hh\:mm\:ss") for the catalog's display value.
 */
module Durations {
  import opened Wrappers
  import opened Fields
  import opened Numbers

  const SecondsPerDay: nat := 86400

  /** Two decimal digits, with a leading zero below ten. */
  function Pad2(n: nat): (s: string)
    requires n < 100
    ensures |s| == 2 && AllDigits(s) && DigitsValue(s) == n
  {
    var s := [DigitChar(n / 10), DigitChar(n % 10)];
    assert s[..1][..0] == [];
    assert DigitsValue(s[..1]) == n / 10;
    assert s[..|s| - 1] == s[..1];
    s
  }

  /** The "hh\:mm\:ss" custom format: the hours component (0 to 23, whole
      days are not shown), minutes and seconds, two digits each. */
  function FormatHms(secs: nat): string {
    Join([Pad2(secs / 3600 % 24), Pad2(secs / 60 % 60), Pad2(secs % 60)], ':')
  }

  /** The day prefix TimeSpan.ToString() writes: nothing below one day. */
  function DayPrefix(days: nat): string {
    if days == 0 then "" else NatToString(days) + "."
  }

  /** TimeSpan.ToString() of a whole number of seconds: "hh:mm:ss", preceded
      by the day count and a '.' from one day on. */
  function TimeSpanText(secs: nat): string {
    Join([DayPrefix(secs / SecondsPerDay) + Pad2(secs / 3600 % 24), Pad2(secs / 60 % 60), Pad2(secs % 60)], ':')
  }

  /** The part before the first ':' as TimeSpan.Parse reads it: hours, or a
      day count and hours separated by '.'. */
  function ParseDayHours(s: string): Option<(nat, nat)> {
    var dh := Split(s, '.');
    if |dh| == 1 then
      match ParseNat(dh[0])
      case Some(h) => Some((0, h))
      case None => None
    else if |dh| == 2 then
      match (ParseNat(dh[0]), ParseNat(dh[1]))
      case (Some(d), Some(h)) => Some((d, h))
      case _ => None
    else None
  }

  /** TimeSpan.Parse on "[d.]h:m:s" with decimal components, hours below 24
      and minutes and seconds below 60; any other text is an error. */
  function ParseDuration(s: string): Option<nat> {
    var hms := Split(s, ':');
    if |hms| != 3 then None
    else
      match (ParseDayHours(hms[0]), ParseNat(hms[1]), ParseNat(hms[2]))
      case (Some((d, h)), Some(m), Some(sec)) =>
        if h < 24 && m < 60 && sec < 60 then Some(d * SecondsPerDay + h * 3600 + m * 60 + sec)
        else None
      case _ => None
  }

  /** Days, hours, minutes and seconds put back together give the duration. */
  lemma Recompose(secs: nat)
    ensures secs / SecondsPerDay * SecondsPerDay + secs / 3600 % 24 * 3600
            + secs / 60 % 60 * 60 + secs % 60 == secs
  {
    var m := secs / 60;
    var h := m / 60;
    assert secs == m * 60 + secs % 60;
    assert m == h * 60 + m % 60;
    assert h == h / 24 * 24 + h % 24;
    assert h == secs / 3600;
    assert h / 24 == secs / SecondsPerDay;
  }

  /** Quotient and remainder are determined by any decomposition x == q * m + r
      with 0 <= r < m. */
  lemma DivMod(x: nat, m: nat, q: nat, r: nat)
    requires 0 <= r < m && x == q * m + r
    ensures x / m == q && x % m == r
  {
    var q', r' := x / m, x % m;
    assert (q - q') * m == r' - r;
    if q > q' {
      AtLeastOnce(q - q', m);
    } else if q < q' {
      AtLeastOnce(q' - q, m);
    }
  }

  lemma AtLeastOnce(k: nat, m: nat)
    requires k >= 1
    ensures k * m >= m
  {
    var j: nat := k - 1;
    assert k * m == j * m + m;
  }

  /** The hours component, minutes and seconds do not see whole days. */
  lemma TimeOfDayParts(secs: nat)
    ensures secs % SecondsPerDay / 3600 % 24 == secs / 3600 % 24
    ensures secs % SecondsPerDay / 60 % 60 == secs / 60 % 60
    ensures secs % SecondsPerDay % 60 == secs % 60
  {
    var q, r := secs / SecondsPerDay, secs % SecondsPerDay;
    var a, b := r / 3600, r % 3600;
    var c, d := r / 60, r % 60;
    assert a < 24 && c < 1440;
    DivMod(secs, 3600, 24 * q + a, b);
    DivMod(24 * q + a, 24, q, a);
    DivMod(a, 24, 0, a);
    DivMod(secs, 60, 1440 * q + c, d);
    DivMod(1440 * q + c, 60, 24 * q + c / 60, c % 60);
  }

  /** Only the time of day is shown: whole days make no difference. */
  lemma FormatHmsOfDay(secs: nat)
    ensures FormatHms(secs % SecondsPerDay) == FormatHms(secs)
  {
    TimeOfDayParts(secs);
  }

  lemma Pad2Free(n: nat, c: char)
    requires n < 100 && !IsDigit(c)
    ensures c !in Pad2(n)
  {
    var s := Pad2(n);
    assert forall i :: 0 <= i < |s| ==> s[i] != c;
  }

  lemma NatFree(n: nat, c: char)
    requires !IsDigit(c)
    ensures c !in NatToString(n)
  {
    var s := NatToString(n);
    assert forall i :: 0 <= i < |s| ==> s[i] != c;
  }

  lemma Join3(a: string, b: string, c: string, sep: char)
    ensures Join([a, b, c], sep) == a + [sep] + b + [sep] + c
  {
    assert [a, b, c][1..] == [b, c];
    assert [b, c][1..] == [c];
    assert Join([b, c], sep) == b + [sep] + c;
    assert a + [sep] + (b + [sep] + c) == a + [sep] + b + [sep] + c;
  }

  /** The day prefix and the hours read back as the day count and hours. */
  lemma {:induction false} ParseDayPrefix(days: nat, h: nat)
    requires h < 100
    ensures ParseDayHours(DayPrefix(days) + Pad2(h)) == Some((days, h))
  {
    var hh := Pad2(h);
    Pad2Free(h, '.');
    if days == 0 {
      assert DayPrefix(days) + hh == hh;
      SplitFree(hh, '.');
    } else {
      NatFree(days, '.');
      assert DayPrefix(days) + hh == Join([NatToString(days), hh], '.');
      SplitJoin([NatToString(days), hh], '.');
      NatRoundTrip(days);
    }
  }

  /** A clock text whose first part reads as a day count and hours. */
  lemma {:induction false} ParseClock(x: string, d: nat, h: nat, m: nat, sec: nat)
    requires h < 24 && m < 60 && sec < 60
    requires ParseDayHours(x) == Some((d, h)) && ':' !in x
    ensures ParseDuration(Join([x, Pad2(m), Pad2(sec)], ':'))
            == Some(d * SecondsPerDay + h * 3600 + m * 60 + sec)
  {
    Pad2Free(m, ':');
    Pad2Free(sec, ':');
    SplitJoin([x, Pad2(m), Pad2(sec)], ':');
  }

  /** The text written when a track is added reads back as the same number
      of seconds. */
  lemma {:induction false} ParseTimeSpanText(secs: nat)
    ensures ParseDuration(TimeSpanText(secs)) == Some(secs)
  {
    var days, h := secs / SecondsPerDay, secs / 3600 % 24;
    var x := DayPrefix(days) + Pad2(h);
    ParseDayPrefix(days, h);
    Pad2Free(h, ':');
    if days != 0 {
      NatFree(days, ':');
      assert x == NatToString(days) + ['.'] + Pad2(h);
    }
    assert ':' !in x;
    ParseClock(x, days, h, secs / 60 % 60, secs % 60);
    Recompose(secs);
  }

  /** Below one day both texts are the same. */
  lemma WithinADay(secs: nat)
    requires secs < SecondsPerDay
    ensures TimeSpanText(secs) == FormatHms(secs)
  {
    assert DayPrefix(secs / SecondsPerDay) == "";
  }

  /** The display text reads back as the time of day of the duration. */
  lemma {:induction false} ParseFormatHms(secs: nat)
    ensures ParseDuration(FormatHms(secs)) == Some(secs % SecondsPerDay)
  {
    var r := secs % SecondsPerDay;
    FormatHmsOfDay(secs);
    WithinADay(r);
    ParseTimeSpanText(r);
  }

  /** Neither text can break a comma-separated record. */
  lemma NoComma(secs: nat)
    ensures ',' !in FormatHms(secs) && ',' !in TimeSpanText(secs)
  {
    var days := secs / SecondsPerDay;
    var hh, mm, ss := Pad2(secs / 3600 % 24), Pad2(secs / 60 % 60), Pad2(secs % 60);
    Pad2Free(secs / 3600 % 24, ',');
    Pad2Free(secs / 60 % 60, ',');
    Pad2Free(secs % 60, ',');
    NatFree(days, ',');
    Join3(hh, mm, ss, ':');
    Join3(DayPrefix(days) + hh, mm, ss, ':');
  }
}
