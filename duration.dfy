/**
 * formatDuration (services/timeService.ts): a whole number of minutes shown
 * as "<h>h <m>m", the hours rounded down and the minutes the remainder with
 * the sign of the dividend, as JavaScript's `%` gives it. Integers are
 * written as JavaScript writes them: decimal digits, a leading '-' when
 * negative, no leading zeros.
 */
module Duration {
  import opened Types

  // ---------------------------------------------------------------------
  // Decimal text of integers and its reading back.

  function DigitChar(d: nat): (c: char)
    requires d < 10
    ensures '0' <= c <= '9'
  {
    ('0' as int + d) as char
  }

  function DigitValue(c: char): (r: Option<nat>)
    ensures r.Some? <==> '0' <= c <= '9'
    ensures r.Some? ==> r.value < 10 && DigitChar(r.value) == c
  {
    if '0' <= c <= '9' then Some((c as int - '0' as int) as nat) else None
  }

  /** The decimal digits of `n`, most significant first, without leading zeros. */
  function NatToString(n: nat): (s: string)
    ensures |s| > 0
    ensures forall i :: 0 <= i < |s| ==> '0' <= s[i] <= '9'
    ensures |s| > 1 ==> s[0] != '0'
  {
    if n < 10 then [DigitChar(n)] else NatToString(n / 10) + [DigitChar(n % 10)]
  }

  /** The value of a non-empty string of decimal digits; None for anything else. */
  function ParseNat(s: string): Option<nat> {
    if s == [] then None
    else
      var d := DigitValue(s[|s| - 1]);
      if d.None? then None
      else if |s| == 1 then d
      else match ParseNat(s[..|s| - 1])
        case None => None
        case Some(p) => Some(p * 10 + d.value)
  }

  /** Reading the digits of `n` gives `n` back. */
  lemma {:induction false} ParseNatToString(n: nat)
    ensures ParseNat(NatToString(n)) == Some(n)
  {
    if n >= 10 {
      ParseNatToString(n / 10);
      var s := NatToString(n);
      assert s[..|s| - 1] == NatToString(n / 10);
      assert DigitValue(s[|s| - 1]) == Some(n % 10);
    }
  }

  /** How JavaScript writes an integer-valued number. */
  function IntToString(i: int): (s: string)
    ensures |s| > 0
    ensures forall k :: 0 <= k < |s| ==> s[k] == '-' || '0' <= s[k] <= '9'
  {
    if i < 0 then "-" + NatToString(-i) else NatToString(i)
  }

  /** The value of an optional '-' followed by decimal digits. */
  function ParseInt(s: string): Option<int> {
    if |s| > 0 && s[0] == '-' then
      match ParseNat(s[1..])
      case None => None
      case Some(v) => Some(-(v as int))
    else
      match ParseNat(s)
      case None => None
      case Some(v) => Some(v)
  }

  /** Reading the text of `i` gives `i` back. */
  lemma ParseIntToString(i: int)
    ensures ParseInt(IntToString(i)) == Some(i)
  {
    if i < 0 {
      ParseNatToString(-i);
      ParseSigned(NatToString(-i), -i);
    } else {
      ParseNatToString(i);
      ParseUnsigned(NatToString(i), i);
    }
  }

  lemma ParseSigned(ds: string, n: nat)
    requires ParseNat(ds) == Some(n)
    ensures ParseInt("-" + ds) == Some(-(n as int))
  {
    var s := "-" + ds;
    assert s[0] == '-' && s[1..] == ds;
  }

  lemma ParseUnsigned(ds: string, n: nat)
    requires ParseNat(ds) == Some(n) && |ds| > 0 && '0' <= ds[0] <= '9'
    ensures ParseInt(ds) == Some(n)
  {
  }

  // ---------------------------------------------------------------------
  // The two parts of a duration.

  /** Math.floor(minutes / 60): hours rounded down, also for negative minutes. */
  function WholeHours(minutes: int): (h: int)
    ensures h * 60 <= minutes < h * 60 + 60
  {
    minutes / 60
  }

  /** minutes % 60 in JavaScript: the remainder takes the sign of `minutes`. */
  function RemainderMinutes(minutes: int): (m: int)
    ensures -60 < m < 60
    ensures minutes >= 0 ==> m >= 0
    ensures minutes < 0 ==> m <= 0
    ensures (minutes - m) % 60 == 0
  {
    if minutes >= 0 then minutes % 60 else -((-minutes) % 60)
  }

  /** The position of the first `c` in `s`, if any. */
  function IndexOf(s: string, c: char): (r: Option<nat>)
    ensures r.None? <==> c !in s
    ensures r.Some? ==> r.value < |s| && s[r.value] == c && c !in s[..r.value]
  {
    if s == [] then None
    else if s[0] == c then Some(0)
    else
      match IndexOf(s[1..], c)
      case None => None
      case Some(k) =>
        assert s[..k + 1] == [s[0]] + s[1..][..k];
        Some(k + 1)
  }

  /** Reads "<h>h <m>m" back into its hours and minutes. */
  function ParseDuration(s: string): Option<(int, int)> {
    match IndexOf(s, 'h')
    case None => None
    case Some(k) =>
      if k + 2 < |s| && s[k + 1] == ' ' && s[|s| - 1] == 'm' then
        match (ParseInt(s[..k]), ParseInt(s[k + 2..|s| - 1]))
        case (Some(h), Some(m)) => Some((h, m))
        case _ => None
      else None
  }

  /** formatDuration(minutes) for a whole number of minutes. */
  function FormatDuration(minutes: int): string {
    IntToString(WholeHours(minutes)) + "h " + IntToString(RemainderMinutes(minutes)) + "m"
  }

  /** The text formatDuration writes reads back as its hours and its minutes. */
  lemma FormatDurationParses(minutes: int)
    ensures ParseDuration(FormatDuration(minutes)) == Some((WholeHours(minutes), RemainderMinutes(minutes)))
  {
    var h, m := WholeHours(minutes), RemainderMinutes(minutes);
    var hs := IntToString(h);
    assert 'h' !in hs;
    ParseIntToString(h);
    ParseIntToString(m);
    ParseDurationText(hs, IntToString(m), h, m);
  }

  /** "<hs>h <ms>m" reads back as the values of hs and ms when hs holds no 'h'. */
  lemma ParseDurationText(hs: string, ms: string, h: int, m: int)
    requires ParseInt(hs) == Some(h) && ParseInt(ms) == Some(m) && 'h' !in hs
    ensures ParseDuration(hs + "h " + ms + "m") == Some((h, m))
  {
    var s := hs + "h " + ms + "m";
    DurationLayout(hs, ms);
    IndexOfFirst(s, 'h', |hs|);
  }

  lemma DurationLayout(hs: string, ms: string)
    ensures var s := hs + "h " + ms + "m";
      && |s| == |hs| + |ms| + 3
      && s[..|hs|] == hs && s[|hs|] == 'h' && s[|hs| + 1] == ' ' && s[|s| - 1] == 'm'
      && s[|hs| + 2..|s| - 1] == ms
  {
  }

  /** A position holding `c` with no `c` before it is the first position of `c`. */
  lemma IndexOfFirst(s: string, c: char, k: nat)
    requires k < |s| && s[k] == c && c !in s[..k]
    ensures IndexOf(s, c) == Some(k)
  {
  }

  /**
   * For a duration that is not negative the text reads back as hours and
   * minutes that add up to it, the minutes between 0 and 59.
   */
  lemma FormatDurationRoundTrip(minutes: int)
    requires minutes >= 0
    ensures var p := ParseDuration(FormatDuration(minutes));
      p.Some? && p.value.0 * 60 + p.value.1 == minutes && 0 <= p.value.1 < 60
  {
    FormatDurationParses(minutes);
  }

  /**
   * For a negative duration that is not whole hours the hours are rounded
   * down but the minutes keep the sign, so the parts add up to an hour
   * less than the duration.
   */
  lemma FormatDurationNegative(minutes: int)
    requires minutes < 0 && minutes % 60 != 0
    ensures WholeHours(minutes) * 60 + RemainderMinutes(minutes) == minutes - 60
  {
    var q := -minutes;
    var h, r := q / 60, q % 60;
    assert q == h * 60 + r && 0 < r < 60;
    assert minutes == (-h - 1) * 60 + (60 - r);
    assert WholeHours(minutes) == -h - 1;
  }

  /** Thirty minutes before zero is written "-1h -30m". */
  lemma FormatDurationMinusThirty()
    ensures FormatDuration(-30) == "-1h -30m"
  {
    assert WholeHours(-30) == -1;
    assert RemainderMinutes(-30) == -30;
    assert NatToString(30) == "30" by {
      assert NatToString(3) == "3";
    }
  }
}
