/** `formatDuration`: a millisecond count shown as "{hours}h {minutes}m",
    truncated to whole minutes, with "-" for a zero (falsy) duration. */
module Duration {
  import opened JsValues
  import opened Decimal

  const MsPerHour: int := 3600000
  const MsPerMinute: int := 60000

  /** `Math.floor(ms / 3600000)`: the whole hours, rounded down. */
  function Hours(ms: int): (h: int)
    ensures h * MsPerHour <= ms < h * MsPerHour + MsPerHour
  {
    FloorDiv(ms, MsPerHour)
  }

  /** `Math.floor((ms % 3600000) / 60000)`, with JavaScript's `%`: the
      remainder takes the sign of `ms`, so the minutes lie in 0..59 for a
      non-negative duration and in -60..0 for a negative one. */
  function Minutes(ms: int): (m: int)
    ensures m * MsPerMinute <= TruncRem(ms, MsPerHour) < m * MsPerMinute + MsPerMinute
    ensures ms >= 0 ==> 0 <= m < 60
    ensures ms < 0 ==> -60 <= m <= 0
  {
    FloorDiv(TruncRem(ms, MsPerHour), MsPerMinute)
  }

  /** The text shown in the Work Time and Break Time columns. */
  function FormatDuration(ms: int): (s: string)
    ensures s == "-" <==> ms == 0
    ensures ms != 0 ==> s == IntToString(Hours(ms)) + "h " + IntToString(Minutes(ms)) + "m"
  {
    if ms == 0 then "-" else IntToString(Hours(ms)) + "h " + IntToString(Minutes(ms)) + "m"
  }

  /** For a positive duration the shown hours and minutes are the largest
      whole number of minutes not exceeding it: minutes in 0..59, and the
      dropped remainder is less than one minute. */
  lemma TruncatesToWholeMinutes(ms: int)
    requires ms > 0
    ensures var h, m := Hours(ms), Minutes(ms);
      && h >= 0 && 0 <= m < 60
      && h * MsPerHour + m * MsPerMinute <= ms < h * MsPerHour + (m + 1) * MsPerMinute
  {
    var h, r := Hours(ms), TruncRem(ms, MsPerHour);
    assert r == ms - h * MsPerHour && 0 <= r < MsPerHour;
    var m := Minutes(ms);
    assert m * MsPerMinute <= r < m * MsPerMinute + MsPerMinute;
  }

  /** 59 seconds is truncated to zero minutes, not rounded up. */
  lemma FiftyNineSecondsShowZero()
    ensures FormatDuration(59000) == "0h 0m"
  {
  }

  /** One hour, one minute and one second shows as "1h 1m". */
  lemma OneHourOneMinute()
    ensures FormatDuration(3661000) == "1h 1m"
  {
  }

  /** The placeholder is never confused with a rendered zero. */
  lemma ZeroIsPlaceholder()
    ensures FormatDuration(0) == "-"
    ensures FormatDuration(0) != "0h 0m"
  {
  }

  /** The text of a non-zero duration loses exactly the part below a whole
      minute: two such durations render alike iff their hours and minutes agree. */
  lemma FormatDurationDeterminesHoursMinutes(a: int, b: int)
    requires a != 0 && b != 0
    ensures FormatDuration(a) == FormatDuration(b) <==>
              Hours(a) == Hours(b) && Minutes(a) == Minutes(b)
  {
    var ha, hb := IntToString(Hours(a)), IntToString(Hours(b));
    var ma, mb := IntToString(Minutes(a)), IntToString(Minutes(b));
    var sa, sb := FormatDuration(a), FormatDuration(b);
    if sa == sb {
      assert sa[|ha|] == 'h';
      assert sb[|hb|] == 'h';
      assert ha == sa[..|ha|] && hb == sb[..|hb|];
      IntToStringInjective(Hours(a), Hours(b));
      assert ma == sa[|ha| + 2..|sa| - 1] && mb == sb[|hb| + 2..|sb| - 1];
      IntToStringInjective(Minutes(a), Minutes(b));
    }
  }
}
