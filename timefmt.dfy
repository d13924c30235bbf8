/** The three `time.Time.Format` layouts the signer uses, on a UTC calendar
    reading of an instant, and parsers that read each rendering back. */
module TimeFormat {

  import opened Wrappers
  import opened GoStrings

  type Year = y: int | 0 <= y <= 9999
  type Month = m: int | 1 <= m <= 12 witness 1
  type Day = d: int | 1 <= d <= 31 witness 1
  type Hour = h: int | 0 <= h < 24
  type Minute = m: int | 0 <= m < 60
  type Second = s: int | 0 <= s < 60
  type Nanosecond = n: int | 0 <= n < 1_000_000_000

  /** What `t.UTC()` exposes to `Format`: the calendar fields of an instant. */
  datatype DateTime = DateTime(year: Year, month: Month, day: Day,
                               hour: Hour, minute: Minute, second: Second,
                               nanosecond: Nanosecond)

  /** The fields a layout without fractional seconds shows. */
  datatype Clock = Clock(year: nat, month: nat, day: nat, hour: nat, minute: nat, second: nat)

  function ClockOf(t: DateTime): Clock
  {
    Clock(t.year, t.month, t.day, t.hour, t.minute, t.second)
  }

  function Pow10(n: nat): (p: nat)
    ensures p >= 1
  {
    if n == 0 then 1 else 10 * Pow10(n - 1)
  }

  /** `x` in decimal, zero-padded on the left to exactly `width` digits
      (what the layout elements "2006", "01", "02", "15", "04", "05" and
      ".000" produce for values that fit). */
  function Digits(x: nat, width: nat): (r: string)
    ensures |r| == width && AllDigits(r)
    decreases width
  {
    if width == 0 then "" else Digits(x / 10, width - 1) + [DigitChar(x % 10)]
  }

  lemma {:induction false} ParseDigits(x: nat, width: nat)
    requires x < Pow10(width)
    ensures ParseNat(Digits(x, width)) == x
    decreases width
  {
    if width > 0 {
      var r := Digits(x, width);
      assert r[..width - 1] == Digits(x / 10, width - 1);
      assert x / 10 < Pow10(width - 1);
      ParseDigits(x / 10, width - 1);
    }
  }

  // ---------------------------------------------------------------------------
  // The layouts

  /** Three numbers, the first `width` digits wide and the others two, with
      `sep` between them: "20060102", "2006-01-02", "150405", "15:04:05". */
  function Triple(a: nat, width: nat, b: nat, c: nat, sep: string): string
  {
    Digits(a, width) + (sep + (Digits(b, 2) + (sep + Digits(c, 2))))
  }

  function DatePart(t: DateTime, sep: string): string
  {
    Triple(t.year, 4, t.month, t.day, sep)
  }

  function TimePart(t: DateTime, sep: string): string
  {
    Triple(t.hour, 2, t.minute, t.second, sep)
  }

  /** Layout "20060102". */
  function FormatShortDate(t: DateTime): string
  {
    DatePart(t, "")
  }

  /** Layout "20060102T150405Z" (the `x-amz-date` form): sixteen ASCII
      characters whose first eight are the short date, so `date[:8]` and the
      "20060102" layout agree. */
  function FormatBasic(t: DateTime): (r: string)
    ensures |r| == 16 && r[..8] == FormatShortDate(t)
    ensures IsAscii(r)
  {
    BasicAscii(t);
    DatePart(t, "") + ("T" + (TimePart(t, "") + "Z"))
  }

  /** Layout "2006-01-02T15:04:05.000Z": ".000" shows the milliseconds,
      truncated. */
  function FormatExpiration(t: DateTime): string
  {
    DatePart(t, "-") + ("T" + (TimePart(t, ":") + ("." + (Digits(t.nanosecond / 1_000_000, 3) + "Z"))))
  }

  // ---------------------------------------------------------------------------
  // Reading the layouts back

  /** Reads `Triple` back, field by field from the front. */
  function ParseTriple(s: string, width: nat, sep: string): Option<(nat, nat, nat)>
  {
    var k := |sep|;
    if |s| != width + 4 + 2 * k then None
    else
      var r1 := s[width..];
      var r2 := r1[k..];
      var r3 := r2[2..];
      var r4 := r3[k..];
      if AllDigits(s[..width]) && r1[..k] == sep && AllDigits(r2[..2]) && r3[..k] == sep && AllDigits(r4)
      then Some((ParseNat(s[..width]), ParseNat(r2[..2]), ParseNat(r4)))
      else None
  }

  lemma ParseTripleOf(a: nat, width: nat, b: nat, c: nat, sep: string)
    requires a < Pow10(width) && b < 100 && c < 100
    ensures ParseTriple(Triple(a, width, b, c, sep), width, sep) == Some((a, b, c))
  {
    ParseDigits(a, width);
    ParseDigits(b, 2);
    ParseDigits(c, 2);
  }

  /** Year, month and day of a "20060102" rendering. */
  function ParseShortDate(s: string): Option<(nat, nat, nat)>
  {
    if |s| == 8 && AllDigits(s) then Some((ParseNat(s[..4]), ParseNat(s[4..6]), ParseNat(s[6..]))) else None
  }

  function ParseBasic(s: string): Option<Clock>
  {
    if |s| != 16 then None
    else
      var r1 := s[8..];
      var r2 := r1[1..];
      if r1[0] == 'T' && r2[6..] == "Z" then
        match (ParseTriple(s[..8], 4, ""), ParseTriple(r2[..6], 2, ""))
        case (Some((y, mo, d)), Some((h, mi, se))) => Some(Clock(y, mo, d, h, mi, se))
        case _ => None
      else None
  }

  /** The clock fields and the milliseconds of an expiration string. */
  function ParseExpiration(s: string): Option<(Clock, nat)>
  {
    if |s| != 24 then None
    else
      var r1 := s[10..];
      var r2 := r1[1..];
      var r3 := r2[8..];
      var r4 := r3[1..];
      if r1[0] == 'T' && r3[0] == '.' && AllDigits(r4[..3]) && r4[3..] == "Z" then
        match (ParseTriple(s[..10], 4, "-"), ParseTriple(r2[..8], 2, ":"))
        case (Some((y, mo, d)), Some((h, mi, se))) => Some((Clock(y, mo, d, h, mi, se), ParseNat(r4[..3])))
        case _ => None
      else None
  }

  /** The `x-amz-date` rendering shows every field up to the second. */
  lemma ParseFormatBasic(t: DateTime)
    ensures ParseBasic(FormatBasic(t)) == Some(ClockOf(t))
  {
    ParseTripleOf(t.year, 4, t.month, t.day, "");
    ParseTripleOf(t.hour, 2, t.minute, t.second, "");
  }

  /** The short date shows the year, the month and the day. */
  lemma ParseFormatShortDate(t: DateTime)
    ensures ParseShortDate(FormatShortDate(t)) == Some((t.year as nat, t.month as nat, t.day as nat))
  {
    var s := FormatShortDate(t);
    assert s[..4] == Digits(t.year, 4);
    assert s[4..6] == Digits(t.month, 2);
    assert s[6..] == Digits(t.day, 2);
    ParseDigits(t.year, 4);
    ParseDigits(t.month, 2);
    ParseDigits(t.day, 2);
  }

  /** The expiration rendering shows every field and the milliseconds. */
  lemma ParseFormatExpiration(t: DateTime)
    ensures ParseExpiration(FormatExpiration(t)) == Some((ClockOf(t), t.nanosecond / 1_000_000))
  {
    ParseTripleOf(t.year, 4, t.month, t.day, "-");
    ParseTripleOf(t.hour, 2, t.minute, t.second, ":");
    ParseDigits(t.nanosecond / 1_000_000, 3);
  }

  /** The `x-amz-date` rendering is ASCII, so its byte view has one byte per
      character. */
  lemma BasicAscii(t: DateTime)
    ensures IsAscii(DatePart(t, "") + ("T" + (TimePart(t, "") + "Z")))
  {
    var s := DatePart(t, "") + ("T" + (TimePart(t, "") + "Z"));
    assert forall i :: 0 <= i < |s| && i != 8 && i != 15 ==> IsDigit(s[i]);
  }
}
