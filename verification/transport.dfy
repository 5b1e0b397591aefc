/** The pure transport helpers of the player screen: the `MM:SS` time label,
    the clamped relative seek of the skip buttons, and the file-name test that
    decides whether a video surface is attached. */
module Transport {
  import opened JavaInt
  import opened Wrappers

  // ---------------------------------------------------------------------------
  // Decimal rendering, as `String.format("%0Nd", n)` does it
  // ---------------------------------------------------------------------------

  function DigitChar(d: nat): char
    requires d < 10
  {
    ('0' as int + d) as char
  }

  predicate IsDigit(c: char) {
    '0' <= c <= '9'
  }

  function DigitValue(c: char): nat
    requires IsDigit(c)
  {
    c as int - '0' as int
  }

  /** The decimal digits of `n`, without leading zeros ("0" for zero). */
  function Digits(n: nat): (s: string)
    ensures |s| >= 1
    ensures forall i | 0 <= i < |s| :: IsDigit(s[i])
  {
    if n < 10 then [DigitChar(n)] else Digits(n / 10) + [DigitChar(n % 10)]
  }

  /** `s` padded on the left with '0' up to `width` characters. */
  function ZeroPad(s: string, width: nat): (r: string)
    decreases width - |s|
  {
    if |s| >= width then s else ZeroPad("0" + s, width)
  }

  /** Java's `%0<width>d`: a '-' sign for negatives, then the digits of the
      magnitude, zero-padded so that sign and digits together fill `width`. */
  function ZeroPadded(n: int, width: nat): string {
    if n < 0 then "-" + ZeroPad(Digits(-n), if width >= 1 then width - 1 else 0)
    else ZeroPad(Digits(n), width)
  }

  /** The value of a two-character digit string. */
  function TwoDigitValue(a: char, b: char): nat
    requires IsDigit(a) && IsDigit(b)
  {
    10 * DigitValue(a) + DigitValue(b)
  }

  /** `%02d` of a value below one hundred is its two decimal digits. */
  lemma TwoDigitsOf(n: nat)
    requires n < 100
    ensures var s := ZeroPadded(n, 2);
      |s| == 2 && IsDigit(s[0]) && IsDigit(s[1]) && TwoDigitValue(s[0], s[1]) == n
  {
    if n >= 10 {
      assert Digits(n) == Digits(n / 10) + [DigitChar(n % 10)];
      assert Digits(n / 10) == [DigitChar(n / 10)];
      assert ZeroPadded(n, 2) == [DigitChar(n / 10), DigitChar(n % 10)];
    } else {
      assert ZeroPad([DigitChar(n)], 2) == ZeroPad("0" + [DigitChar(n)], 2);
      assert ZeroPadded(n, 2) == ['0', DigitChar(n)];
    }
  }

  // ---------------------------------------------------------------------------
  // formatTime
  // ---------------------------------------------------------------------------

  /** The `(minutes, seconds)` fields of the label for `ms` milliseconds, with
      Java's truncating `/` and sign-keeping `%`. */
  function ClockFields(ms: int): (int, int) {
    (Rem(Div(ms, 1000 * 60), 60), Rem(Div(ms, 1000), 60))
  }

  /** The text of a time label: `%02d:%02d` of minutes and seconds. */
  function FormatTime(ms: Int32): string {
    var (minutes, seconds) := ClockFields(ms);
    ZeroPadded(minutes, 2) + ":" + ZeroPadded(seconds, 2)
  }

  /** Reads an `MM:SS` label back as `(minutes, seconds)`; `None` for any
      other shape. */
  function ParseClock(s: string): Option<(nat, nat)> {
    if |s| == 5 && s[2] == ':' && IsDigit(s[0]) && IsDigit(s[1]) && IsDigit(s[3]) && IsDigit(s[4])
    then Some((TwoDigitValue(s[0], s[1]), TwoDigitValue(s[3], s[4])))
    else None
  }

  lemma MulBounds(d: int, k: int)
    requires d > 0
    ensures k >= 1 ==> d * k >= d
    ensures k <= -1 ==> d * k <= -d
  {
  }

  /** Quotient and remainder are determined by the division identity. */
  lemma DivModUnique(t: int, d: int, q: int, r: int)
    requires d > 0 && 0 <= r < d && t == d * q + r
    ensures t / d == q && t % d == r
  {
    var q', r' := t / d, t % d;
    assert d * (q - q') == r' - r;
    MulBounds(d, q - q');
  }

  /** For non-negative input both fields lie in [0, 59], the minutes and
      seconds together are the whole seconds elapsed within the current hour,
      and the hours are dropped. */
  lemma ClockFieldsWithinHour(ms: int)
    requires ms >= 0
    ensures var (m, s) := ClockFields(ms);
      0 <= m < 60 && 0 <= s < 60 && m * 60 + s == (ms / 1000) % 3600
  {
    var t := ms / 1000;
    var h, w := t / 3600, t % 3600;
    var a, b := w / 60, w % 60;
    assert t == 3600 * h + 60 * a + b;
    DivModUnique(t, 60, 60 * h + a, b);
    DivModUnique(60 * h + a, 60, h, a);
    DivModUnique(ms, 60000, 60 * h + a, 1000 * b + ms % 1000);
  }

  /** A label for a non-negative time is exactly five characters, two zero-
      padded digits, ':' and two zero-padded digits, and it reads back as the
      minutes and seconds of the current hour. */
  lemma FormatTimeReadsBack(ms: Int32)
    requires ms >= 0
    ensures var text := FormatTime(ms);
      |text| == 5 && text[2] == ':' &&
      ParseClock(text) == Some(((ms / 60000) % 60, (ms / 1000) % 60))
    ensures match ParseClock(FormatTime(ms))
      case Some((m, s)) => m < 60 && s < 60 && m * 60 + s == (ms / 1000) % 3600
      case None => false
  {
    ClockFieldsWithinHour(ms);
    var (m, s) := ClockFields(ms);
    TwoDigitsOf(m);
    TwoDigitsOf(s);
  }

  /** Adding a whole hour does not change the label. */
  lemma FormatTimeDropsHours(ms: Int32)
    requires ms >= 0 && InRange(ms + 3_600_000)
    ensures FormatTime(ms + 3_600_000) == FormatTime(ms)
  {
    var t := ms / 1000;
    DivModUnique(ms + 3_600_000, 1000, t + 3600, ms % 1000);
    DivModUnique(ms + 3_600_000, 60000, ms / 60000 + 60, ms % 60000);
    DivModUnique(t + 3600, 60, t / 60 + 60, t % 60);
    DivModUnique(ms / 60000 + 60, 60, ms / 60000 / 60 + 1, (ms / 60000) % 60);
  }

  /** For negative input Java truncates toward zero, so each field is the
      negation of the field for the magnitude: -65000 ms shows "-1:-5", and
      anything above -1000 ms shows "00:00". */
  lemma NegativeFieldsMirror(ms: int)
    requires ms < 0
    ensures ClockFields(ms) == (-ClockFields(-ms).0, -ClockFields(-ms).1)
    ensures ms > -1000 ==> ClockFields(ms) == (0, 0)
  {
  }

  // ---------------------------------------------------------------------------
  // seekRelative
  // ---------------------------------------------------------------------------

  function Max(a: int, b: int): int { if a >= b then a else b }
  function Min(a: int, b: int): int { if a <= b then a else b }
  function Dist(a: int, b: int): nat { if a >= b then a - b else b - a }

  /** The position the skip buttons seek to: the `int` sum of the current
      position and the offset, capped by the duration and then floored at 0. */
  function SeekTarget(position: Int32, duration: Int32, delta: Int32): (target: Int32)
    ensures target >= 0
    ensures duration >= 0 ==> target <= duration
    ensures duration < 0 ==> target == 0
  {
    Max(0, Min(Wrap(position + delta), duration))
  }

  /** Without overflow, the target is the point of [0, duration] closest to
      `position + delta`: an in-range target is kept, an out-of-range one is
      clamped, never rejected. */
  lemma SeekIsNearest(position: Int32, duration: Int32, delta: Int32, y: int)
    requires InRange(position + delta)
    requires 0 <= y <= duration
    ensures Dist(SeekTarget(position, duration, delta), position + delta) <= Dist(y, position + delta)
    ensures 0 <= position + delta <= duration ==> SeekTarget(position, duration, delta) == position + delta
  {
  }

  /** The two worked examples of the skip buttons: back 10 s from 5 s of a
      60 s file lands on 0, forward 10 s from 55 s lands on 60 s. */
  lemma SkipExamples()
    ensures SeekTarget(5000, 60000, -10000) == 0
    ensures SeekTarget(55000, 60000, 10000) == 60000
  {
  }

  /** The sum is a 32-bit `int`: skipping forward within 10 s of the largest
      `int` wraps to a negative sum, and the seek goes to 0 whatever the
      duration, instead of to the end. */
  lemma SkipForwardWrapsNearIntMax(position: Int32, duration: Int32)
    requires position > IntMax - 10000
    ensures Wrap(position + 10000) == position + 10000 - 0x1_0000_0000 < 0
    ensures SeekTarget(position, duration, 10000) == 0
  {
    var r: int := position + 10000 - 0x8000_0000;
    assert InRange(position) && position <= 0x7fff_ffff;
    assert 0 <= r < 10000;
    DivModUnique(position + 10000 - IntMin, 0x1_0000_0000, 1, r);
  }

  // ---------------------------------------------------------------------------
  // The video-surface test in playMedia
  // ---------------------------------------------------------------------------

  /** Java's `String.endsWith`: an exact, case-sensitive suffix comparison. */
  predicate EndsWith(s: string, suffix: string) {
    |suffix| <= |s| && s[|s| - |suffix|..] == suffix
  }

  /** `s` ends with `suffix` exactly when it is some string followed by it. */
  lemma EndsWithIffConcat(s: string, suffix: string)
    ensures EndsWith(s, suffix) <==> exists p :: s == p + suffix
  {
    if EndsWith(s, suffix) {
      assert s == s[..|s| - |suffix|] + suffix;
    }
    if exists p :: s == p + suffix {
      var p :| s == p + suffix;
      assert s[|p|..] == suffix;
    }
  }

  /** A display surface is attached only for paths ending in ".mp4" or ".mkv". */
  predicate IsVideoPath(path: string) {
    EndsWith(path, ".mp4") || EndsWith(path, ".mkv")
  }

  /** Any name followed by ".mp4" or ".mkv" is a video path, and a path is a
      video path only if it has one of those two endings, letter for letter:
      "clip.MP4" is not one. */
  lemma VideoPathsAreExactlyTheTwoSuffixes(path: string)
    ensures IsVideoPath(path) <==>
      (exists p :: path == p + ".mp4") || (exists p :: path == p + ".mkv")
    ensures !IsVideoPath("clip.MP4") && !IsVideoPath("clip.Mkv")
  {
    EndsWithIffConcat(path, ".mp4");
    EndsWithIffConcat(path, ".mkv");
    assert "clip.MP4"[4..] != ".mp4" by { assert "clip.MP4"[4..][1] == 'M'; }
    assert "clip.Mkv"[4..] != ".mkv" by { assert "clip.Mkv"[4..][1] == 'M'; }
  }
}
