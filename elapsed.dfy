/**
 * The connection timer of the browser client: the milliseconds elapsed since
 * the NATS connection was made, shown as `HH:MM:SS` with every field padded
 * to at least two digits.
 */
module Elapsed {

  import opened Js

  /** JavaScript's `%`: the remainder takes the sign of the dividend. */
  function JsRem(a: int, n: int): (r: int)
    requires n > 0
    ensures a >= 0 ==> 0 <= r < n && r == a % n
    ensures a < 0 ==> -n < r <= 0
  {
    if a >= 0 then a % n else -((-a) % n)
  }

  /** `Math.floor(x / n)` for a positive divisor: Dafny's `/` already rounds down. */
  function FloorDiv(x: int, n: int): (q: int)
    requires n > 0
    ensures q * n <= x < q * n + n
  {
    x / n
  }

  datatype Clock = Clock(hours: int, minutes: int, seconds: int)

  /** The three fields the timer computes from `elapsed` milliseconds. */
  function ClockOf(elapsed: int): (c: Clock)
    ensures elapsed >= 0 ==>
      && c.hours >= 0 && 0 <= c.minutes < 60 && 0 <= c.seconds < 60
      && c.hours * 3600 + c.minutes * 60 + c.seconds == elapsed / 1000
  {
    var c := Clock(FloorDiv(elapsed, 3600000),
                   FloorDiv(JsRem(elapsed, 3600000), 60000),
                   FloorDiv(JsRem(elapsed, 60000), 1000));
    if elapsed >= 0 then ClockFields(elapsed); c else c
  }

  lemma ClockFields(elapsed: nat)
    ensures var h, m, s := elapsed / 3600000, (elapsed % 3600000) / 60000, (elapsed % 60000) / 1000;
      0 <= m < 60 && 0 <= s < 60 && h * 3600 + m * 60 + s == elapsed / 1000
  {
    var h, hr := elapsed / 3600000, elapsed % 3600000;
    var m, mr := hr / 60000, hr % 60000;
    var s, sr := mr / 1000, mr % 1000;
    assert hr == m * 60000 + mr;
    DivModUnique(elapsed, 60000, h * 60 + m, mr);
    assert elapsed == (h * 3600 + m * 60 + s) * 1000 + sr;
    DivModUnique(elapsed, 1000, h * 3600 + m * 60 + s, sr);
  }

  /** The quotient and remainder are the only ones with the remainder in range. */
  lemma DivModUnique(x: int, d: int, q: int, r: int)
    requires d > 0 && 0 <= r < d && x == q * d + r
    ensures x / d == q && x % d == r
  {
    var q', r' := x / d, x % d;
    assert (q - q') * d == r' - r;
    if q > q' {
      MulAtLeast(q - q', d);
    } else if q < q' {
      MulAtLeast(q' - q, d);
    }
  }

  lemma MulAtLeast(k: int, d: int)
    requires k >= 1 && d > 0
    ensures k * d >= d
  {
  }

  /** `n.toString().padStart(2, '0')`. */
  function Pad2(n: int): (r: string)
    ensures n >= 0 ==> |r| >= 2 && AllDigitsIn(r, 10) && DigitsValue(r, 10) == n
    ensures 0 <= n < 100 ==> |r| == 2
    ensures n >= 10 ==> r == NatToString(n, 10)
  {
    var r := PadStart(IntToString(n), 2, '0');
    if n < 0 then r
    else
      PadStartValue(NatToString(n, 10), 2, 10);
      if n < 10 || n >= 100 then r
      else
        assert NatToString(n / 10, 10) == [DigitChar(n / 10)];
        r
  }

  /**
   * The text of the connection-time element. For a non-negative elapsed time
   * it is `H:MM:SS` with two-digit minutes and seconds and at least two hour
   * digits, the colons at their fixed places from the end.
   */
  function FormatElapsed(elapsed: int): (r: string)
    ensures elapsed >= 0 ==> IsClockText(r)
  {
    ShowClock(ClockOf(elapsed))
  }

  /** Digits with a colon before the last two pairs, at least two of them before the first colon. */
  predicate IsClockText(r: string) {
    && |r| >= 8 && r[|r| - 6] == ':' && r[|r| - 3] == ':'
    && forall i :: 0 <= i < |r| && i != |r| - 6 && i != |r| - 3 ==> IsDigitIn(r[i], 10)
  }

  /** The three fields padded and joined with colons. */
  function ShowClock(c: Clock): (r: string)
    ensures c.hours >= 0 && 0 <= c.minutes < 100 && 0 <= c.seconds < 100 ==> IsClockText(r)
  {
    var h, m, s := Pad2(c.hours), Pad2(c.minutes), Pad2(c.seconds);
    if c.hours >= 0 && 0 <= c.minutes < 100 && 0 <= c.seconds < 100 then
      JoinedDigits(h, m, s);
      h + ":" + m + ":" + s
    else h + ":" + m + ":" + s
  }

  /**
   * `r` reads back as the clock `c`: the last two colon-separated fields are
   * exactly two digits each, the hours field at least two, and each field's
   * digits denote the clock's value.
   */
  predicate ReadsBackAs(r: string, c: Clock) {
    && |r| >= 8 && r[|r| - 6] == ':' && r[|r| - 3] == ':'
    && AllDigitsIn(r[..|r| - 6], 10) && AllDigitsIn(r[|r| - 5..|r| - 3], 10) && AllDigitsIn(r[|r| - 2..], 10)
    && DigitsValue(r[..|r| - 6], 10) == c.hours
    && DigitsValue(r[|r| - 5..|r| - 3], 10) == c.minutes
    && DigitsValue(r[|r| - 2..], 10) == c.seconds
  }

  /**
   * For a non-negative elapsed time the text reads back as the clock, whose
   * fields together give the whole seconds elapsed.
   */
  lemma FormatElapsedReadBack(elapsed: int)
    requires elapsed >= 0
    ensures ReadsBackAs(FormatElapsed(elapsed), ClockOf(elapsed))
  {
    var c := ClockOf(elapsed);
    ShowClockReadBack(c);
    assert FormatElapsed(elapsed) == ShowClock(c);
  }

  lemma ShowClockReadBack(c: Clock)
    requires c.hours >= 0 && 0 <= c.minutes < 60 && 0 <= c.seconds < 60
    ensures ReadsBackAs(ShowClock(c), c)
  {
    var h, m, s := Pad2(c.hours), Pad2(c.minutes), Pad2(c.seconds);
    assert ShowClock(c) == h + ":" + m + ":" + s;
    JoinedFields(h, m, s);
  }

  /** Where the fields sit in `h:m:s` when the last two are two characters wide. */
  lemma JoinedFields(h: string, m: string, s: string)
    requires |m| == 2 && |s| == 2
    ensures var r := h + ":" + m + ":" + s;
      && |r| == |h| + 6 && r[|r| - 6] == ':' && r[|r| - 3] == ':'
      && r[..|r| - 6] == h && r[|r| - 5..|r| - 3] == m && r[|r| - 2..] == s
  {
    var r := h + ":" + m + ":" + s;
    assert r[..|r| - 6] == h;
    assert r[|r| - 5..|r| - 3] == m;
    assert r[|r| - 2..] == s;
  }

  /** Every character of `h:m:s` but the two colons is a digit when the fields are digits. */
  lemma JoinedDigits(h: string, m: string, s: string)
    requires |h| >= 2 && |m| == 2 && |s| == 2 && AllDigitsIn(h, 10) && AllDigitsIn(m, 10) && AllDigitsIn(s, 10)
    ensures IsClockText(h + ":" + m + ":" + s)
  {
    var r := h + ":" + m + ":" + s;
    forall i | 0 <= i < |r| && i != |r| - 6 && i != |r| - 3
      ensures IsDigitIn(r[i], 10)
    {
      if i < |h| {
        assert r[i] == h[i];
      } else if i < |h| + 3 {
        assert r[i] == m[i - |h| - 1];
      } else {
        assert r[i] == s[i - |h| - 4];
      }
    }
  }

  /** The hours field takes exactly two digits for the first hundred hours. */
  lemma FormatElapsedWidth(elapsed: int)
    requires elapsed >= 0
    ensures |FormatElapsed(elapsed)| == 8 <==> elapsed < 360000000
  {
    var c := ClockOf(elapsed);
    var ph := Pad2(c.hours);
    assert |FormatElapsed(elapsed)| == |ph| + 6;
    assert elapsed < 360000000 <==> c.hours < 100;
    if c.hours >= 100 && |ph| <= 2 {
      ShortDigits(ph);
    }
  }

  /** Two decimal digits denote less than 100. */
  lemma {:induction false} ShortDigits(s: string)
    requires AllDigitsIn(s, 10) && |s| <= 2
    ensures DigitsValue(s, 10) < 100
  {
    if s != [] {
      assert AllDigitsIn(s[..|s| - 1], 10);
      ShortDigits(s[..|s| - 1]);
      if |s| == 2 {
        assert s[..1][..0] == [];
        assert DigitsValue(s[..1], 10) < 10;
      }
    }
  }
}
