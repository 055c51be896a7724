/** `calculateDuration`: the length of a trim range, from two `H:MM:SS`
    clock strings to a zero-padded `HH:MM:SS` string. */
module Duration {
  import opened Text

  /** The clock strings the model accepts: at least three `:`-separated
      fields, the first three made of decimal digits (an empty field reads as
      `Number("") == 0`, further fields are ignored, as in the source). */
  predicate WellFormedClock(t: string) {
    var f := Split(t, ':');
    |f| >= 3 && AllDigits(f[0]) && AllDigits(f[1]) && AllDigits(f[2])
  }

  /** `h * 3600 + m * 60 + s` of the first three fields. */
  function Seconds(t: string): nat
    requires WellFormedClock(t)
  {
    var f := Split(t, ':');
    Number(f[0]) * 3600 + Number(f[1]) * 60 + Number(f[2])
  }

  /** A clock field as written by `String(n).padStart(2, '0')`. */
  function Field(n: nat): string {
    PadStart(NatToString(n), 2)
  }

  /** A field reads back as its number and is two digits wide unless the
      number needs more. */
  lemma FieldReadsBack(n: nat)
    ensures AllDigits(Field(n)) && Number(Field(n)) == n
    ensures |Field(n)| == if n < 100 then 2 else |NatToString(n)|
  {
    var d := NatToString(n);
    var r := Field(n);
    assert r == Zeros(|r| - |d|) + d;
    NumberIgnoresLeadingZeros(|r| - |d|, d);
    NumberOfNatToString(n);
    NatToStringWidth(n);
  }

  lemma {:induction false} NatToStringWidth(n: nat)
    ensures |NatToString(n)| <= 2 <==> n < 100
  {
    if n >= 10 {
      NatToStringWidth(n / 10);
    }
  }

  /** `HH:MM:SS` from its three numbers. */
  function Render(h: nat, m: nat, s: nat): string {
    Field(h) + ":" + Field(m) + ":" + Field(s)
  }

  /** The duration from `startTime` to `endTime`. The source has no guard for
      an end before the start; the model requires the order instead. The
      result is again a clock string, and it reads back as the difference. */
  function CalculateDuration(startTime: string, endTime: string): (r: string)
    requires WellFormedClock(startTime) && WellFormedClock(endTime)
    requires Seconds(startTime) <= Seconds(endTime)
    ensures WellFormedClock(r) && Seconds(r) == Seconds(endTime) - Seconds(startTime)
  {
    var dur := Seconds(endTime) - Seconds(startTime);
    Decompose(dur);
    RenderParses(dur / 3600, (dur % 3600) / 60, dur % 60);
    FormatSeconds(dur)
  }

  /** `Math.floor(dur / 3600)`, `Math.floor((dur % 3600) / 60)` and `dur % 60`,
      rendered; for a non-negative `dur` JavaScript's truncating `%` and
      Dafny's Euclidean `%` agree. */
  function FormatSeconds(dur: nat): string {
    Render(dur / 3600, (dur % 3600) / 60, dur % 60)
  }

  /** Three digit fields joined by `:` split back into those three fields. */
  lemma SplitThree(a: string, b: string, c: string)
    requires AllDigits(a) && AllDigits(b) && AllDigits(c)
    ensures Split(a + ":" + b + ":" + c, ':') == [a, b, c]
  {
    DigitsHaveNoSeparator(a, ':');
    DigitsHaveNoSeparator(b, ':');
    DigitsHaveNoSeparator(c, ':');
    SplitWithoutSeparator(c, ':');
    SplitAtFirstSeparator(b, ':', c);
    assert a + ":" + b + ":" + c == a + [':'] + (b + [':'] + c);
    SplitAtFirstSeparator(a, ':', b + [':'] + c);
  }

  /** What `Render` writes, the clock parser reads back. */
  lemma RenderParses(h: nat, m: nat, s: nat)
    ensures Split(Render(h, m, s), ':') == [Field(h), Field(m), Field(s)]
    ensures Number(Field(h)) == h && Number(Field(m)) == m && Number(Field(s)) == s
    ensures |Field(m)| == 2 <== m < 100
    ensures |Field(s)| == 2 <== s < 100
    ensures |Field(h)| >= 2 && (|Field(h)| == 2 <==> h < 100)
    ensures WellFormedClock(Render(h, m, s))
    ensures Seconds(Render(h, m, s)) == h * 3600 + m * 60 + s
  {
    FieldReadsBack(h);
    FieldReadsBack(m);
    FieldReadsBack(s);
    SplitThree(Field(h), Field(m), Field(s));
  }

  /** Euclidean and truncating division agree on naturals: the three
      components recombine to the duration, minutes and seconds below 60. */
  lemma Decompose(dur: nat)
    ensures (dur % 3600) / 60 < 60 && dur % 60 < 60
    ensures (dur / 3600) * 3600 + ((dur % 3600) / 60) * 60 + dur % 60 == dur
  {
    assert dur == (dur / 3600) * 3600 + dur % 3600;
    assert dur % 3600 == ((dur % 3600) / 60) * 60 + (dur % 3600) % 60;
    assert (dur % 3600) % 60 == dur % 60 by {
      assert dur == ((dur / 3600) * 60 + (dur % 3600) / 60) * 60 + (dur % 3600) % 60;
    }
  }

  /** The result is again a clock string: three digit fields, minutes and
      seconds two digits each and below 60, hours at least two digits, and
      read back with the same parser it is exactly `endSec - startSec`. */
  lemma DurationIsDifference(startTime: string, endTime: string)
    requires WellFormedClock(startTime) && WellFormedClock(endTime)
    requires Seconds(startTime) <= Seconds(endTime)
    ensures var r := CalculateDuration(startTime, endTime);
            var f := Split(r, ':');
            && WellFormedClock(r)
            && |f| == 3
            && |f[0]| >= 2 && |f[1]| == 2 && |f[2]| == 2
            && Number(f[1]) < 60 && Number(f[2]) < 60
            && Seconds(r) == Seconds(endTime) - Seconds(startTime)
  {
    var dur := Seconds(endTime) - Seconds(startTime);
    var h, m, s := dur / 3600, (dur % 3600) / 60, dur % 60;
    DurationOfSeconds(startTime, endTime, dur);
    Decompose(dur);
    RenderParses(h, m, s);
  }

  /** `padStart` never truncates: the hours field has exactly two digits
      precisely when the duration is under 100 hours. */
  lemma HoursFieldWidth(startTime: string, endTime: string)
    requires WellFormedClock(startTime) && WellFormedClock(endTime)
    requires Seconds(startTime) <= Seconds(endTime)
    ensures |Split(CalculateDuration(startTime, endTime), ':')[0]| == 2
            <==> Seconds(endTime) - Seconds(startTime) < 100 * 3600
  {
    var dur := Seconds(endTime) - Seconds(startTime);
    DurationOfSeconds(startTime, endTime, dur);
    RenderParses(dur / 3600, (dur % 3600) / 60, dur % 60);
    if dur / 3600 >= 100 {
      NatToStringWidth(dur / 3600);
    }
  }

  /** Reads a literal clock string through `SplitThree`. */
  lemma ClockLiteral(t: string, a: string, b: string, c: string)
    requires AllDigits(a) && AllDigits(b) && AllDigits(c)
    requires t == a + ":" + b + ":" + c
    ensures WellFormedClock(t) && Seconds(t) == Number(a) * 3600 + Number(b) * 60 + Number(c)
  {
    SplitThree(a, b, c);
  }

  // The two worked examples. Each literal is evaluated in a lemma of its own,
  // which keeps the solver from unfolding all of them at once.

  lemma Clock0110() ensures WellFormedClock("00:01:10") && Seconds("00:01:10") == 70 {
    ClockLiteral("00:01:10", "00", "01", "10");
  }

  lemma Clock0205() ensures WellFormedClock("00:02:05") && Seconds("00:02:05") == 125 {
    ClockLiteral("00:02:05", "00", "02", "05");
  }

  lemma Clock1000() ensures WellFormedClock("01:00:00") && Seconds("01:00:00") == 3600 {
    ClockLiteral("01:00:00", "01", "00", "00");
  }

  lemma Clock23015() ensures WellFormedClock("02:30:15") && Seconds("02:30:15") == 9015 {
    ClockLiteral("02:30:15", "02", "30", "15");
  }

  lemma Format55() ensures FormatSeconds(55) == "00:00:55" {
    assert FormatSeconds(55) == Render(0, 0, 55);
    FieldLiterals();
    RenderLiteral("00", "00", "55", 0, 0, 55);
  }

  lemma Format5415() ensures FormatSeconds(5415) == "01:30:15" {
    assert 5415 / 3600 == 1 && (5415 % 3600) / 60 == 30 && 5415 % 60 == 15;
    FieldLiterals();
    RenderLiteral("01", "30", "15", 1, 30, 15);
  }

  /** Renders three numbers whose fields are known literals. */
  lemma RenderLiteral(a: string, b: string, c: string, h: nat, m: nat, s: nat)
    requires Field(h) == a && Field(m) == b && Field(s) == c
    ensures Render(h, m, s) == a + ":" + b + ":" + c
  {
  }

  lemma FieldLiterals()
    ensures Field(0) == "00" && Field(1) == "01" && Field(15) == "15"
    ensures Field(30) == "30" && Field(55) == "55"
  {
  }

  lemma DurationOfSeconds(startTime: string, endTime: string, dur: nat)
    requires WellFormedClock(startTime) && WellFormedClock(endTime)
    requires Seconds(endTime) - Seconds(startTime) == dur
    ensures CalculateDuration(startTime, endTime) == FormatSeconds(dur)
  {
  }

  lemma DurationExampleSeconds()
    ensures && WellFormedClock("00:01:10") && WellFormedClock("00:02:05")
            && Seconds("00:01:10") <= Seconds("00:02:05")
            && CalculateDuration("00:01:10", "00:02:05") == "00:00:55"
  {
    Clock0110();
    Clock0205();
    DurationOfSeconds("00:01:10", "00:02:05", 55);
    Format55();
  }

  lemma DurationExampleHours()
    ensures && WellFormedClock("01:00:00") && WellFormedClock("02:30:15")
            && Seconds("01:00:00") <= Seconds("02:30:15")
            && CalculateDuration("01:00:00", "02:30:15") == "01:30:15"
  {
    Clock1000();
    Clock23015();
    DurationOfSeconds("01:00:00", "02:30:15", 5415);
    Format5415();
  }
}
