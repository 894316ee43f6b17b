/**
 * Local clock readings of an instant: the minute of the day, the packed
 * number that `Number(format(date, 'Hmm'))` gives (hours times 100 plus
 * minutes), and the four-digit text of `format(date, 'HHmm')`.
 */
module Clock {

  const MsPerMinute := 60000
  const MsPerHour := 60 * MsPerMinute
  const MinutesPerDay := 1440
  const MsPerDay := 86400000

  /**
   * The minute of the local day in which instant `t` falls, counted from the
   * local midnight `midnight` (all in milliseconds).
   */
  function MinuteOfDay(t: int, midnight: int): (m: int)
    ensures 0 <= m < MinutesPerDay
  {
    ((t - midnight) / MsPerMinute) % MinutesPerDay
  }

  /** Within the day that starts at `midnight`, `MinuteOfDay` is the whole minutes elapsed since midnight. */
  lemma {:induction false} MinuteOfDayWithinDay(t: int, midnight: int)
    requires midnight <= t < midnight + MsPerDay
    ensures var m := MinuteOfDay(t, midnight);
      m * MsPerMinute <= t - midnight < m * MsPerMinute + MsPerMinute
  {
    var d := t - midnight;
    assert 0 <= d / MsPerMinute < MinutesPerDay;
  }

  /** Within one day, a later instant never has an earlier minute. */
  lemma {:induction false} MinuteOfDayMonotone(t: int, u: int, midnight: int)
    requires midnight <= t <= u < midnight + MsPerDay
    ensures MinuteOfDay(t, midnight) <= MinuteOfDay(u, midnight)
  {
    MinuteOfDayWithinDay(t, midnight);
    MinuteOfDayWithinDay(u, midnight);
  }

  /** The packed clock `H * 100 + mm` of a minute of the day. */
  function Packed(m: int): (p: int)
    requires 0 <= m < MinutesPerDay
    ensures 0 <= p < 2400 && p % 100 < 60
  {
    (m / 60) * 100 + m % 60
  }

  /** The minute of the day a packed clock stands for. */
  function Unpacked(p: int): int {
    (p / 100) * 60 + p % 100
  }

  /** Packing is a bijection between minutes of the day and the packed clocks with 00..59 minutes. */
  lemma {:induction false} PackedRoundTrip(m: int, p: int)
    requires 0 <= m < MinutesPerDay
    requires 0 <= p < 2400 && p % 100 < 60
    ensures Unpacked(Packed(m)) == m
    ensures 0 <= Unpacked(p) < MinutesPerDay && Packed(Unpacked(p)) == p
  {
    var h, mm := m / 60, m % 60;
    assert Packed(m) == h * 100 + mm;
    assert (h * 100 + mm) / 100 == h && (h * 100 + mm) % 100 == mm;
    var ph, pm := p / 100, p % 100;
    assert Unpacked(p) == ph * 60 + pm;
    assert (ph * 60 + pm) / 60 == ph && (ph * 60 + pm) % 60 == pm;
  }

  /** Packing keeps the order of minutes, in both directions. */
  lemma {:induction false} PackedOrder(m1: int, m2: int)
    requires 0 <= m1 < MinutesPerDay && 0 <= m2 < MinutesPerDay
    ensures m1 < m2 <==> Packed(m1) < Packed(m2)
  {
    var h1, h2 := m1 / 60, m2 / 60;
    if m1 < m2 {
      assert h1 <= h2;
      if h1 < h2 {
        assert Packed(m1) <= h1 * 100 + 59 < h2 * 100 <= Packed(m2);
      }
    } else {
      assert h2 <= h1;
      if h2 < h1 {
        assert Packed(m2) <= h2 * 100 + 59 < h1 * 100 <= Packed(m1);
      }
    }
  }

  /**
   * Packed clocks are not proportional to time: the minute before each full
   * hour spans 41 units, every other minute one.
   */
  lemma {:induction false} PackedStep(m: int)
    requires 0 <= m && m + 1 < MinutesPerDay
    ensures Packed(m + 1) - Packed(m) == if (m + 1) % 60 == 0 then 41 else 1
  {
    if (m + 1) % 60 == 0 {
      assert (m + 1) / 60 == m / 60 + 1 && m % 60 == 59;
    } else {
      assert (m + 1) / 60 == m / 60 && (m + 1) % 60 == m % 60 + 1;
    }
  }

  /** A decimal digit. */
  function Digit(d: int): char
    requires 0 <= d < 10
  {
    ('0' as int + d) as char
  }

  /** A number below 100, zero-padded to two digits. */
  function TwoDigits(n: int): (s: string)
    requires 0 <= n < 100
    ensures |s| == 2
  {
    [Digit(n / 10), Digit(n % 10)]
  }

  /** A number below 10000, zero-padded to four digits. */
  function Pad4(n: int): (s: string)
    requires 0 <= n < 10000
    ensures |s| == 4
  {
    TwoDigits(n / 100) + TwoDigits(n % 100)
  }

  /** The value of a string of decimal digits, as `Number` reads it. */
  function DigitsValue(s: string): int {
    if s == [] then 0 else DigitsValue(s[..|s| - 1]) * 10 + (s[|s| - 1] as int - '0' as int)
  }

  /** `format(date, 'HHmm')` for a minute of the day: two-digit hour, two-digit minute. */
  function HHmm(m: int): (s: string)
    requires 0 <= m < MinutesPerDay
    ensures |s| == 4
  {
    TwoDigits(m / 60) + TwoDigits(m % 60)
  }

  /** Reading the zero-padded text back gives the number it pads. */
  lemma {:induction false} Pad4Value(n: int)
    requires 0 <= n < 10000
    ensures DigitsValue(Pad4(n)) == n
  {
    var a, b := n / 100, n % 100;
    var s := Pad4(n);
    assert s == [Digit(a / 10), Digit(a % 10), Digit(b / 10), Digit(b % 10)];
    assert s[..3][..2][..1][..0] == [];
    assert DigitsValue(s[..3][..2][..1]) == a / 10;
    assert DigitsValue(s[..3][..2]) == a;
    assert DigitsValue(s[..3]) == a * 10 + b / 10;
  }

  /** The `HHmm` text is the packed clock zero-padded to four digits, so both read as the same number. */
  lemma {:induction false} HHmmIsPackedText(m: int)
    requires 0 <= m < MinutesPerDay
    ensures HHmm(m) == Pad4(Packed(m))
    ensures DigitsValue(HHmm(m)) == Packed(m)
  {
    var p := Packed(m);
    assert p / 100 == m / 60 && p % 100 == m % 60;
    Pad4Value(p);
  }

  /** `text.endsWith('00')`. */
  predicate EndsWith00(text: string) {
    |text| >= 2 && text[|text| - 2..] == "00"
  }

  /** The `HHmm` text ends in "00" exactly at full hours. */
  lemma {:induction false} EndsWith00AtFullHour(m: int)
    requires 0 <= m < MinutesPerDay
    ensures EndsWith00(HHmm(m)) <==> m % 60 == 0
  {
    var mm := m % 60;
    assert HHmm(m)[2..] == TwoDigits(mm);
    if EndsWith00(HHmm(m)) {
      assert Digit(mm / 10) == '0' && Digit(mm % 10) == '0';
      assert mm / 10 == 0 && mm % 10 == 0;
    }
  }
}
