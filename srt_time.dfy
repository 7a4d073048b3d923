/** The caption clock rendering `format_time` of processors/md2audio.py: a
    millisecond count becomes `HH:MM:SS,mmm`, with the hours taken from the
    seconds-within-the-day of a `timedelta`, so whole days are dropped. */
module SrtTime {
  import opened Text

  const MsPerDay: nat := 86_400_000

  /** Two zero-padded decimal digits, as the format spec `:02` writes a number below 100. */
  function Pad2(n: nat): (r: string)
    requires n < 100
    ensures |r| == 2 && IsDigit(r[0]) && IsDigit(r[1])
  {
    [DigitChar(n / 10), DigitChar(n % 10)]
  }

  /** Three zero-padded decimal digits, as `:03` writes a number below 1000. */
  function Pad3(n: nat): (r: string)
    requires n < 1000
    ensures |r| == 3 && IsDigit(r[0]) && IsDigit(r[1]) && IsDigit(r[2])
  {
    [DigitChar(n / 100), DigitChar(n / 10 % 10), DigitChar(n % 10)]
  }

  lemma ParsePad2(n: nat)
    requires n < 100
    ensures ParseNat(Pad2(n)) == n
  {
    var r := Pad2(n);
    assert r[..1][..0] == [];
    assert r[..1] == [r[0]];
    assert ParseNat(r[..1]) == n / 10;
    assert ParseNat(r) == ParseNat(r[..1]) * 10 + n % 10;
  }

  lemma ParsePad3(n: nat)
    requires n < 1000
    ensures ParseNat(Pad3(n)) == n
  {
    var r := Pad3(n);
    assert r[..2] == Pad2(n / 10);
    ParsePad2(n / 10);
  }

  /** The well-formed shape of a caption time stamp. */
  predicate IsStamp(s: string)
  {
    && |s| == 12 && s[2] == ':' && s[5] == ':' && s[8] == ','
    && IsDigit(s[0]) && IsDigit(s[1]) && IsDigit(s[3]) && IsDigit(s[4])
    && IsDigit(s[6]) && IsDigit(s[7]) && IsDigit(s[9]) && IsDigit(s[10]) && IsDigit(s[11])
  }

  /** The stamp `HH:MM:SS,mmm` of the given fields; it reads back to the
      milliseconds they make up. */
  function Stamp(h: nat, m: nat, sec: nat, milli: nat): (r: string)
    requires h < 100 && m < 100 && sec < 100 && milli < 1000
    ensures IsStamp(r) && ParseTime(r) == ((h * 60 + m) * 60 + sec) * 1000 + milli
  {
    var r := Pad2(h) + ":" + Pad2(m) + ":" + Pad2(sec) + "," + Pad3(milli);
    assert r[0..2] == Pad2(h);
    assert r[3..5] == Pad2(m);
    assert r[6..8] == Pad2(sec);
    assert r[9..12] == Pad3(milli);
    ParsePad2(h);
    ParsePad2(m);
    ParsePad2(sec);
    ParsePad3(milli);
    r
  }

  /** `format_time(ms)`: `td.seconds` is the second within the day, so the
      hour field is always below 24 and is written with two digits. */
  function FormatTime(ms: nat): (r: string)
    ensures IsStamp(r)
  {
    var daySeconds := ms / 1000 % 86400;
    var hours := daySeconds / 3600;
    var minutes := daySeconds % 3600 / 60;
    var seconds := daySeconds % 60;
    Stamp(hours, minutes, seconds, ms % 1000)
  }

  /** Reads a time stamp back to milliseconds; the partner of `FormatTime`. */
  function ParseTime(s: string): nat
    requires IsStamp(s)
  {
    ((ParseNat(s[0..2]) * 60 + ParseNat(s[3..5])) * 60 + ParseNat(s[6..8])) * 1000 + ParseNat(s[9..12])
  }

  lemma DayArithmetic(ms: nat)
    ensures var d := ms / 1000 % 86400;
      ms % MsPerDay == ((d / 3600 * 60 + d % 3600 / 60) * 60 + d % 60) * 1000 + ms % 1000
  {
    var q := ms / 1000;
    var d := q % 86400;
    assert ms == q * 1000 + ms % 1000;
    assert q == q / 86400 * 86400 + d;
    assert d == d / 3600 * 3600 + d % 3600 / 60 * 60 + d % 60;
    var k := q / 86400;
    assert ms == k * MsPerDay + (d * 1000 + ms % 1000);
    assert d * 1000 + ms % 1000 < MsPerDay;
  }

  /** The fields of a formatted stamp recompose to the time of day in milliseconds;
      below one day that is the input itself. */
  lemma ParseFormatTime(ms: nat)
    ensures ParseTime(FormatTime(ms)) == ms % MsPerDay
    ensures ms < MsPerDay ==> ParseTime(FormatTime(ms)) == ms
  {
    var d := ms / 1000 % 86400;
    var h, m, sec, milli := d / 3600, d % 3600 / 60, d % 60, ms % 1000;
    assert h < 24 && m < 60 && sec < 60 && milli < 1000;
    calc {
      ParseTime(FormatTime(ms));
      ParseTime(Stamp(h, m, sec, milli));
      ((h * 60 + m) * 60 + sec) * 1000 + milli;
    == { DayArithmetic(ms); }
      ms % MsPerDay;
    }
    if ms < MsPerDay {
      WithinDay(ms);
    }
  }

  lemma WithinDay(ms: nat)
    requires ms < MsPerDay
    ensures ms % MsPerDay == ms
  {
  }

  /** Two times a whole number of days apart print the same: the 24-hour wrap. */
  lemma FormatTimeDropsDays(ms: nat, days: nat)
    ensures FormatTime(ms + days * MsPerDay) == FormatTime(ms)
  {
    var n := ms + days * MsPerDay;
    assert n / 1000 % 86400 == ms / 1000 % 86400 && n % 1000 == ms % 1000 by {
      ShiftDays(ms, days);
    }
  }

  lemma ShiftDays(ms: nat, days: nat)
    ensures var n := ms + days * MsPerDay;
      n / 1000 % 86400 == ms / 1000 % 86400 && n % 1000 == ms % 1000
  {
    var n := ms + days * MsPerDay;
    var q, r := ms / 1000, ms % 1000;
    assert n == (q + days * 86400) * 1000 + r;
    assert n / 1000 == q + days * 86400;
    assert (q + days * 86400) % 86400 == q % 86400;
  }

  /** The milliseconds field is `ms % 1000` for every input. */
  lemma FormatTimeMillis(ms: nat)
    ensures ParseNat(FormatTime(ms)[9..12]) == ms % 1000
  {
    var d := ms / 1000 % 86400;
    assert FormatTime(ms) == Stamp(d / 3600, d % 3600 / 60, d % 60, ms % 1000);
    assert FormatTime(ms)[9..12] == Pad3(ms % 1000);
    ParsePad3(ms % 1000);
  }

  /** Formatting is one-to-one within a day, so distinct clock values below
      24 hours never print alike. */
  lemma FormatTimeInjective(a: nat, b: nat)
    requires a < MsPerDay && b < MsPerDay && FormatTime(a) == FormatTime(b)
    ensures a == b
  {
    ParseFormatTime(a);
    ParseFormatTime(b);
  }
}
