/** The `hhmmss.ss` timestamp the back seat stamps on every status and motion
    message: `strftime('%H%M%S.%f')` with the last four characters cut off. The
    conversion of the epoch clock to local wall-clock fields is not modelled;
    the fields are the input. */
module Timestamp {
  import opened Text

  type Hour = h: int | 0 <= h < 24
  type Minute = m: int | 0 <= m < 60
  type Second = s: int | 0 <= s < 60
  type Micro = u: int | 0 <= u < 1000000

  datatype WallTime = WallTime(hour: Hour, minute: Minute, second: Second, micro: Micro)

  /** `strftime('%H%M%S.%f')`: two-digit hour, minute and second, a point, and
      six-digit microseconds, all zero-padded. */
  function Strftime(t: WallTime): (r: string)
    ensures |r| == 13
  {
    Pad(t.hour, 2) + Pad(t.minute, 2) + Pad(t.second, 2) + "." + Pad(t.micro, 6)
  }

  /** `strftime('%H%M%S.%f')[:-4]`. */
  function Hhmmss(t: WallTime): (r: string)
    ensures |r| == 9
  {
    var s := Strftime(t);
    s[..|s| - 4]
  }

  /** The hundredths of a second a timestamp shows: the microseconds with the
      last four digits dropped, so truncated and never rounded up. */
  function Hundredths(t: WallTime): (r: nat)
    ensures r < 100
    ensures r * 10000 <= t.micro < r * 10000 + 10000
  {
    t.micro / 10000
  }

  /** The timestamp is nine characters: hour, minute and second as two decimal
      digits each, a point, then the hundredths as two decimal digits. */
  lemma HhmmssFields(t: WallTime)
    ensures var s := Hhmmss(t);
      && |s| == 9 && s[6] == '.'
      && AllDigits(s[0..2]) && Value(s[0..2]) == t.hour
      && AllDigits(s[2..4]) && Value(s[2..4]) == t.minute
      && AllDigits(s[4..6]) && Value(s[4..6]) == t.second
      && AllDigits(s[7..9]) && Value(s[7..9]) == Hundredths(t)
  {
    var s := Hhmmss(t);
    HhmmssLayout(t);
    assert s[0..2] == Pad(t.hour, 2);
    assert s[2..4] == Pad(t.minute, 2);
    assert s[4..6] == Pad(t.second, 2);
    assert s[7..9] == Pad(Hundredths(t), 2);
    PadValue(t.hour, 2);
    PadValue(t.minute, 2);
    PadValue(t.second, 2);
    PadValue(Hundredths(t), 2);
  }

  lemma DropFourDigits(u: nat)
    ensures DropDigits(u, 4) == u / 10000
  {
    var u1, u2, u3 := u / 10, u / 10 / 10, u / 10 / 10 / 10;
    var u4 := u3 / 10;
    assert DropDigits(u, 4) == DropDigits(u1, 3) == DropDigits(u2, 2) == DropDigits(u3, 1) == u4;
    assert u == 10000 * u4 + (1000 * (u3 % 10) + 100 * (u2 % 10) + 10 * (u1 % 10) + u % 10);
  }

  /** Cutting four characters off the six microsecond digits leaves the
      two-digit padding of the hundredths. */
  lemma HhmmssLayout(t: WallTime)
    ensures Hhmmss(t) == Pad(t.hour, 2) + Pad(t.minute, 2) + Pad(t.second, 2) + "." + Pad(Hundredths(t), 2)
  {
    PadPrefix(t.micro, 2, 4);
    DropFourDigits(t.micro);
    var s := Strftime(t);
    assert s[..9] == Pad(t.hour, 2) + Pad(t.minute, 2) + Pad(t.second, 2) + "." + Pad(t.micro, 6)[..2];
  }

  /** Two wall-clock times print the same timestamp exactly when they agree on
      hour, minute, second and hundredths. */
  lemma HhmmssEqual(t1: WallTime, t2: WallTime)
    ensures Hhmmss(t1) == Hhmmss(t2) <==>
      t1.hour == t2.hour && t1.minute == t2.minute && t1.second == t2.second
      && Hundredths(t1) == Hundredths(t2)
  {
    HhmmssFields(t1);
    HhmmssFields(t2);
    HhmmssLayout(t1);
    HhmmssLayout(t2);
  }
}
