/**
 * `formatDuration` of server.js: a length in seconds as `m:ss`, minutes
 * unpadded, seconds padded to two digits; a non-finite value counts as 0.
 */
module Duration {
  import opened Opt
  import Text

  /** A duration in whole seconds, or a value `Number.isFinite` rejects (NaN). */
  datatype Seconds = Finite(n: nat) | NotFinite

  /** The `ss` part: `String(secs).padStart(2, '0')`. */
  function TwoDigits(secs: nat): (r: string)
    requires secs < 60
    ensures |r| == 2 && Text.AllDigits(r)
  {
    var d := Text.NatToString(secs);
    if secs < 10 then
      assert |d| == 1;
      Text.PadStart(d, 2, '0')
    else
      assert |Text.NatToString(secs / 10)| == 1;
      Text.PadStart(d, 2, '0')
  }

  lemma TwoDigitsValue(secs: nat)
    requires secs < 60
    ensures Text.DigitsValue(TwoDigits(secs)) == secs
  {
    var d := Text.NatToString(secs);
    Text.DigitsValueOfNatToString(secs);
    if secs < 10 {
      var r := TwoDigits(secs);
      assert r == ['0'] + d;
      assert r[..1] == ['0'];
    } else {
      assert |Text.NatToString(secs / 10)| == 1;
    }
  }

  /** `m:ss`: at least one digit of minutes, a colon, exactly two digits of seconds. */
  predicate IsClockLabel(r: string) {
    |r| >= 4 && r[|r| - 3] == ':' && Text.AllDigits(r[..|r| - 3]) && Text.AllDigits(r[|r| - 2..])
  }

  /** The two sides of `m + ":" + ss` can be read back from its end. */
  lemma ColonJoin(m: string, ss: string)
    requires |m| >= 1 && |ss| == 2
    ensures var r := m + ":" + ss;
      |r| >= 4 && r[..|r| - 3] == m && r[|r| - 3] == ':' && r[|r| - 2..] == ss
    ensures Text.AllDigits(m) && Text.AllDigits(ss) ==> IsClockLabel(m + ":" + ss)
  {
    var r := m + ":" + ss;
    assert r == m + ([':'] + ss);
  }

  /** `${mins}:${ss}` for a whole number of seconds. */
  function Clock(total: nat): (r: string)
    ensures IsClockLabel(r)
  {
    var mins, secs := Text.NatToString(total / 60), TwoDigits(total % 60);
    ColonJoin(mins, secs);
    mins + ":" + secs
  }

  /** `formatDuration(seconds)`: an `m:ss` label, the one for 0 seconds when the value is not finite. */
  function FormatDuration(seconds: Seconds): (text: string)
    ensures IsClockLabel(text)
  {
    Clock(if seconds.Finite? then seconds.n else 0)
  }

  /** Reads an `m:ss` label back into seconds; None if it is not one. */
  function ParseDuration(text: string): Option<nat> {
    if IsClockLabel(text) && Text.DigitsValue(text[|text| - 2..]) < 60
    then Some(Text.DigitsValue(text[..|text| - 3]) * 60 + Text.DigitsValue(text[|text| - 2..]))
    else None
  }

  /** The text always reads back as the number of seconds it was made from. */
  lemma FormatParseRoundTrip(n: nat)
    ensures ParseDuration(FormatDuration(Finite(n))) == Some(n)
  {
    var q, r := n / 60, n % 60;
    ClockParts(n);
    LabelReadsBack(q, r);
  }

  /** The label of `total` seconds is its minutes, a colon and its padded seconds. */
  lemma ClockParts(total: nat)
    ensures FormatDuration(Finite(total)) == Text.NatToString(total / 60) + ":" + TwoDigits(total % 60)
    ensures total == (total / 60) * 60 + total % 60 && total % 60 < 60
  {
  }

  /** `q` minutes and `r` seconds read back as `q * 60 + r` seconds. */
  lemma LabelReadsBack(q: nat, r: nat)
    requires r < 60
    ensures ParseDuration(Text.NatToString(q) + ":" + TwoDigits(r)) == Some(q * 60 + r)
  {
    Text.DigitsValueOfNatToString(q);
    TwoDigitsValue(r);
    ParseJoined(Text.NatToString(q), TwoDigits(r), q, r);
  }

  /** A label built from minute digits and two second digits below 60 reads back as their value. */
  lemma ParseJoined(m: string, ss: string, mins: nat, secs: nat)
    requires |m| >= 1 && |ss| == 2 && Text.AllDigits(m) && Text.AllDigits(ss)
    requires Text.DigitsValue(m) == mins && Text.DigitsValue(ss) == secs && secs < 60
    ensures ParseDuration(m + ":" + ss) == Some(mins * 60 + secs)
  {
    ColonJoin(m, ss);
  }

  /** A value that is not a finite number is shown as `0:00`. */
  lemma NotFiniteIsZero()
    ensures FormatDuration(NotFinite) == FormatDuration(Finite(0))
    ensures ParseDuration(FormatDuration(NotFinite)) == Some(0)
  {
    FormatParseRoundTrip(0);
  }

  /** The two digits of `ss` are the tens and the units of the seconds. */
  lemma TwoDigitsLayout(secs: nat)
    requires secs < 60
    ensures TwoDigits(secs) == [Text.DigitChar(secs / 10), Text.DigitChar(secs % 10)]
  {
    var d := Text.NatToString(secs);
    if secs < 10 {
      Text.SingleDigitNumeral(secs);
      Text.PadOneToTwo(d, '0');
      assert secs / 10 == 0 && secs % 10 == secs;
      assert Text.DigitChar(0) == '0';
    } else {
      Text.TwoDigitNumeral(secs);
      assert Text.PadStart(d, 2, '0') == d;
    }
  }

  /**
   * Under ten minutes the label is exactly four characters: the minute digit,
   * the colon, and the tens and units of the seconds (125 gives `2:05`).
   */
  lemma UnderTenMinutesLayout(n: nat)
    requires n < 600
    ensures FormatDuration(Finite(n)) == [Text.DigitChar(n / 60), ':', Text.DigitChar(n % 60 / 10), Text.DigitChar(n % 60 % 10)]
  {
    var m, s := n / 60, n % 60;
    ClockParts(n);
    assert m < 10;
    Text.SingleDigitNumeral(m);
    TwoDigitsLayout(s);
    FourChars(Text.DigitChar(m), Text.DigitChar(s / 10), Text.DigitChar(s % 10));
  }

  lemma FourChars(a: char, b: char, c: char)
    ensures [a] + ":" + [b, c] == [a, ':', b, c]
  {
  }
}
