/**
 * What the leaderboard and showcase pages share: the time formatter, the
 * medals of the first three places and the photo condition.
 */
module Display {
  import opened Wrappers
  import opened JsString

  /** `sec.toString().padStart(2, '0')`. */
  function SecondsText(sec: int): (r: string)
    ensures |r| >= 2 && ':' !in r
  {
    PadStart(IntToString(sec), 2, '0')
  }

  /** `${min}:${sec.toString().padStart(2, '0')}`. */
  function FormatTime(min: int, sec: int): string {
    IntToString(min) + ":" + SecondsText(sec)
  }

  /** Reads `text` back as a minutes and a seconds numeral around a single ':'. */
  function ParseTime(text: string): Option<(int, int)> {
    var parts := Split(text, ':');
    if |parts| != 2 then None
    else
      match (ReadInt(parts[0]), ReadInt(parts[1]))
      case (Some(m), Some(s)) => Some((m, s))
      case _ => None
  }

  /** A number of ten or more has at least two digits. */
  lemma TwoDigitsFromTen(n: nat)
    requires n >= 10
    ensures |NatToString(n)| >= 2
  {
  }

  /** The seconds text reads back as the seconds, padding included. */
  lemma SecondsTextReadsBack(sec: int)
    ensures ReadInt(SecondsText(sec)) == Some(sec)
  {
    IntToStringRoundTrip(sec);
    if 0 <= sec < 10 {
      var d := IntToString(sec);
      assert d == [DigitChar(sec)];
      assert SecondsText(sec) == "0" + d;
      DecimalLeadingZero(d);
    } else if sec >= 10 {
      TwoDigitsFromTen(sec);
    }
  }

  /** Formatting loses nothing: the minutes and seconds read back from the text. */
  lemma FormatTimeRoundTrip(min: int, sec: int)
    ensures ParseTime(FormatTime(min, sec)) == Some((min, sec))
  {
    var a := IntToString(min);
    var b := SecondsText(sec);
    assert FormatTime(min, sec) == a + [':'] + b;
    SplitPrefix(a, b, ':');
    SplitNoSeparator(b, ':');
    IntToStringRoundTrip(min);
    SecondsTextReadsBack(sec);
  }

  /** Different times are never shown alike. */
  lemma FormatTimeInjective(m1: int, s1: int, m2: int, s2: int)
    requires FormatTime(m1, s1) == FormatTime(m2, s2)
    ensures m1 == m2 && s1 == s2
  {
    FormatTimeRoundTrip(m1, s1);
    FormatTimeRoundTrip(m2, s2);
  }

  /** Seconds 0 to 9 are shown as '0' followed by their digit. */
  lemma SingleDigitSecondsPadded(sec: int)
    requires 0 <= sec <= 9
    ensures SecondsText(sec) == ['0', DigitChar(sec)]
  {
  }

  /** Seconds 10 to 99 are shown as their two digits, unpadded. */
  lemma TwoDigitSecondsPlain(sec: int)
    requires 10 <= sec <= 99
    ensures SecondsText(sec) == [DigitChar(sec / 10), DigitChar(sec % 10)]
  {
    assert NatToString(sec / 10) == [DigitChar(sec / 10)];
  }

  /** The medal shown beside a place, if any. */
  datatype Medal = Gold | Silver | Bronze

  /** `index === 0 && 🥇`, `index === 1 && 🥈`, `index === 2 && 🥉`. */
  function MedalAt(index: nat): (m: Option<Medal>)
    ensures m.Some? <==> index < 3
    ensures m == Some(Gold) <==> index == 0
    ensures m == Some(Silver) <==> index == 1
    ensures m == Some(Bronze) <==> index == 2
  {
    if index == 0 then Some(Gold)
    else if index == 1 then Some(Silver)
    else if index == 2 then Some(Bronze)
    else None
  }

  /** `photo_path && index < 5`: a non-null, non-empty path, and a top-five place. */
  predicate ShowsPhoto(photo: Option<string>, index: nat) {
    photo.Some? && photo.value != "" && index < 5
  }
}
