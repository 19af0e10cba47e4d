/**
 * The formatters of the statistics summary: a total time in minutes or in
 * hours and minutes, and a count with its noun.
 */
module Stats {
  import opened Options
  import opened Text

  /**
   * `formatTime(totalSeconds)`: whole minutes below an hour, whole hours
   * and the minutes left over from an hour on; leftover seconds are dropped.
   */
  function FormatTime(totalSeconds: nat): string {
    var m := totalSeconds / 60;
    if m < 60 then NatToString(m) + " min"
    else
      var h := m / 60;
      var rm := m % 60;
      if rm > 0 then NatToString(h) + "h " + NatToString(rm) + "m" else NatToString(h) + "h"
  }

  /** The minutes a formatted total stands for: "M min", "Hh" or "Hh Mm". */
  function ReadTime(t: string): Option<nat> {
    var parts := Split(t, ' ');
    if |parts| == 1 then
      match ReadUnit(parts[0], 'h')
      case Some(h) => Some(60 * h)
      case None => None
    else if |parts| == 2 then
      if parts[1] == "min" then ReadCount(parts[0])
      else
        match (ReadUnit(parts[0], 'h'), ReadUnit(parts[1], 'm'))
        case (Some(h), Some(rm)) => Some(60 * h + rm)
        case _ => None
    else None
  }

  /** "M min" reads as M minutes. */
  lemma ReadMinutesPhrase(m: nat)
    ensures ReadTime(NatToString(m) + " min") == Some(m)
  {
    var digits := NatToString(m);
    assert digits + " min" == digits + [' '] + "min";
    NonDigitNotIn(digits, ' ');
    SplitAtFirst(digits, "min", ' ');
    SplitWithoutSeparator("min", ' ');
    DigitsValueOfNatToString(m);
  }

  /** "Hh" reads as H hours. */
  lemma ReadHoursPhrase(h: nat)
    ensures ReadTime(NatToString(h) + "h") == Some(60 * h)
  {
    var hours := NatToString(h) + ['h'];
    NonDigitNotIn(NatToString(h), ' ');
    assert ' ' !in hours;
    SplitWithoutSeparator(hours, ' ');
    ReadUnitOf(h, 'h');
  }

  /** Two words, the first read in hours and the second in minutes, read as their sum in minutes. */
  lemma ReadTimeOfTwoWords(t: string, a: string, b: string, h: nat, rm: nat)
    requires Split(t, ' ') == [a, b] && b != "min"
    requires ReadUnit(a, 'h') == Some(h) && ReadUnit(b, 'm') == Some(rm)
    ensures ReadTime(t) == Some(60 * h + rm)
  {
  }

  /** A word ending in "m" after a count is not "min". */
  lemma MinutesWordIsNotMin(rm: nat)
    ensures NatToString(rm) + ['m'] != "min"
  {
    var w := NatToString(rm) + ['m'];
    assert w[|w| - 1] == 'm';
  }

  /** "Hh Mm" reads as H hours and M minutes. */
  lemma ReadHoursMinutesPhrase(h: nat, rm: nat)
    ensures ReadTime(NatToString(h) + "h " + NatToString(rm) + "m") == Some(60 * h + rm)
  {
    var hours := NatToString(h) + ['h'];
    var minutes := NatToString(rm) + ['m'];
    var t := NatToString(h) + "h " + NatToString(rm) + "m";
    assert t == hours + [' '] + minutes;
    UnitWordHasNoSpace(h, 'h');
    UnitWordHasNoSpace(rm, 'm');
    SplitTwoWords(hours, minutes);
    ReadUnitOf(h, 'h');
    ReadUnitOf(rm, 'm');
    MinutesWordIsNotMin(rm);
    ReadTimeOfTwoWords(t, hours, minutes, h, rm);
  }

  /** Reading a formatted total gives back its whole minutes. */
  lemma ReadTimeOfFormat(totalSeconds: nat)
    ensures ReadTime(FormatTime(totalSeconds)) == Some(totalSeconds / 60)
  {
    var m := totalSeconds / 60;
    if m < 60 {
      ReadMinutesPhrase(m);
    } else {
      var h, rm := m / 60, m % 60;
      assert m == 60 * h + rm;
      if rm > 0 {
        ReadHoursMinutesPhrase(h, rm);
      } else {
        ReadHoursPhrase(h);
      }
    }
  }

  /** Two totals read the same exactly when they hold the same number of whole minutes. */
  lemma FormatTimeSameMinutes(a: nat, b: nat)
    ensures FormatTime(a) == FormatTime(b) <==> a / 60 == b / 60
  {
    ReadTimeOfFormat(a);
    ReadTimeOfFormat(b);
  }

  /** "M min" is the two words M and "min". */
  lemma MinutesWords(m: nat, t: string)
    requires t == NatToString(m) + " min"
    ensures Split(t, ' ') == [NatToString(m), "min"]
  {
    var digits := NatToString(m);
    assert t == digits + [' '] + "min";
    NonDigitNotIn(digits, ' ');
    SplitTwoWords(digits, "min");
  }

  /** "Hh" is one word that reads as H hours. */
  lemma HoursWords(h: nat, t: string)
    requires h > 0 && t == NatToString(h) + "h"
    ensures var w := Split(t, ' ');
      |w| == 1 && t[|t| - 1] == 'h' && ReadUnit(w[0], 'h') == Some(h) && w[0][0] != '0'
  {
    UnitWordShape(h, 'h');
    SplitWithoutSeparator(t, ' ');
  }

  /** "Hh Mm" is two words that read as H hours and M minutes. */
  lemma HoursMinutesWords(h: nat, rm: nat, t: string)
    requires h > 0 && rm > 0 && t == NatToString(h) + "h " + NatToString(rm) + "m"
    ensures var w := Split(t, ' ');
      && |w| == 2 && t[|t| - 1] == 'm'
      && ReadUnit(w[0], 'h') == Some(h) && w[0][0] != '0'
      && ReadUnit(w[1], 'm') == Some(rm) && w[1][0] != '0'
  {
    var hours := NatToString(h) + ['h'];
    var minutes := NatToString(rm) + ['m'];
    UnitWordShape(h, 'h');
    UnitWordShape(rm, 'm');
    assert t == hours + [' '] + minutes;
    SplitTwoWords(hours, minutes);
  }

  /**
   * "M min" below an hour; from an hour on, one word "Hh" when no minute is
   * left over and otherwise two words "Hh" and "Mm", with H the whole hours
   * and M the minutes left over, each written without a leading zero.
   */
  lemma FormatTimeShape(totalSeconds: nat)
    ensures var t := FormatTime(totalSeconds);
      var m := totalSeconds / 60;
      var w := Split(t, ' ');
      && (m < 60 ==> t == NatToString(m) + " min" && w == [NatToString(m), "min"])
      && (m >= 60 && m % 60 == 0 ==>
            && |w| == 1 && t[|t| - 1] == 'h'
            && ReadUnit(w[0], 'h') == Some(m / 60) && w[0][0] != '0')
      && (m >= 60 && m % 60 != 0 ==>
            && |w| == 2 && t[|t| - 1] == 'm'
            && ReadUnit(w[0], 'h') == Some(m / 60) && w[0][0] != '0'
            && ReadUnit(w[1], 'm') == Some(m % 60) && w[1][0] != '0')
  {
    var m := totalSeconds / 60;
    var t := FormatTime(totalSeconds);
    if m < 60 {
      MinutesWords(m, t);
    } else if m % 60 != 0 {
      HoursMinutesWords(m / 60, m % 60, t);
    } else {
      HoursWords(m / 60, t);
    }
  }

  /** `pluralize(count, singular)`: the count, a space and the noun, with an "s" unless the count is 1. */
  function Pluralize(count: int, singular: string): string {
    if count == 1 then IntToString(count) + " " + singular else IntToString(count) + " " + singular + "s"
  }

  /** A count, a space and a tail: the count reads back and the parts split where the space is. */
  lemma CountPhrase(count: int, tail: string)
    ensures var n := IntToString(count);
      && ParseInt(n + " " + tail) == Some(count)
      && (n + " " + tail)[..|n| + 1] == n + " "
      && (n + " " + tail)[|n| + 1..] == tail
  {
    var n := IntToString(count);
    assert n + " " + tail == n + (" " + tail);
    ParseIntOfIntToString(count, " " + tail);
  }

  /**
   * The phrase starts with the count, which `parseInt` reads back, then a
   * space and the noun; it adds an "s" exactly when the count is not 1, so
   * 0 takes the plural.
   */
  lemma PluralizeParts(count: int, singular: string)
    ensures var p := Pluralize(count, singular);
      var n := IntToString(count);
      && ParseInt(p) == Some(count)
      && p[..|n| + 1] == n + " "
      && (count == 1 ==> p[|n| + 1..] == singular)
      && (count != 1 ==> p[|n| + 1..] == singular + "s")
  {
    var tail := if count == 1 then singular else singular + "s";
    assert Pluralize(count, singular) == IntToString(count) + " " + tail;
    CountPhrase(count, tail);
  }
}
