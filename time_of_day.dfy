/**
 * Times of day as the scan sees them: an (hour, minute) pair read from fixed
 * character offsets of an "HH:MM[:SS]" text, compared lexicographically.
 */
module TimeOfDay {
  import opened Wrappers
  import JavaStrings

  datatype Clock = Clock(hour: int, minute: int)

  const Midnight := Clock(0, 0)

  /** The comparison the scan writes out: a is earlier than b, hour first, then minute. */
  predicate Before(a: Clock, b: Clock)
    ensures Before(a, b) ==> a != b && a.hour <= b.hour
    ensures a.hour < b.hour ==> Before(a, b)
  {
    a.hour < b.hour || (a.hour == b.hour && a.minute < b.minute)
  }

  /** Minutes since midnight. */
  function Minutes(c: Clock): int {
    c.hour * 60 + c.minute
  }

  /** The clock reading of a minute of the day, as hour = t / 60 and minute = t % 60. */
  function FromMinutes(t: nat): (c: Clock)
  {
    Clock(t / 60, t % 60)
  }

  /** Reading a minute of the day back from its clock gives the minute; the minute field stays below 60. */
  lemma FromMinutesMeaning(t: nat)
    ensures Minutes(FromMinutes(t)) == t && 0 <= FromMinutes(t).minute < 60 && 0 <= FromMinutes(t).hour
    ensures t < 24 * 60 ==> FromMinutes(t).hour < 24
  {
  }

  /** For well-formed readings (minute below 60) the lexicographic order is the order of minutes. */
  lemma BeforeIsMinutesOrder(a: Clock, b: Clock)
    requires 0 <= a.minute < 60 && 0 <= b.minute < 60
    ensures Before(a, b) <==> Minutes(a) < Minutes(b)
  {
    if a.hour < b.hour {
      assert a.hour * 60 + 60 <= b.hour * 60;
    } else if a.hour > b.hour {
      assert b.hour * 60 + 60 <= a.hour * 60;
    }
  }

  /** Integer.parseInt of a two-character text: two digits, or a sign and one digit. */
  function ParseTwo(a: char, b: char): (r: Option<int>)
    ensures r.Some? ==> -9 <= r.value <= 99
  {
    if !JavaStrings.IsDigit(b) then None
    else if JavaStrings.IsDigit(a) then Some(10 * JavaStrings.DigitValue(a) + JavaStrings.DigitValue(b))
    else if a == '-' then Some(0 - JavaStrings.DigitValue(b) as int)
    else if a == '+' then Some(JavaStrings.DigitValue(b) as int)
    else None
  }

  /**
   * The fixed-offset decode: hour from characters 0-1, minute from characters
   * 3-4; anything after is ignored. None where the source would throw.
   */
  function DecodeClock(s: string): (r: Option<Clock>)
    ensures r.Some? ==> |s| >= 5 && -9 <= r.value.hour <= 99 && -9 <= r.value.minute <= 99
  {
    if |s| < 5 then None
    else
      match (ParseTwo(s[0], s[1]), ParseTwo(s[3], s[4]))
      case (Some(h), Some(m)) => Some(Clock(h, m))
      case _ => None
  }

  /** The database's "HH:MM" rendering of a reading with two-digit fields. */
  function EncodeClock(c: Clock): string
    requires 0 <= c.hour < 100 && 0 <= c.minute < 100
  {
    [JavaStrings.DigitChar(c.hour / 10), JavaStrings.DigitChar(c.hour % 10), ':',
     JavaStrings.DigitChar(c.minute / 10), JavaStrings.DigitChar(c.minute % 10)]
  }

  /** Decoding an encoded reading, with or without a seconds suffix, gives it back. */
  lemma DecodeEncode(c: Clock, suffix: string)
    requires 0 <= c.hour < 100 && 0 <= c.minute < 100
    ensures DecodeClock(EncodeClock(c) + suffix) == Some(c)
  {
    var s := EncodeClock(c) + suffix;
    assert s[0] == JavaStrings.DigitChar(c.hour / 10) && s[1] == JavaStrings.DigitChar(c.hour % 10);
    assert s[3] == JavaStrings.DigitChar(c.minute / 10) && s[4] == JavaStrings.DigitChar(c.minute % 10);
  }
}
