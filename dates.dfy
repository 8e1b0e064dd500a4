/** `glyphs_datetime`: a date written `YYYY-MM-DD HH:MM:SS <zone>`; the zone, everything
    after the last space, is cut off and the rest read with the format
    `%Y-%m-%d %H:%M:%S`. */
module Dates {
  import opened Wrappers
  import opened Values
  import opened Numerals

  predicate IsLeapYear(y: int) {
    y % 4 == 0 && (y % 100 != 0 || y % 400 == 0)
  }

  function DaysInMonth(year: int, month: int): int
    requires 1 <= month <= 12
  {
    if month == 2 then (if IsLeapYear(year) then 29 else 28)
    else if month in {4, 6, 9, 11} then 30
    else 31
  }

  /** The date-times Python's `datetime` can represent (seconds 0..59). */
  predicate ValidDateTime(dt: DateTime) {
    && 1 <= dt.year <= 9999
    && 1 <= dt.month <= 12
    && 1 <= dt.day <= DaysInMonth(dt.year, dt.month)
    && 0 <= dt.hour <= 23
    && 0 <= dt.minute <= 59
    && 0 <= dt.second <= 59
  }

  /** The decimal number in `s[lo..lo + width]`, when it is all digits. */
  function Field(s: string, lo: nat, width: nat): Option<int>
    requires lo + width <= |s|
  {
    var f := s[lo..lo + width];
    if AllDigits(f, 10) then Some(DigitsValue(f, 10)) else None
  }

  /** `datetime.strptime(s, '%Y-%m-%d %H:%M:%S')` with every field at full width. */
  function ParseDateTime(s: string): (r: Option<DateTime>)
    ensures r.Some? ==> ValidDateTime(r.value) && |s| == 19
  {
    if |s| != 19 || s[4] != '-' || s[7] != '-' || s[10] != ' ' || s[13] != ':' || s[16] != ':' then None
    else
      var year :- Field(s, 0, 4);
      var month :- Field(s, 5, 2);
      var day :- Field(s, 8, 2);
      var hour :- Field(s, 11, 2);
      var minute :- Field(s, 14, 2);
      var second :- Field(s, 17, 2);
      var dt := DateTime(year, month, day, hour, minute, second);
      if ValidDateTime(dt) then Some(dt) else None
  }

  /** `str.rfind(' ')`: the index of the last space, or -1. */
  function LastSpace(s: string): (i: int)
    ensures -1 <= i < |s|
    ensures i >= 0 ==> s[i] == ' '
    ensures forall j :: i < j < |s| ==> s[j] != ' '
  {
    if s == [] then -1 else if s[|s| - 1] == ' ' then |s| - 1 else LastSpace(s[..|s| - 1])
  }

  /** `s[:s.rfind(' ')]`; with no space the index is -1 and the last character is dropped. */
  function BeforeLastSpace(s: string): (r: string)
    ensures r <= s
  {
    var i := LastSpace(s);
    if i >= 0 then s[..i] else if s == [] then [] else s[..|s| - 1]
  }

  /** `glyphs_datetime(s)`: the date-time of `s` with its zone cut off. */
  function GlyphsDatetime(s: string): (r: Option<Value>)
    ensures r.Some? <==> ParseDateTime(BeforeLastSpace(s)).Some?
    ensures r.Some? ==> r.value == Date(ParseDateTime(BeforeLastSpace(s)).value)
    ensures r.Some? ==> ValidDateTime(r.value.dt)
  {
    var dt :- ParseDateTime(BeforeLastSpace(s));
    Some(Date(dt))
  }

  /** The text Glyphs writes for a date-time, before the zone. */
  function FormatDateTime(dt: DateTime): string
    requires ValidDateTime(dt)
  {
    Pad(dt.year, 4) + "-" + Pad(dt.month, 2) + "-" + Pad(dt.day, 2) + " " +
    Pad(dt.hour, 2) + ":" + Pad(dt.minute, 2) + ":" + Pad(dt.second, 2)
  }

  lemma FieldOfPad(s: string, lo: nat, n: nat, width: nat)
    requires lo + width <= |s| && n < Pow10(width)
    requires s[lo..lo + width] == Pad(n, width)
    ensures Field(s, lo, width) == Some(n)
  {
    PadValue(n, width);
  }

  /** The separators of a formatted date-time, and its six fields padded in place. */
  predicate Laid(s: string, dt: DateTime) {
    && ValidDateTime(dt) && |s| == 19 && s[4] == '-' && s[7] == '-' && s[10] == ' ' && s[13] == ':' && s[16] == ':'
    && s[0..4] == Pad(dt.year, 4) && s[5..7] == Pad(dt.month, 2) && s[8..10] == Pad(dt.day, 2)
    && s[11..13] == Pad(dt.hour, 2) && s[14..16] == Pad(dt.minute, 2) && s[17..19] == Pad(dt.second, 2)
  }

  lemma FormatLayout(dt: DateTime)
    requires ValidDateTime(dt)
    ensures Laid(FormatDateTime(dt), dt)
  {
    var date := Pad(dt.year, 4) + "-" + Pad(dt.month, 2) + "-" + Pad(dt.day, 2);
    var time := Pad(dt.hour, 2) + ":" + Pad(dt.minute, 2) + ":" + Pad(dt.second, 2);
    ThreeFields(Pad(dt.year, 4), '-', Pad(dt.month, 2), '-', Pad(dt.day, 2));
    ThreeFields(Pad(dt.hour, 2), ':', Pad(dt.minute, 2), ':', Pad(dt.second, 2));
    var s := FormatDateTime(dt);
    assert s == (date + " ") + time;
    SliceLeft(date + " ", time, 0, 4);
    SliceLeft(date + " ", time, 5, 7);
    SliceLeft(date + " ", time, 8, 10);
    SliceLeft(date, " ", 0, 4);
    SliceLeft(date, " ", 5, 7);
    SliceLeft(date, " ", 8, 10);
    SliceRight(date + " ", time, 11, 13);
    SliceRight(date + " ", time, 14, 16);
    SliceRight(date + " ", time, 17, 19);
  }

  lemma SliceLeft(a: string, b: string, lo: nat, hi: nat)
    requires lo <= hi <= |a|
    ensures (a + b)[lo..hi] == a[lo..hi]
  {
  }

  lemma SliceRight(a: string, b: string, lo: nat, hi: nat)
    requires |a| <= lo <= hi <= |a| + |b|
    ensures (a + b)[lo..hi] == b[lo - |a|..hi - |a|]
  {
  }

  /** The layout of three fields joined by two separators. */
  lemma ThreeFields(a: string, sep1: char, b: string, sep2: char, c: string)
    requires |b| == 2 && |c| == 2
    ensures var s := a + [sep1] + b + [sep2] + c;
      && |s| == |a| + 6 && s[|a|] == sep1 && s[|a| + 3] == sep2
      && s[0..|a|] == a && s[|a| + 1..|a| + 3] == b && s[|a| + 4..|a| + 6] == c
  {
  }

  /** Text laid out with the fields of a valid date-time parses as that date-time. */
  lemma ParseOfLayout(s: string, dt: DateTime)
    requires ValidDateTime(dt) && Laid(s, dt)
    ensures ParseDateTime(s) == Some(dt)
  {
    FieldOfPad(s, 0, dt.year, 4);
    FieldOfPad(s, 5, dt.month, 2);
    FieldOfPad(s, 8, dt.day, 2);
    FieldOfPad(s, 11, dt.hour, 2);
    FieldOfPad(s, 14, dt.minute, 2);
    FieldOfPad(s, 17, dt.second, 2);
    ParseFields(s, dt);
  }

  lemma ParseFields(s: string, dt: DateTime)
    requires ValidDateTime(dt) && |s| == 19
    requires s[4] == '-' && s[7] == '-' && s[10] == ' ' && s[13] == ':' && s[16] == ':'
    requires Field(s, 0, 4) == Some(dt.year) && Field(s, 5, 2) == Some(dt.month)
    requires Field(s, 8, 2) == Some(dt.day) && Field(s, 11, 2) == Some(dt.hour)
    requires Field(s, 14, 2) == Some(dt.minute) && Field(s, 17, 2) == Some(dt.second)
    ensures ParseDateTime(s) == Some(dt)
  {
  }

  lemma DateTimeRoundTrip(dt: DateTime)
    requires ValidDateTime(dt)
    ensures ParseDateTime(FormatDateTime(dt)) == Some(dt)
  {
    FormatLayout(dt);
    ParseOfLayout(FormatDateTime(dt), dt);
  }

  /** Text that parses is exactly the text Glyphs writes for the date-time it parses as:
      every field has its full width, so nothing else reads as the same date-time. */
  lemma FormatOfParse(s: string)
    requires ParseDateTime(s).Some?
    ensures ValidDateTime(ParseDateTime(s).value)
    ensures s == FormatDateTime(ParseDateTime(s).value)
  {
    LaidOfParse(s);
    Decompose(s);
  }

  /** Each field of parsed text is its value padded to the field's width. */
  lemma LaidOfParse(s: string)
    requires ParseDateTime(s).Some?
    ensures Laid(s, ParseDateTime(s).value)
  {
    PadOfDigits(s[0..4]);
    PadOfDigits(s[5..7]);
    PadOfDigits(s[8..10]);
    PadOfDigits(s[11..13]);
    PadOfDigits(s[14..16]);
    PadOfDigits(s[17..19]);
  }

  /** Nineteen characters as the six fields and the five separators between them. */
  lemma Decompose(s: string)
    requires |s| == 19
    ensures s == s[0..4] + [s[4]] + s[5..7] + [s[7]] + s[8..10] + [s[10]] +
                 s[11..13] + [s[13]] + s[14..16] + [s[16]] + s[17..19]
  {
  }

  /** The zone after the last space is what is cut off. */
  lemma {:induction false} CutsZone(head: string, zone: string)
    requires ' ' !in zone
    ensures BeforeLastSpace(head + " " + zone) == head
  {
    var s := head + " " + zone;
    var i := LastSpace(s);
    assert s[|head|] == ' ';
    forall j | |head| < j < |s| ensures s[j] != ' ' {
      assert s[j] == zone[j - |head| - 1];
    }
    assert s[..|head|] == head;
  }

  /** With no space at all, the last character is dropped. */
  lemma {:induction false} CutsLastCharacter(s: string)
    requires ' ' !in s && s != []
    ensures BeforeLastSpace(s) == s[..|s| - 1]
  {
  }

  /** A date written as Glyphs writes it, with any zone that contains no space, reads
      back as that date. */
  lemma GlyphsDatetimeRoundTrip(dt: DateTime, zone: string)
    requires ValidDateTime(dt) && ' ' !in zone
    ensures GlyphsDatetime(FormatDateTime(dt) + " " + zone) == Some(Date(dt))
  {
    CutsZone(FormatDateTime(dt), zone);
    DateTimeRoundTrip(dt);
  }
}
