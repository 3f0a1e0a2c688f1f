/**
  `createICSContent`: an iCalendar object (section 3.4 of RFC 5545) with one
  VEVENT, as fourteen content lines joined with CRLF (section 3.1 of RFC 5545).
  Instants are written with `toICSDateString` in the UTC form of a DATE-TIME
  value, `YYYYMMDDTHHMMSSZ` (section 3.3.5 of RFC 5545, form #2).  Text values
  are copied verbatim: no escaping and no line folding.
*/
module Ics {
  import opened Wrappers
  import opened Decimal
  import opened EcmaTime

  /** The object the script passes to `createICSContent`. */
  datatype CalendarEvent = CalendarEvent(title: string, description: string, location: string, start: int, end: int)

  /** The timestamp text for calendar fields: the year as `String` renders it,
      every other field through `pad`. */
  function FieldsToICS(f: Fields): string {
    IntToString(f.year) + Pad2(f.month) + Pad2(f.day) + "T"
    + Pad2(f.hour) + Pad2(f.minute) + Pad2(f.second) + "Z"
  }

  /** `toICSDateString`: the `getUTC...` fields of the instant, month counted from 1. */
  function ToICSDateString(t: int): string {
    FieldsToICS(UtcFields(t))
  }

  /** Reads a UTC DATE-TIME `YYYYMMDDTHHMMSSZ` back into its fields; anything else is None. */
  function ReadICSDateString(s: string): Option<Fields> {
    if && |s| == 16
       && AllDigits(s[0..4]) && AllDigits(s[4..6]) && AllDigits(s[6..8]) && s[8] == 'T'
       && AllDigits(s[9..11]) && AllDigits(s[11..13]) && AllDigits(s[13..15]) && s[15] == 'Z'
    then Some(Fields(DigitsValue(s[0..4]), DigitsValue(s[4..6]), DigitsValue(s[6..8]),
                     DigitsValue(s[9..11]), DigitsValue(s[11..13]), DigitsValue(s[13..15])))
    else None
  }

  /** Where the pieces of a `YYYYMMDDTHHMMSSZ` string sit. */
  lemma IcsLayout(y: string, mo: string, d: string, h: string, mi: string, se: string)
    requires |y| == 4 && |mo| == 2 && |d| == 2 && |h| == 2 && |mi| == 2 && |se| == 2
    ensures var s := y + mo + d + "T" + h + mi + se + "Z";
            && |s| == 16 && s[0..4] == y && s[4..6] == mo && s[6..8] == d && s[8] == 'T'
            && s[9..11] == h && s[11..13] == mi && s[13..15] == se && s[15] == 'Z'
  {
    var s1 := y + mo + d + "T";
    var s2 := h + mi + se + "Z";
    assert s1[0..4] == y && s1[4..6] == mo && s1[6..8] == d;
    assert s2[0..2] == h && s2[2..4] == mi && s2[4..6] == se;
    var s := s1 + s2;
    assert y + mo + d + "T" + h + mi + se + "Z" == s;
    assert s[0..9] == s1 && s[9..] == s2;
  }

  /** A string of sixteen characters is the concatenation of its slices. */
  lemma IcsPieces(s: string)
    requires |s| == 16 && s[8] == 'T' && s[15] == 'Z'
    ensures s == s[0..4] + s[4..6] + s[6..8] + "T" + s[9..11] + s[11..13] + s[13..15] + "Z"
  {
    var r := s[0..4] + s[4..6] + s[6..8] + "T" + s[9..11] + s[11..13] + s[13..15] + "Z";
    IcsLayout(s[0..4], s[4..6], s[6..8], s[9..11], s[11..13], s[13..15]);
    assert forall i | 0 <= i < 16 :: r[i] == s[i] by {
      forall i | 0 <= i < 16
        ensures r[i] == s[i]
      {
        if i < 4 { assert r[0..4][i] == s[0..4][i]; }
        else if i < 6 { assert r[4..6][i - 4] == s[4..6][i - 4]; }
        else if i < 8 { assert r[6..8][i - 6] == s[6..8][i - 6]; }
        else if i == 8 { }
        else if i < 11 { assert r[9..11][i - 9] == s[9..11][i - 9]; }
        else if i < 13 { assert r[11..13][i - 11] == s[11..13][i - 11]; }
        else if i < 15 { assert r[13..15][i - 13] == s[13..15][i - 13]; }
      }
    }
  }

  /** A string laid out as `YYYYMMDDTHHMMSSZ` with digits in the numeric
      places reads as those digits' values. */
  lemma ReadIcsLaidOut(s: string)
    requires |s| == 16
    requires AllDigits(s[0..4]) && AllDigits(s[4..6]) && AllDigits(s[6..8]) && s[8] == 'T'
    requires AllDigits(s[9..11]) && AllDigits(s[11..13]) && AllDigits(s[13..15]) && s[15] == 'Z'
    ensures ReadICSDateString(s)
            == Some(Fields(DigitsValue(s[0..4]), DigitsValue(s[4..6]), DigitsValue(s[6..8]),
                           DigitsValue(s[9..11]), DigitsValue(s[11..13]), DigitsValue(s[13..15])))
  {
  }

  /** What reads as a timestamp has the UTC DATE-TIME shape: sixteen
      characters, eight digits, 'T', six digits, 'Z'. */
  lemma ReadICSDateStringShape(s: string)
    requires ReadICSDateString(s).Some?
    ensures |s| == 16 && AllDigits(s[0..8]) && s[8] == 'T' && AllDigits(s[9..15]) && s[15] == 'Z'
  {
    assert s[0..8] == s[0..4] + s[4..6] + s[6..8];
    assert s[9..15] == s[9..11] + s[11..13] + s[13..15];
  }

  /** Fields of a real second with a four-digit year are written so that they
      read back as the fields. */
  lemma FieldsToICSReadsBack(f: Fields)
    requires ValidFields(f) && 1000 <= f.year <= 9999
    ensures ReadICSDateString(FieldsToICS(f)) == Some(f)
  {
    FourDigits(f.year);
    DaysInMonthRange(f.year, f.month);
    PadTwoDigits(f.month);
    PadTwoDigits(f.day);
    PadTwoDigits(f.hour);
    PadTwoDigits(f.minute);
    PadTwoDigits(f.second);
    var s := FieldsToICS(f);
    IcsLayout(IntToString(f.year), Pad2(f.month), Pad2(f.day), Pad2(f.hour), Pad2(f.minute), Pad2(f.second));
    ReadIcsLaidOut(s);
    assert DigitsValue(s[0..4]) == f.year;
    assert DigitsValue(s[4..6]) == f.month;
    assert DigitsValue(s[6..8]) == f.day;
    assert DigitsValue(s[9..11]) == f.hour;
    assert DigitsValue(s[11..13]) == f.minute;
    assert DigitsValue(s[13..15]) == f.second;
  }

  /** Writing read fields gives back the string, provided the year has no
      leading zero (`String` never writes one). */
  lemma ReadICSDateStringWritesBack(s: string)
    requires ReadICSDateString(s).Some? && s[0] != '0'
    ensures FieldsToICS(ReadICSDateString(s).value) == s
  {
    var f := ReadICSDateString(s).value;
    DigitsValueBound(s[0..4]);
    DigitsRender(s[0..4]);
    assert IntToString(f.year) == s[0..4];
    PadReadBack(s[4..6]);
    PadReadBack(s[6..8]);
    PadReadBack(s[9..11]);
    PadReadBack(s[11..13]);
    PadReadBack(s[13..15]);
    IcsPieces(s);
  }

  /** For an instant whose UTC year has four digits, the timestamp has the
      sixteen-character shape and reads back as the instant's UTC fields, which
      name the instant truncated to the whole second. */
  lemma ToICSDateStringRoundTrip(t: int)
    requires 1000 <= YearFromTime(t) <= 9999
    ensures var s := ToICSDateString(t);
            && |s| == 16 && AllDigits(s[0..8]) && s[8] == 'T' && AllDigits(s[9..15]) && s[15] == 'Z'
            && ReadICSDateString(s) == Some(UtcFields(t))
            && TimeFromFields(UtcFields(t)) == t - t % 1000
  {
    TimeRoundTrip(t);
    FieldsToICSReadsBack(UtcFields(t));
    ReadICSDateStringShape(ToICSDateString(t));
  }

  /** A well-formed timestamp naming a real second is the timestamp of that second. */
  lemma ReadICSDateStringInstant(s: string)
    requires ReadICSDateString(s).Some? && s[0] != '0'
    requires ValidFields(ReadICSDateString(s).value)
    ensures ToICSDateString(TimeFromFields(ReadICSDateString(s).value)) == s
  {
    FieldsRoundTrip(ReadICSDateString(s).value);
    ReadICSDateStringWritesBack(s);
  }

  /** The line separator of the iCalendar format. */
  const Crlf: string := "\r\n"

  /** No CRLF occurs inside the text, so it stays on one content line. */
  predicate NoCrlf(s: string) {
    forall i | 0 <= i < |s| - 1 :: !(s[i] == '\r' && s[i + 1] == '\n')
  }

  /** `Array.prototype.join("\r\n")`. */
  function JoinCrlf(lines: seq<string>): string {
    if |lines| == 0 then ""
    else if |lines| == 1 then lines[0]
    else lines[0] + Crlf + JoinCrlf(lines[1..])
  }

  /** The position of the first CRLF, or the length of the text when there is none. */
  function FirstCrlf(s: string): (k: nat)
    ensures k <= |s|
    ensures k < |s| ==> k + 1 < |s| && s[k] == '\r' && s[k + 1] == '\n'
    ensures forall i | 0 <= i < k && i + 1 < |s| :: !(s[i] == '\r' && s[i + 1] == '\n')
  {
    if |s| < 2 then |s|
    else if s[0] == '\r' && s[1] == '\n' then 0
    else 1 + FirstCrlf(s[1..])
  }

  /** How a reader of the file splits it into content lines: at every CRLF. */
  function SplitCrlf(s: string): (lines: seq<string>)
    ensures |lines| >= 1
    decreases |s|
  {
    var k := FirstCrlf(s);
    if k == |s| then [s] else [s[..k]] + SplitCrlf(s[k + 2..])
  }

  /** A line free of CRLF ends where the separator after it starts. */
  lemma FirstCrlfOfLine(a: string, rest: string)
    requires NoCrlf(a)
    ensures FirstCrlf(a) == |a|
    ensures FirstCrlf(a + Crlf + rest) == |a|
  {
    var s := a + Crlf + rest;
    forall j | 0 <= j < |a|
      ensures !(s[j] == '\r' && s[j + 1] == '\n')
    {
      if j + 1 < |a| {
        assert s[j] == a[j] && s[j + 1] == a[j + 1];
      } else {
        assert s[j + 1] == '\r';
      }
    }
    assert s[|a|] == '\r' && s[|a| + 1] == '\n';
  }

  /** Splitting the joined lines gives the lines back when none of them holds a
      CRLF of its own. */
  lemma {:induction false} SplitJoin(lines: seq<string>)
    requires |lines| >= 1
    requires forall i | 0 <= i < |lines| :: NoCrlf(lines[i])
    ensures SplitCrlf(JoinCrlf(lines)) == lines
  {
    var a := lines[0];
    if |lines| == 1 {
      FirstCrlfOfLine(a, "");
      assert JoinCrlf(lines) == a;
    } else {
      var tail := lines[1..];
      var rest := JoinCrlf(tail);
      var s := a + Crlf + rest;
      assert JoinCrlf(lines) == s;
      FirstCrlfOfLine(a, rest);
      assert s[..|a|] == a;
      assert s[|a| + 2..] == rest;
      assert SplitCrlf(s) == [a] + SplitCrlf(rest);
      assert forall i | 0 <= i < |tail| :: NoCrlf(tail[i]) by {
        forall i | 0 <= i < |tail|
          ensures NoCrlf(tail[i])
        {
          assert tail[i] == lines[i + 1];
        }
      }
      SplitJoin(tail);
      assert lines == [a] + tail;
    }
  }

  /** No carriage return at all: in particular no CRLF. */
  lemma NoCrNoCrlf(s: string)
    requires '\r' !in s
    ensures NoCrlf(s)
  {
    forall i | 0 <= i < |s| - 1
      ensures s[i] != '\r'
    {
      assert s[i] in s;
    }
  }

  /** A property name followed by a value free of CRLF is free of CRLF. */
  lemma NoCrlfAfter(name: string, value: string)
    requires '\r' !in name && NoCrlf(value)
    ensures NoCrlf(name + value)
  {
    var s := name + value;
    forall i | 0 <= i < |s| - 1
      ensures !(s[i] == '\r' && s[i + 1] == '\n')
    {
      if i < |name| {
        assert s[i] == name[i] && name[i] in name;
      } else {
        assert s[i] == value[i - |name|] && s[i + 1] == value[i + 1 - |name|];
      }
    }
  }

  /** Digits and '-': the rendering of a number has no carriage return. */
  lemma IntTextNoCr(n: int)
    ensures '\r' !in IntToString(n)
  {
    var d := if n < 0 then NatToString(-n) else NatToString(n);
    forall i | 0 <= i < |d|
      ensures d[i] != '\r'
    {
      assert IsDigit(d[i]);
    }
  }

  /** The '0' filler adds no carriage return either. */
  lemma PadTextNoCr(n: int)
    ensures '\r' !in Pad2(n)
  {
    var s := IntToString(n);
    IntTextNoCr(n);
    var p := Pad2(n);
    var w := |p| - |s|;
    forall i | 0 <= i < |p|
      ensures p[i] != '\r'
    {
      if i >= w {
        assert p[i] == p[w..][i - w] == s[i - w];
        assert s[i - w] in s;
      }
    }
  }

  /** A timestamp is a single line. */
  lemma TimestampNoCr(f: Fields)
    ensures '\r' !in FieldsToICS(f)
  {
    IntTextNoCr(f.year);
    PadTextNoCr(f.month);
    PadTextNoCr(f.day);
    PadTextNoCr(f.hour);
    PadTextNoCr(f.minute);
    PadTextNoCr(f.second);
    var s1 := IntToString(f.year) + Pad2(f.month);
    var s2 := s1 + Pad2(f.day) + "T";
    var s3 := s2 + Pad2(f.hour) + Pad2(f.minute);
    assert '\r' !in s1;
    assert '\r' !in s2;
    assert '\r' !in s3;
    assert FieldsToICS(f) == s3 + Pad2(f.second) + "Z";
  }

  /** The fourteen content lines for the given property values, in the order
      the script lists them. */
  function ContentLines(uid: string, dtStamp: string, dtStart: string, dtEnd: string,
                        title: string, description: string, location: string): seq<string>
  {
    [ "BEGIN:VCALENDAR",
      "VERSION:2.0",
      "PRODID:-//Wedding Invitation//EN",
      "CALSCALE:GREGORIAN",
      "BEGIN:VEVENT",
      "UID:" + uid,
      "DTSTAMP:" + dtStamp,
      "DTSTART:" + dtStart,
      "DTEND:" + dtEnd,
      "SUMMARY:" + title,
      "DESCRIPTION:" + description,
      "LOCATION:" + location,
      "END:VEVENT",
      "END:VCALENDAR" ]
  }

  /** `createICSContent`, with the identifier and the creation instant passed in. */
  function CreateICSContent(ev: CalendarEvent, uid: string, stamp: int): string {
    JoinCrlf(ContentLines(uid, ToICSDateString(stamp), ToICSDateString(ev.start), ToICSDateString(ev.end),
                          ev.title, ev.description, ev.location))
  }

  /** The identifier the script generates: the clock in milliseconds, a dash,
      the base-36 digits of a random number, and the fixed domain. */
  function Uid(nowMs: int, randomDigits: string): string {
    IntToString(nowMs) + "-" + randomDigits + "@wedding-invitation"
  }

  predicate IsBase36Digit(c: char) {
    '0' <= c <= '9' || 'a' <= c <= 'z'
  }

  /** An identifier built from base-36 digits stays on one content line. */
  lemma UidNoCr(nowMs: int, randomDigits: string)
    requires forall i | 0 <= i < |randomDigits| :: IsBase36Digit(randomDigits[i])
    ensures NoCrlf(Uid(nowMs, randomDigits))
  {
    IntTextNoCr(nowMs);
    assert '\r' !in "@wedding-invitation";
    forall i | 0 <= i < |randomDigits|
      ensures randomDigits[i] != '\r'
    {
      assert IsBase36Digit(randomDigits[i]);
    }
    NoCrNoCrlf(Uid(nowMs, randomDigits));
  }

  /** The fixed lines hold no carriage return. */
  lemma FixedLinesNoCr()
    ensures '\r' !in "BEGIN:VCALENDAR" && '\r' !in "VERSION:2.0" && '\r' !in "PRODID:-//Wedding Invitation//EN"
    ensures '\r' !in "CALSCALE:GREGORIAN" && '\r' !in "BEGIN:VEVENT" && '\r' !in "END:VEVENT" && '\r' !in "END:VCALENDAR"
  {
  }

  /** The document is one VCALENDAR holding one VEVENT: when the values hold
      no CRLF, a reader splitting the joined text at CRLF finds exactly
      fourteen lines, the begin and end markers in place and every value
      verbatim after its property name. */
  lemma ContentLinesSplit(uid: string, dtStamp: string, dtStart: string, dtEnd: string,
                          title: string, description: string, location: string)
    requires NoCrlf(uid) && NoCrlf(dtStamp) && NoCrlf(dtStart) && NoCrlf(dtEnd)
    requires NoCrlf(title) && NoCrlf(description) && NoCrlf(location)
    ensures var lines := SplitCrlf(JoinCrlf(ContentLines(uid, dtStamp, dtStart, dtEnd, title, description, location)));
            && lines == ContentLines(uid, dtStamp, dtStart, dtEnd, title, description, location)
            && |lines| == 14
            && lines[0] == "BEGIN:VCALENDAR" && lines[13] == "END:VCALENDAR"
            && lines[4] == "BEGIN:VEVENT" && lines[12] == "END:VEVENT"
            && lines[5] == "UID:" + uid
            && lines[6] == "DTSTAMP:" + dtStamp
            && lines[7] == "DTSTART:" + dtStart
            && lines[8] == "DTEND:" + dtEnd
            && lines[9] == "SUMMARY:" + title
            && lines[10] == "DESCRIPTION:" + description
            && lines[11] == "LOCATION:" + location
  {
    var lines := ContentLines(uid, dtStamp, dtStart, dtEnd, title, description, location);
    ContentLinesSingle(uid, dtStamp, dtStart, dtEnd, title, description, location);
    SplitJoin(lines);
  }

  /** Every one of the fourteen lines is free of CRLF when the values are. */
  lemma ContentLinesSingle(uid: string, dtStamp: string, dtStart: string, dtEnd: string,
                           title: string, description: string, location: string)
    requires NoCrlf(uid) && NoCrlf(dtStamp) && NoCrlf(dtStart) && NoCrlf(dtEnd)
    requires NoCrlf(title) && NoCrlf(description) && NoCrlf(location)
    ensures var lines := ContentLines(uid, dtStamp, dtStart, dtEnd, title, description, location);
            forall i | 0 <= i < |lines| :: NoCrlf(lines[i])
  {
    var lines := ContentLines(uid, dtStamp, dtStart, dtEnd, title, description, location);
    FixedLinesNoCr();
    NoCrlfAfter("UID:", uid);
    NoCrlfAfter("DTSTAMP:", dtStamp);
    NoCrlfAfter("DTSTART:", dtStart);
    NoCrlfAfter("DTEND:", dtEnd);
    NoCrlfAfter("SUMMARY:", title);
    NoCrlfAfter("DESCRIPTION:", description);
    NoCrlfAfter("LOCATION:", location);
    forall i | 0 <= i < |lines|
      ensures NoCrlf(lines[i])
    {
      if i == 0 { NoCrNoCrlf(lines[0]); }
      else if i == 1 { NoCrNoCrlf(lines[1]); }
      else if i == 2 { NoCrNoCrlf(lines[2]); }
      else if i == 3 { NoCrNoCrlf(lines[3]); }
      else if i == 4 { NoCrNoCrlf(lines[4]); }
      else if i == 12 { NoCrNoCrlf(lines[12]); }
      else if i == 13 { NoCrNoCrlf(lines[13]); }
    }
  }

  /** A timestamp is a single line. */
  lemma TimestampSingleLine(t: int)
    ensures NoCrlf(ToICSDateString(t))
  {
    TimestampNoCr(UtcFields(t));
    NoCrNoCrlf(ToICSDateString(t));
  }

  /** Split at CRLF, the content `createICSContent` produces is its fourteen
      lines, timestamps included, provided the text values and the identifier
      hold no CRLF. */
  lemma DocumentStructure(ev: CalendarEvent, uid: string, stamp: int)
    requires NoCrlf(ev.title) && NoCrlf(ev.description) && NoCrlf(ev.location) && NoCrlf(uid)
    ensures SplitCrlf(CreateICSContent(ev, uid, stamp))
            == ContentLines(uid, ToICSDateString(stamp), ToICSDateString(ev.start), ToICSDateString(ev.end),
                            ev.title, ev.description, ev.location)
  {
    TimestampSingleLine(stamp);
    TimestampSingleLine(ev.start);
    TimestampSingleLine(ev.end);
    ContentLinesSplit(uid, ToICSDateString(stamp), ToICSDateString(ev.start), ToICSDateString(ev.end),
                      ev.title, ev.description, ev.location);
  }
}
