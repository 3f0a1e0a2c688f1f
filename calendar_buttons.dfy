/**
  The click handler `setupCalendarButtons` installs on every `[data-calendar]`
  button: it reads the button's `data-calendar` value, looks the event up in a
  one-entry table and, for a known event, hands its calendar text to the
  download under the name `<type>-event.ics`.
*/
module CalendarButtons {
  import opened Wrappers
  import opened Decimal
  import opened EcmaTime
  import opened PktDate
  import opened Ics
  import opened Countdown

  /** What `downloadICS` receives: the file name and the file's text. */
  datatype Download = Download(filename: string, content: string)

  /** The texts of the reception's calendar entry. */
  const WalimaTitle: string := "Walima Ceremony - Muhammad Arshad Irshad"
  const WalimaDescription: string :=
    "Walima Ceremony of Muhammad Arshad Irshad " + "with Daughter of Rao Muhammad Sarwar. " + "IN SHA ALLAH."
  const WalimaLocation: string := "Nawab Marquee, Burewala Road, Vehari"

  /** The reception's title and place hold no carriage return. */
  lemma WalimaTextsNoCr()
    ensures '\r' !in WalimaTitle && '\r' !in WalimaLocation
  {
  }

  /** Nor does its description. */
  lemma WalimaDescriptionNoCr()
    ensures '\r' !in WalimaDescription
  {
    DescriptionHeadNoCr();
    DescriptionTailNoCr();
  }

  /** The first piece of the description. */
  lemma DescriptionHeadNoCr()
    ensures '\r' !in "Walima Ceremony of Muhammad Arshad Irshad "
  {
  }

  /** The other two pieces of the description. */
  lemma DescriptionTailNoCr()
    ensures '\r' !in "with Daughter of Rao Muhammad Sarwar. " && '\r' !in "IN SHA ALLAH."
  {
  }

  /** The reception: 1 February 2026, 19:00 to 21:00 PKT. */
  function WalimaEvent(): CalendarEvent {
    CalendarEvent(
      WalimaTitle,
      WalimaDescription,
      WalimaLocation,
      CreateDateInPKT(Fields(2026, 2, 1, 19, 0, 0)),
      CreateDateInPKT(Fields(2026, 2, 1, 21, 0, 0)))
  }

  /** The click handler.  `attr` is what `getAttribute("data-calendar")`
      returns (None for a missing attribute); the identifier and the creation
      instant of the document are passed in.  A missing or empty value, or any
      value other than "walima", returns before anything is encoded. */
  method OnCalendarClick(attr: Option<string>, uid: string, stamp: int) returns (download: Option<Download>)
    ensures download.Some? <==> attr == Some("walima")
    ensures download.Some? ==>
              download.value == Download("walima-event.ics", CreateICSContent(WalimaEvent(), uid, stamp))
  {
    download := None;
    if attr.None? || attr.value == "" {
      return;
    }
    var eventType := attr.value;
    var title := "";
    var description := "";
    var location := "";
    var start := 0;
    var end := 0;
    if eventType == "walima" {
      title := WalimaTitle;
      description := WalimaDescription;
      location := WalimaLocation;
      FebruaryFirstValid(19);
      start := CreateDateInPKT(Fields(2026, 2, 1, 19, 0, 0));
      FebruaryFirstValid(21);
      end := CreateDateInPKT(Fields(2026, 2, 1, 21, 0, 0));
    } else {
      return;
    }
    var ev := CalendarEvent(title, description, location, start, end);
    assert ev == WalimaEvent();
    var content := CreateICSContent(ev, uid, stamp);
    var filename := eventType + "-event.ics";
    WalimaFilename();
    download := Some(Download(filename, content));
  }

  /** The name under which the reception's file is offered. */
  lemma WalimaFilename()
    ensures "walima" + "-event.ics" == "walima-event.ics"
  {
  }

  /** A one-digit field is padded with a '0'. */
  lemma PadOneDigit(b: int)
    requires 0 <= b < 10
    ensures Pad2(b) == ['0', DigitChar(b)]
  {
    assert IntToString(b) == [DigitChar(b)];
    assert Repeat('0', 1) == ['0'];
  }

  /** A two-digit field is written as its two digits. */
  lemma PadTwoDigitChars(a: int, b: int)
    requires 1 <= a < 10 && 0 <= b < 10
    ensures Pad2(10 * a + b) == [DigitChar(a), DigitChar(b)]
  {
    var n := 10 * a + b;
    DivModUnique(n, 10, a, b);
    assert NatToString(n) == NatToString(a) + [DigitChar(b)];
    assert IntToString(n) == [DigitChar(a), DigitChar(b)];
  }

  /** The timestamp text is made of the year's text and the five padded fields. */
  lemma StampPieces(f: Fields, y: string, mo: string, d: string, h: string, mi: string, se: string)
    requires IntToString(f.year) == y && Pad2(f.month) == mo && Pad2(f.day) == d
    requires Pad2(f.hour) == h && Pad2(f.minute) == mi && Pad2(f.second) == se
    ensures FieldsToICS(f) == y + mo + d + "T" + h + mi + se + "Z"
  {
  }

  /** The year of the wedding, as `String` writes it. */
  lemma YearText()
    ensures IntToString(2026) == "2026"
  {
  }

  /** The one-digit fields of the wedding's timestamps, as `pad` writes them. */
  lemma OneDigitTexts()
    ensures Pad2(0) == "00" && Pad2(1) == "01" && Pad2(2) == "02"
  {
    PadOneDigit(0);
    PadOneDigit(1);
    PadOneDigit(2);
  }

  /** The hours of the reception in UTC, as `pad` writes them. */
  lemma ReceptionHourTexts()
    ensures Pad2(14) == "14" && Pad2(16) == "16"
  {
    PadTwoDigitChars(1, 4);
    PadTwoDigitChars(1, 6);
  }

  /** The day and hour of the countdown target in UTC, as `pad` writes them. */
  lemma TargetFieldTexts()
    ensures Pad2(19) == "19" && Pad2(31) == "31"
  {
    PadTwoDigitChars(1, 9);
    PadTwoDigitChars(3, 1);
  }

  /** The three timestamps, spelled out. */
  lemma StampLiterals()
    ensures "2026" + "02" + "01" + "T" + "14" + "00" + "00" + "Z" == "20260201T140000Z"
    ensures "2026" + "02" + "01" + "T" + "16" + "00" + "00" + "Z" == "20260201T160000Z"
    ensures "2026" + "01" + "31" + "T" + "19" + "00" + "00" + "Z" == "20260131T190000Z"
  {
  }

  /** 14:00 and 16:00 UTC on 1 February 2026, 19:00 UTC on 31 January 2026. */
  lemma StampTexts()
    ensures FieldsToICS(Fields(2026, 2, 1, 14, 0, 0)) == "20260201T140000Z"
    ensures FieldsToICS(Fields(2026, 2, 1, 16, 0, 0)) == "20260201T160000Z"
    ensures FieldsToICS(Fields(2026, 1, 31, 19, 0, 0)) == "20260131T190000Z"
  {
    YearText();
    OneDigitTexts();
    ReceptionHourTexts();
    TargetFieldTexts();
    StampLiterals();
    StampPieces(Fields(2026, 2, 1, 14, 0, 0), "2026", "02", "01", "14", "00", "00");
    StampPieces(Fields(2026, 2, 1, 16, 0, 0), "2026", "02", "01", "16", "00", "00");
    StampPieces(Fields(2026, 1, 31, 19, 0, 0), "2026", "01", "31", "19", "00", "00");
  }

  /** Formatting an instant made by `createDateInPKT` writes the PKT fields
      moved back five hours. */
  lemma PktStamp(f: Fields)
    requires ValidWallClock(f)
    ensures ToICSDateString(CreateDateInPKT(f)) == FieldsToICS(PktToUtcWallClock(f))
  {
    CreateDateInPKTFields(f);
  }

  /** Two wall-clock times of the same day are as many hours apart as their hours differ. */
  lemma SameDayHours(f: Fields, h: int)
    requires ValidWallClock(f) && 0 <= h < 24
    ensures ValidWallClock(f.(hour := h))
    ensures CreateDateInPKT(f.(hour := h)) - CreateDateInPKT(f) == (h - f.hour) * MsPerHour
  {
  }

  /** Every whole hour of 1 February 2026 is a valid wall clock. */
  lemma FebruaryFirstValid(h: int)
    requires 0 <= h < 24
    ensures ValidWallClock(Fields(2026, 2, 1, h, 0, 0))
  {
  }

  /** From 05:00 PKT on, only the hour changes between PKT and UTC. */
  lemma LateHourUtc(f: Fields)
    requires ValidFields(f) && 5 <= f.hour
    ensures PktToUtcWallClock(f) == f.(hour := f.hour - 5)
  {
  }

  /** From 05:00 PKT on, the timestamp shows the same day, five hours earlier. */
  lemma LateHourStamp(f: Fields)
    requires ValidWallClock(f) && 5 <= f.hour
    ensures ToICSDateString(CreateDateInPKT(f)) == FieldsToICS(f.(hour := f.hour - 5))
  {
    PktStamp(f);
    LateHourUtc(f);
  }

  /** `createDateInPKT(2026, 2, 1, 19, 0, 0)` formats to `20260201T140000Z`
      and `createDateInPKT(2026, 2, 1, 21, 0, 0)` to `20260201T160000Z`. */
  lemma WalimaStamps()
    ensures ToICSDateString(WalimaEvent().start) == "20260201T140000Z"
    ensures ToICSDateString(WalimaEvent().end) == "20260201T160000Z"
  {
    var f := Fields(2026, 2, 1, 19, 0, 0);
    FebruaryFirstValid(19);
    FebruaryFirstValid(21);
    LateHourStamp(f);
    LateHourStamp(f.(hour := 21));
    assert f.(hour := 19 - 5) == Fields(2026, 2, 1, 14, 0, 0);
    assert f.(hour := 21).(hour := 21 - 5) == Fields(2026, 2, 1, 16, 0, 0);
    StampTexts();
  }

  /** The reception's file, read line by line: the fourteen lines with the
      reception's texts verbatim and its two UTC timestamps, provided the
      identifier holds no CRLF. */
  lemma WalimaDocument(uid: string, stamp: int)
    requires NoCrlf(uid)
    ensures SplitCrlf(CreateICSContent(WalimaEvent(), uid, stamp))
            == ContentLines(uid, ToICSDateString(stamp), "20260201T140000Z", "20260201T160000Z",
                            WalimaTitle, WalimaDescription, WalimaLocation)
  {
    WalimaTextsNoCr();
    WalimaDescriptionNoCr();
    NoCrNoCrlf(WalimaTitle);
    NoCrNoCrlf(WalimaDescription);
    NoCrNoCrlf(WalimaLocation);
    DocumentStructure(WalimaEvent(), uid, stamp);
    WalimaStamps();
  }

  /** The reception's DESCRIPTION line is 105 characters of ASCII, so 105
      octets: longer than the 75 octets after which section 3.1 of RFC 5545
      asks for folding, which the script does not do. */
  lemma DescriptionLineLength()
    ensures |"DESCRIPTION:" + WalimaDescription| == 105
  {
  }

  /** The reception lasts two hours. */
  lemma WalimaDuration()
    ensures WalimaEvent().end - WalimaEvent().start == 2 * MsPerHour
  {
    FebruaryFirstValid(19);
    SameDayHours(Fields(2026, 2, 1, 19, 0, 0), 21);
  }

  /** Midnight PKT on 1 February 2026 is 19:00 UTC on 31 January. */
  lemma TargetUtcClock()
    ensures PktToUtcWallClock(Fields(2026, 2, 1, 0, 0, 0)) == Fields(2026, 1, 31, 19, 0, 0)
  {
    assert DaysInMonth(2026, 1) == 31;
  }

  /** The countdown's midnight target borrows a day across the offset:
      `createDateInPKT(2026, 2, 1, 0, 0, 0)` formats to `20260131T190000Z`. */
  lemma CountdownTargetStamp()
    ensures ToICSDateString(CountdownTarget()) == "20260131T190000Z"
  {
    var f := Fields(2026, 2, 1, 0, 0, 0);
    FebruaryFirstValid(0);
    TargetUtcClock();
    PktStamp(f);
    StampTexts();
  }

  /** The countdown reaches zero nineteen hours before the reception starts. */
  lemma CountdownTargetBeforeWalima()
    ensures WalimaEvent().start - CountdownTarget() == 19 * MsPerHour
  {
    FebruaryFirstValid(0);
    SameDayHours(Fields(2026, 2, 1, 0, 0, 0), 19);
  }
}
