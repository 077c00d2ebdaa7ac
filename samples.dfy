/** Concrete lines of an LRC file and what the parser makes of them. Each
    sample `X` is proved by `XSteps`, which names the line's parts (keys,
    digits, remainder) and goes through the general lemmas about the
    scanner, the classifier and the decoder. */
module Samples {
  import opened Wrappers
  import opened Text
  import opened Numbers
  import opened Scanner
  import opened Lrc

  /** `[00:12.34]Hello` is the lyric `Hello` shown at 12.34 s. */
  lemma LyricSample()
    ensures ParseLine("[00:12.34]Hello", 3) == Ok(Some(Lyric("Hello", [12340])))
  {
    LyricSampleSteps("[00:12.34]Hello");
  }

  lemma {:induction false} LyricSampleSteps(line: string)
    requires line == "[00:12.34]Hello"
    ensures ParseLine(line, 3) == Ok(Some(Lyric("Hello", [12340])))
  {
    var m, s, f, text := "00", "12", "34", "Hello";
    var seg := Segment(m, s + ['.'] + f);
    assert Render(seg) + text == line;
    ScannedSample(seg, text, line);
    SampleTimestamp(m, s, f, text);
  }

  lemma {:induction false} SampleTimestamp(m: string, s: string, f: string, text: string)
    requires m == "00" && s == "12" && f == "34"
    ensures Classify([Segment(m, s + ['.'] + f)], text, 3) == Ok(Some(Lyric(text, [12340])))
  {
    var seg := Segment(m, s + ['.'] + f);
    SampleMillis(m, s, f);
    TimestampsSpec([seg]);
    var ts := Timestamps([seg]).value;
    assert ts == [12340] by { assert ts[0] == 12340; }
    TrimmedIsFixed(m);
    ParseI64Digits(m);
    TimestampLine([seg], text, 3);
  }

  lemma {:induction false} SampleMillis(m: string, s: string, f: string)
    requires m == "00" && s == "12" && f == "34"
    ensures SegmentMillis(Segment(m, s + ['.'] + f)) == Some(12340)
  {
    SampleDigits(m, s, f);
    SegmentMillisValue(m, s, '.', f);
    ClockMillisPlaces(s, f);
    var c := ClockMillis(s, f);
    assert c == 12 * 1000 + 34 * Pow10(1);
    assert Pow10(1) == 10;
    assert DigitsValue(m) * 60000 == 0;
  }

  lemma {:induction false} SampleDigits(m: string, s: string, f: string)
    requires m == "00" && s == "12" && f == "34"
    ensures AllDigits(m) && AllDigits(s) && AllDigits(f) && |f| == 2
    ensures DigitsValue(m) == 0 && DigitsValue(s) == 12 && DigitsValue(f) == 34
  {
    assert AllDigits(m) && AllDigits(s) && AllDigits(f);
    TwoDigits(m);
    TwoDigits(s);
    TwoDigits(f);
  }

  /** The value of a two-digit string. */
  lemma TwoDigits(d: string)
    requires |d| == 2 && AllDigits(d)
    ensures DigitsValue(d) == 10 * (d[0] as int - '0' as int) + (d[1] as int - '0' as int)
  {
    assert d[..1][..0] == [];
    assert DigitsValue(d[..1]) == d[0] as int - '0' as int;
  }

  /** `[00:12.00][00:45.00]Shared` is one lyric shown twice, at 12 s and at
      45 s, its timestamps in the order of the tags. */
  lemma SharedSample()
    ensures ParseLine("[00:12.00][00:45.00]Shared", 0) == Ok(Some(Lyric("Shared", [12000, 45000])))
  {
    SharedSampleSteps("[00:12.00][00:45.00]Shared");
  }

  lemma {:induction false} SharedSampleSteps(line: string)
    requires line == "[00:12.00][00:45.00]Shared"
    ensures ParseLine(line, 0) == Ok(Some(Lyric("Shared", [12000, 45000])))
  {
    var a, b, text := Segment("00", "12.00"), Segment("00", "45.00"), "Shared";
    SharedRender(line);
    TwoGroupLine(a, b, text, line);
    var m, s1, s2, f := "00", "12", "45", "00";
    assert a == Segment(m, s1 + ['.'] + f) && b == Segment(m, s2 + ['.'] + f);
    SharedTimestamps(m, s1, s2, f, text);
  }

  lemma {:induction false} SharedRender(line: string)
    requires line == "[00:12.00][00:45.00]Shared"
    ensures Render(Segment("00", "12.00")) + Render(Segment("00", "45.00")) + "Shared" == line
  {
  }

  lemma {:induction false} SharedTimestamps(m: string, s1: string, s2: string, f: string, text: string)
    requires m == "00" && s1 == "12" && s2 == "45" && f == "00"
    ensures Classify([Segment(m, s1 + ['.'] + f), Segment(m, s2 + ['.'] + f)], text, 0)
      == Ok(Some(Lyric(text, [12000, 45000])))
  {
    var segs := [Segment(m, s1 + ['.'] + f), Segment(m, s2 + ['.'] + f)];
    SharedMillis(m, s1, s2, f);
    TimestampsSpec(segs);
    var ts := Timestamps(segs).value;
    assert ts == [12000, 45000] by { assert ts[0] == 12000 && ts[1] == 45000; }
    TrimmedIsFixed(m);
    ParseI64Digits(m);
    TimestampLine(segs, text, 0);
  }

  lemma {:induction false} SharedMillis(m: string, s1: string, s2: string, f: string)
    requires m == "00" && s1 == "12" && s2 == "45" && f == "00"
    ensures SegmentMillis(Segment(m, s1 + ['.'] + f)) == Some(12000)
    ensures SegmentMillis(Segment(m, s2 + ['.'] + f)) == Some(45000)
  {
    TwoDigitClock(m, s1, f);
    TwoDigitClock(m, s2, f);
    SharedDigits(m, s1, s2, f);
  }

  lemma {:induction false} SharedDigits(m: string, s1: string, s2: string, f: string)
    requires m == "00" && s1 == "12" && s2 == "45" && f == "00"
    ensures AllDigits(m) && AllDigits(s1) && AllDigits(s2) && AllDigits(f)
    ensures DigitsValue(m) == 0 && DigitsValue(s1) == 12 && DigitsValue(s2) == 45 && DigitsValue(f) == 0
  {
    assert AllDigits(m) && AllDigits(s1) && AllDigits(s2);
    TwoDigits(m);
    TwoDigits(s1);
    TwoDigits(s2);
  }

  /** A `[mm:ss.ff]` segment of two-digit fields, in milliseconds. */
  lemma {:induction false} TwoDigitClock(m: string, s: string, f: string)
    requires |m| == 2 && |s| == 2 && |f| == 2 && AllDigits(m) && AllDigits(s) && AllDigits(f)
    ensures SegmentMillis(Segment(m, s + ['.'] + f))
      == Some(DigitsValue(m) * 60000 + DigitsValue(s) * 1000 + DigitsValue(f) * 10)
  {
    SegmentMillisValue(m, s, '.', f);
    ClockMillisPlaces(s, f);
    assert Pow10(1) == 10;
  }

  /** `[offset:-250]` is an offset of minus 250 ms. */
  lemma OffsetSample()
    ensures ParseLine("[offset:-250]", 1) == Ok(Some(Metadata(Offset(-250))))
  {
    OffsetSampleSteps("[offset:-250]");
  }

  lemma {:induction false} OffsetSampleSteps(line: string)
    requires line == "[offset:-250]"
    ensures ParseLine(line, 1) == Ok(Some(Metadata(Offset(-250))))
  {
    var key, value := "offset", "-250";
    var seg := Segment(key, value);
    assert Render(seg) + [] == line;
    ScannedSample(seg, [], line);
    SampleOffset(key, value);
  }

  lemma {:induction false} SampleOffset(key: string, value: string)
    requires key == "offset" && value == "-250"
    ensures Classify([Segment(key, value)], [], 1) == Ok(Some(Metadata(Offset(-250))))
  {
    TrimmedIsFixed(key);
    OffsetValue(value);
    OffsetLine([Segment(key, value)], [], 1);
  }

  lemma {:induction false} OffsetValue(value: string)
    requires value == "-250"
    ensures ParseI64(Trim(value)) == Some(-250)
  {
    TrimmedIsFixed(value);
    MinusValue(value);
  }

  /** `-250` reads back as the number it spells. */
  lemma {:induction false} MinusValue(value: string)
    requires value == "-250"
    ensures ParseI64(value) == Some(-250)
  {
    ParseI64ShowInt(-250);
    assert ShowInt(-250) == value;
  }

  /** `[offset:+250]`: a leading `+` is accepted, so this is an offset of
      250 ms. */
  lemma PlusOffsetSample()
    ensures ParseLine("[offset:+250]", 5) == Ok(Some(Metadata(Offset(250))))
  {
    PlusOffsetSampleSteps("[offset:+250]");
  }

  lemma {:induction false} PlusOffsetSampleSteps(line: string)
    requires line == "[offset:+250]"
    ensures ParseLine(line, 5) == Ok(Some(Metadata(Offset(250))))
  {
    var key, value := "offset", "+250";
    var seg := Segment(key, value);
    assert Render(seg) + [] == line;
    ScannedSample(seg, [], line);
    SamplePlusOffset(key, value);
  }

  lemma {:induction false} SamplePlusOffset(key: string, value: string)
    requires key == "offset" && value == "+250"
    ensures Classify([Segment(key, value)], [], 5) == Ok(Some(Metadata(Offset(250))))
  {
    TrimmedIsFixed(key);
    TrimmedIsFixed(value);
    PlusValue(value, "250");
    OffsetLine([Segment(key, value)], [], 5);
  }

  /** `+250` reads as 250. */
  lemma {:induction false} PlusValue(value: string, digits: string)
    requires value == "+250" && digits == "250"
    ensures ParseI64(value) == Some(250)
  {
    assert AllDigits(digits);
    assert digits[..2] == "25";
    TwoDigits(digits[..2]);
    assert DigitsValue(digits) == 250;
    ParseI64Signed("+", digits);
    assert "+" + digits == value;
  }

  /** `[offset:abc]` holds no number, so the line fails with `InvalidOffset`. */
  lemma BadOffsetSample()
    ensures ParseLine("[offset:abc]", 4) == Err(InvalidOffset(4))
  {
    BadOffsetSampleSteps("[offset:abc]");
  }

  lemma {:induction false} BadOffsetSampleSteps(line: string)
    requires line == "[offset:abc]"
    ensures ParseLine(line, 4) == Err(InvalidOffset(4))
  {
    var key, value := "offset", "abc";
    var seg := Segment(key, value);
    assert Render(seg) + [] == line;
    ScannedSample(seg, [], line);
    SampleBadOffset(key, value);
  }

  lemma {:induction false} SampleBadOffset(key: string, value: string)
    requires key == "offset" && value == "abc"
    ensures Classify([Segment(key, value)], [], 4) == Err(InvalidOffset(4))
  {
    TrimmedIsFixed(key);
    TrimmedIsFixed(value);
    NotANumber(value);
    OffsetLine([Segment(key, value)], [], 4);
  }

  /** `abc` neither starts with a sign nor is made of digits. */
  lemma {:induction false} NotANumber(value: string)
    requires value == "abc"
    ensures ParseI64(value) == None
  {
    assert SplitSign(value) == (false, value);
    assert !IsDigit(value[0]);
  }

  /** `[ar: Someone ]` names the artist `Someone`, trimmed. */
  lemma ArtistSample()
    ensures ParseLine("[ar: Someone ]", 0) == Ok(Some(Metadata(Artist("Someone"))))
  {
    ArtistSampleSteps("[ar: Someone ]");
  }

  lemma {:induction false} ArtistSampleSteps(line: string)
    requires line == "[ar: Someone ]"
    ensures ParseLine(line, 0) == Ok(Some(Metadata(Artist("Someone"))))
  {
    var key, name := "ar", "Someone";
    var seg := Segment(key, " " + name + " ");
    assert Render(seg) + [] == line;
    ScannedSample(seg, [], line);
    SampleArtist(key, name);
  }

  lemma {:induction false} SampleArtist(key: string, name: string)
    requires key == "ar" && name == "Someone"
    ensures Classify([Segment(key, " " + name + " ")], [], 0) == Ok(Some(Metadata(Artist(name))))
  {
    var seg := Segment(key, " " + name + " ");
    TrimmedIsFixed(key);
    TrimPadded(" ", name, " ");
    NamedTagKind(seg);
  }

  /** `[ 00:12.34]x` is taken for a timestamp, since its key trims to an
      integer, and then fails, since the key is decoded untrimmed. */
  lemma PaddedMinuteSample()
    ensures ParseLine("[ 00:12.34]x", 2) == Err(InvalidTimestamp(2))
  {
    PaddedMinuteSampleSteps("[ 00:12.34]x");
  }

  lemma {:induction false} PaddedMinuteSampleSteps(line: string)
    requires line == "[ 00:12.34]x"
    ensures ParseLine(line, 2) == Err(InvalidTimestamp(2))
  {
    var m, value, text := "00", "12.34", "x";
    var seg := Segment(" " + m, value);
    assert Render(seg) + text == line;
    ScannedSample(seg, text, line);
    SamplePadded(m, value, text);
  }

  lemma {:induction false} SamplePadded(m: string, value: string, text: string)
    requires m == "00"
    ensures Classify([Segment(" " + m, value)], text, 2) == Err(InvalidTimestamp(2))
  {
    var key := " " + m;
    TrimPadded(" ", m, []);
    assert " " + m + [] == key;
    ParseI64Digits(m);
    PaddedMinuteRejected([Segment(key, value)], text, 2);
  }

  /** Text without a leading tag is an error naming its line. */
  lemma UntaggedSample()
    ensures ParseLine("Hello", 7) == Err(NoTagInNonEmptyLine(7))
  {
    UntaggedSampleSteps("Hello");
  }

  lemma {:induction false} UntaggedSampleSteps(line: string)
    requires line == "Hello"
    ensures ParseLine(line, 7) == Err(NoTagInNonEmptyLine(7))
  {
    assert !IsWhitespace(line[0]);
    MissingTagFails(line, 7);
  }

  /** A tag the parser does not know drops its line without an error. */
  lemma UnknownTagSample()
    ensures ParseLine("[xx:yy]Hello", 7) == Ok(None)
  {
    UnknownTagSampleSteps("[xx:yy]Hello");
  }

  lemma {:induction false} UnknownTagSampleSteps(line: string)
    requires line == "[xx:yy]Hello"
    ensures ParseLine(line, 7) == Ok(None)
  {
    var key, value, text := "xx", "yy", "Hello";
    var seg := Segment(key, value);
    assert Render(seg) + text == line;
    ScannedSample(seg, text, line);
    SampleUnknown(key, value, text);
  }

  lemma {:induction false} SampleUnknown(key: string, value: string, text: string)
    requires key == "xx" && value == "yy"
    ensures Classify([Segment(key, value)], text, 7) == Ok(None)
  {
    TrimmedIsFixed(key);
    TrimmedIsFixed(value);
    UnknownTagIgnored([Segment(key, value)], text, 7);
  }

  /** A line made of two well-formed groups and a remainder that does not
      start another is classified by those groups. */
  lemma {:induction false} TwoGroupLine(a: Segment, b: Segment, rest: string, line: string)
    requires WellFormed(a) && WellFormed(b) && Render(a) + Render(b) + rest == line
    requires rest == [] || rest[0] != '['
    ensures forall n: nat :: ParseLine(line, n) == Classify([a, b], rest, n)
  {
    var segs := [a, b];
    assert RenderLine(segs, rest) == line by {
      assert segs[1..] == [b] && [b][1..] == [];
      assert RenderLine([b], rest) == Render(b) + rest;
      assert Render(a) + (Render(b) + rest) == line;
    }
    RenderScanRoundTrip(segs, rest);
    assert line[0] == '[';
  }

  /** A line made of one well-formed group and a remainder that does not
      start another is classified by that group. */
  lemma {:induction false} ScannedSample(seg: Segment, rest: string, line: string)
    requires WellFormed(seg) && Render(seg) + rest == line
    requires rest == [] || rest[0] != '['
    ensures forall n: nat :: ParseLine(line, n) == Classify([seg], rest, n)
  {
    assert RenderLine([seg], rest) == line by {
      assert [seg][1..] == [];
    }
    RenderScanRoundTrip([seg], rest);
    assert line[0] == '[';
  }
}
