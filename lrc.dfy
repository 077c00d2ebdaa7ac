/** The LRC line parser: classification of a scanned line by its first
    segment, the timestamp decoder, and the fail-fast document loop. */
module Lrc {
  import opened Wrappers
  import opened Text
  import opened Numbers
  import opened Scanner

  /** One recognised metadata tag. Every variant but `Offset` holds text;
      `Offset` holds a signed millisecond count. */
  datatype LrcMetadata =
    | Artist(text: string)
    | Album(text: string)
    | Title(text: string)
    | Lyricist(text: string)
    | Author(text: string)
    | Length(text: string)
    | Offset(millis: int)
    | Application(text: string)
    | AppVersion(text: string)
    | Comment(text: string)

  /** What one line yields: a metadata tag, or a lyric text with the
      millisecond timestamps (offset not applied) at which it is shown. */
  datatype LrcItem =
    | Metadata(meta: LrcMetadata)
    | Lyric(text: string, timestamps: seq<int>)

  /** The three failures, each tagged with its 0-based line number. */
  datatype LrcParseError =
    | NoTagInNonEmptyLine(line: nat)
    | InvalidTimestamp(line: nat)
    | InvalidOffset(line: nat)

  /** The textual metadata tag a trimmed key names, holding `value`; None for
      every other key (`offset` included, which is parsed apart). No code is
      a number, so no code is ever mistaken for a minute. */
  function NamedTag(code: string, value: string): (r: Option<LrcMetadata>)
    ensures r.Some? <==> code in {"ar", "al", "ti", "au", "length", "by", "re", "ve", "#"}
    ensures r.Some? ==> !r.value.Offset? && r.value.text == value && Code(r.value) == code
    ensures r.Some? ==> code != [] && !IsDigit(code[|code| - 1])
    ensures r.Some? ==> code != "offset"
  {
    if code == "ar" then Some(Artist(value))
    else if code == "al" then Some(Album(value))
    else if code == "ti" then Some(Title(value))
    else if code == "au" then Some(Lyricist(value))
    else if code == "length" then Some(Length(value))
    else if code == "by" then Some(Author(value))
    else if code == "re" then Some(Application(value))
    else if code == "ve" then Some(AppVersion(value))
    else if code == "#" then Some(Comment(value))
    else None
  }

  /** The short code that names a textual metadata tag. */
  function Code(meta: LrcMetadata): (r: string)
    requires !meta.Offset?
  {
    match meta
    case Artist(_) => "ar"
    case Album(_) => "al"
    case Title(_) => "ti"
    case Lyricist(_) => "au"
    case Author(_) => "by"
    case Length(_) => "length"
    case Application(_) => "re"
    case AppVersion(_) => "ve"
    case Comment(_) => "#"
  }

  /** Every textual metadata tag is recognised back from its code. */
  lemma {:induction false} NamedTagCode(meta: LrcMetadata)
    requires !meta.Offset?
    ensures NamedTag(Code(meta), meta.text) == Some(meta)
  {
  }

  /** One `[minutes:seconds]` segment in milliseconds: the seconds, with
      every `:` read as a decimal point, as an exact decimal; the untrimmed
      minutes as an i64; `minutes * 60 * 1000` plus the seconds' whole
      milliseconds. None stands for InvalidTimestamp. */
  function SegmentMillis(seg: Segment): (r: Option<int>)
    ensures r.Some? ==> ParseI64(seg.key).Some?
  {
    match ParseDecimal(Replace(seg.value, ':', '.'))
    case None => None
    case Some(seconds) =>
      match ParseI64(seg.key)
      case None => None
      case Some(minutes) =>
        match Millis(seconds)
        case None => None
        case Some(ms) => Some(minutes * 60 * 1000 + ms)
  }

  /** The values of a sequence of options in order, or None as soon as one
      of them is None. */
  function AllSome<T>(opts: seq<Option<T>>): (r: Option<seq<T>>)
    ensures r.Some? ==> |r.value| == |opts|
  {
    if opts == [] then Some([])
    else
      match opts[0]
      case None => None
      case Some(x) =>
        match AllSome(opts[1..])
        case None => None
        case Some(xs) => Some([x] + xs)
  }

  /** `AllSome` succeeds exactly when every option holds a value, and then
      keeps every value at its place. */
  lemma {:induction false} AllSomeSpec<T>(opts: seq<Option<T>>)
    ensures AllSome(opts).Some? <==> forall i :: 0 <= i < |opts| ==> opts[i].Some?
    ensures AllSome(opts).Some? ==> forall i :: 0 <= i < |opts| ==> AllSome(opts).value[i] == opts[i].value
  {
    if opts != [] {
      AllSomeSpec(opts[1..]);
      assert forall i :: 1 <= i < |opts| ==> opts[1..][i - 1] == opts[i];
    }
  }

  /** Each segment's milliseconds, segment by segment. */
  function SegmentsMillis(segs: seq<Segment>): (r: seq<Option<int>>)
    ensures |r| == |segs|
  {
    seq(|segs|, i requires 0 <= i < |segs| => SegmentMillis(segs[i]))
  }

  /** Every segment's milliseconds in segment order, or None as soon as one
      segment fails to decode. */
  function Timestamps(segs: seq<Segment>): (r: Option<seq<int>>)
    ensures r.Some? ==> |r.value| == |segs|
  {
    AllSome(SegmentsMillis(segs))
  }

  /** The timestamps exist exactly when every segment decodes, and then the
      i-th timestamp is the i-th segment's milliseconds. */
  lemma {:induction false} TimestampsSpec(segs: seq<Segment>)
    ensures Timestamps(segs).Some? <==> forall i :: 0 <= i < |segs| ==> SegmentMillis(segs[i]).Some?
    ensures Timestamps(segs).Some? ==>
      forall i :: 0 <= i < |segs| ==> Timestamps(segs).value[i] == SegmentMillis(segs[i]).value
  {
    var opts := SegmentsMillis(segs);
    AllSomeSpec(opts);
    assert forall i :: 0 <= i < |segs| ==> opts[i] == SegmentMillis(segs[i]);
  }

  /** `parse_single` as a function of the line and its number: blank lines
      yield nothing, a line without a leading `[key:value]` fails, and any
      other line is classified by its segments. */
  function ParseLine(line: string, lineNum: nat): (r: Result<Option<LrcItem>, LrcParseError>)
    ensures r.Err? ==> r.error.line == lineNum
    ensures r.Ok? && r.value.Some? && r.value.value.Lyric? ==> |r.value.value.timestamps| >= 1
  {
    if Trim(line) == [] then Ok(None)
    else
      match Scan(line)
      case None => Err(NoTagInNonEmptyLine(lineNum))
      case Some((tags, text)) => Classify(tags, text, lineNum)
  }

  /** What the first segment makes of a line, in the order of the arms of
      the `match` in `parse_single`. */
  datatype LineKind =
    | EmptyComment
    | Named(meta: LrcMetadata)
    | OffsetTag
    | Minutes
    | Unrecognised

  /** The arm of `parse_single`'s `match` a first segment selects: `[:]`
      (raw key and value both empty), a short code or `offset` (compared
      after trimming the key), or a trimmed key that is an i64. */
  function KindOf(first: Segment): (k: LineKind)
    ensures k.EmptyComment? <==> first.key == [] && first.value == []
    ensures k.Named? ==> !k.meta.Offset? && k.meta.text == Trim(first.value)
    ensures k.Minutes? ==> first.key != [] && ParseI64(Trim(first.key)).Some?
  {
    if first.key == [] && first.value == [] then EmptyComment
    else
      var attr := Trim(first.key);
      match NamedTag(attr, Trim(first.value))
      case Some(meta) => Named(meta)
      case None =>
        if attr == "offset" then OffsetTag
        else if ParseI64(attr).Some? then Minutes
        else Unrecognised
  }

  /** The `match` of `parse_single` on a scanned line: the first segment
      alone decides what the line is, and only a lyric line looks at the
      other segments. */
  function Classify(tags: seq<Segment>, text: string, lineNum: nat): (r: Result<Option<LrcItem>, LrcParseError>)
    requires |tags| >= 1
    ensures r.Err? ==> r.error.line == lineNum
    ensures r.Ok? && r.value.Some? && r.value.value.Lyric? ==> |r.value.value.timestamps| == |tags|
  {
    match KindOf(tags[0])
    case EmptyComment => Ok(Some(Metadata(Comment(text))))
    case Named(meta) => Ok(Some(Metadata(meta)))
    case OffsetTag =>
      (match ParseI64(Trim(tags[0].value))
       case None => Err(InvalidOffset(lineNum))
       case Some(offset) => Ok(Some(Metadata(Offset(offset)))))
    case Minutes =>
      (match Timestamps(tags)
       case None => Err(InvalidTimestamp(lineNum))
       case Some(ts) => Ok(Some(Lyric(text, ts))))
    case Unrecognised => Ok(None)
  }

  /** The decoding loop of `parse_single`: every segment in turn, stopping
      at the first that fails. */
  method DecodeTimestamps(tags: seq<Segment>, lineNum: nat) returns (r: Result<seq<int>, LrcParseError>)
    ensures r.Ok? <==> Timestamps(tags).Some?
    ensures r.Ok? ==> r.value == Timestamps(tags).value
    ensures r.Err? ==> r.error == InvalidTimestamp(lineNum)
  {
    var timestamps: seq<int> := [];
    ghost var opts := SegmentsMillis(tags);
    assert opts[0..] == opts;
    PrependNil(Timestamps(tags));
    for i := 0 to |tags|
      invariant |timestamps| == i
      invariant Timestamps(tags) == Prepend(timestamps, AllSome(opts[i..]))
    {
      assert opts[i..][1..] == opts[i + 1..];
      assert opts[i..][0] == SegmentMillis(tags[i]);
      var t := DecodeSegment(tags[i]);
      if t.None? {
        return Err(InvalidTimestamp(lineNum));
      }
      PrependSnoc(timestamps, t.value, AllSome(opts[i + 1..]));
      timestamps := timestamps + [t.value];
    }
    assert opts[|tags|..] == [];
    assert timestamps + [] == timestamps;
    return Ok(timestamps);
  }

  /** The body of the decoding loop: the seconds as a decimal, the
      untrimmed minutes as an i64, then the seconds' milliseconds. */
  method DecodeSegment(seg: Segment) returns (r: Option<int>)
    ensures r == SegmentMillis(seg)
  {
    var seconds := ParseDecimal(Replace(seg.value, ':', '.'));
    if seconds.None? {
      return None;
    }
    var minutes := ParseI64(seg.key);
    if minutes.None? {
      return None;
    }
    var millisec := Millis(seconds.value);
    if millisec.None? {
      return None;
    }
    return Some(minutes.value * 60 * 1000 + millisec.value);
  }

  /** The timestamps decoded so far in front of those still to come, or
      None when one still to come fails. */
  function Prepend(done: seq<int>, rest: Option<seq<int>>): (r: Option<seq<int>>) {
    match rest
    case None => None
    case Some(ts) => Some(done + ts)
  }

  lemma {:induction false} PrependNil(rest: Option<seq<int>>)
    ensures Prepend([], rest) == rest
  {
    if rest.Some? {
      assert [] + rest.value == rest.value;
    }
  }

  lemma {:induction false} PrependSnoc(done: seq<int>, t: int, rest: Option<seq<int>>)
    ensures Prepend(done, Prepend([t], rest)) == Prepend(done + [t], rest)
  {
    if rest.Some? {
      assert done + ([t] + rest.value) == done + [t] + rest.value;
    }
  }

  /** `parse_single`: the blank check and the scan, then the classification. */
  method ParseSingle(line: string, lineNum: nat) returns (r: Result<Option<LrcItem>, LrcParseError>)
    ensures r == ParseLine(line, lineNum)
  {
    if Trim(line) == [] {
      return Ok(None);
    }
    var scanned := Scan(line);
    if scanned.None? {
      return Err(NoTagInNonEmptyLine(lineNum));
    }
    var (tags, text) := scanned.value;
    r := ClassifySegments(tags, text, lineNum);
  }

  /** The `match` of `parse_single`, with the timestamp decoder run as its
      loop. */
  method ClassifySegments(tags: seq<Segment>, text: string, lineNum: nat) returns (r: Result<Option<LrcItem>, LrcParseError>)
    requires |tags| >= 1
    ensures r == Classify(tags, text, lineNum)
  {
    match KindOf(tags[0])
    case EmptyComment =>
      return Ok(Some(Metadata(Comment(text))));
    case Named(meta) =>
      return Ok(Some(Metadata(meta)));
    case OffsetTag =>
      var offset := ParseI64(Trim(tags[0].value));
      if offset.None? {
        return Err(InvalidOffset(lineNum));
      }
      return Ok(Some(Metadata(Offset(offset.value))));
    case Minutes =>
      var timestamps :- DecodeTimestamps(tags, lineNum);
      return Ok(Some(Lyric(text, timestamps)));
    case Unrecognised =>
      return Ok(None);
  }

  /** Blank and whitespace-only lines yield nothing and no error. */
  lemma {:induction false} BlankLineIgnored(line: string, lineNum: nat)
    requires IsBlank(line)
    ensures ParseLine(line, lineNum) == Ok(None)
  {
  }

  /** A line that is not blank and does not start with a complete
      `[key:value]` fails as NoTagInNonEmptyLine; so does one that starts
      with whitespace before its first `[`. */
  lemma {:induction false} MissingTagFails(line: string, lineNum: nat)
    requires !IsBlank(line) && (ScanSegment(line).None? || IsWhitespace(line[0]))
    ensures ParseLine(line, lineNum) == Err(NoTagInNonEmptyLine(lineNum))
  {
  }

  /** A line that starts with a complete group is classified by its
      segments and remainder. */
  lemma {:induction false} ScannedLine(line: string, lineNum: nat)
    requires Scan(line).Some?
    ensures ParseLine(line, lineNum) == Classify(Scan(line).value.0, Scan(line).value.1, lineNum)
  {
    assert line[0] == '[';
  }

  /** `[:]` as the first group makes the line a comment holding the
      untrimmed remainder after every group, whatever the later groups are. */
  lemma {:induction false} EmptyTagIsComment(tags: seq<Segment>, text: string, lineNum: nat)
    requires |tags| >= 1 && tags[0] == Segment([], [])
    ensures Classify(tags, text, lineNum) == Ok(Some(Metadata(Comment(text))))
  {
  }

  /** A recognised short code selects its metadata variant holding the
      first segment's trimmed value. */
  lemma {:induction false} NamedTagKind(first: Segment)
    requires NamedTag(Trim(first.key), Trim(first.value)).Some?
    ensures KindOf(first) == Named(NamedTag(Trim(first.key), Trim(first.value)).value)
  {
    assert first.key != [];
  }

  /** `offset` selects the offset arm: the trimmed value as an i64, or
      InvalidOffset when it is not one. */
  lemma {:induction false} OffsetLine(tags: seq<Segment>, text: string, lineNum: nat)
    requires |tags| >= 1 && Trim(tags[0].key) == "offset"
    ensures var value := Trim(tags[0].value);
      Classify(tags, text, lineNum)
      == if ParseI64(value).Some? then Ok(Some(Metadata(Offset(ParseI64(value).value))))
         else Err(InvalidOffset(lineNum))
  {
    assert tags[0].key != [];
    assert KindOf(tags[0]) == OffsetTag;
  }

  /** A trimmed key that is an i64 selects the lyric arm. No short code and
      not `offset` is a number, so the arms before it never take it. */
  lemma {:induction false} MinutesKind(first: Segment)
    requires ParseI64(Trim(first.key)).Some?
    ensures KindOf(first) == Minutes
  {
    ParseI64Shape(Trim(first.key));
    assert first.key != [];
  }

  /** A first key that trims to an integer makes a lyric line: the
      remainder kept verbatim with the timestamps of all segments (see
      `TimestampsSpec`), or InvalidTimestamp when any segment, later ones
      included, does not decode. */
  lemma {:induction false} TimestampLine(tags: seq<Segment>, text: string, lineNum: nat)
    requires |tags| >= 1 && ParseI64(Trim(tags[0].key)).Some?
    ensures Classify(tags, text, lineNum)
      == match Timestamps(tags)
         case None => Err(InvalidTimestamp(lineNum))
         case Some(ts) => Ok(Some(Lyric(text, ts)))
  {
    MinutesKind(tags[0]);
  }

  /** On a lyric line one segment that does not decode, a later one as much
      as the first (say a `[ar:x]` after a timestamp), fails the whole line. */
  lemma {:induction false} BadSegmentFails(tags: seq<Segment>, text: string, lineNum: nat, i: nat)
    requires |tags| >= 1 && ParseI64(Trim(tags[0].key)).Some?
    requires i < |tags| && SegmentMillis(tags[i]).None?
    ensures Classify(tags, text, lineNum) == Err(InvalidTimestamp(lineNum))
  {
    TimestampsSpec(tags);
    TimestampLine(tags, text, lineNum);
  }

  /** The key is trimmed to classify the line but decoded untrimmed: a
      first key with whitespace around an integer classifies as a timestamp
      and then fails as InvalidTimestamp. */
  lemma {:induction false} PaddedMinuteRejected(tags: seq<Segment>, text: string, lineNum: nat)
    requires |tags| >= 1 && ParseI64(Trim(tags[0].key)).Some? && Trim(tags[0].key) != tags[0].key
    ensures Classify(tags, text, lineNum) == Err(InvalidTimestamp(lineNum))
  {
    var key := tags[0].key;
    TrimmedIsFixed(key);
    if ParseI64(key).Some? {
      ParseI64Shape(key);
    }
    assert SegmentMillis(tags[0]).None?;
    TimestampsSpec(tags);
    TimestampLine(tags, text, lineNum);
  }

  /** A first key that is neither `[:]`, a short code, `offset` nor an
      integer drops the line without an error. */
  lemma {:induction false} UnknownTagIgnored(tags: seq<Segment>, text: string, lineNum: nat)
    requires |tags| >= 1
    requires !(tags[0].key == [] && tags[0].value == [])
    requires NamedTag(Trim(tags[0].key), Trim(tags[0].value)).None?
    requires Trim(tags[0].key) != "offset" && ParseI64(Trim(tags[0].key)).None?
    ensures Classify(tags, text, lineNum) == Ok(None)
  {
    assert KindOf(tags[0]) == Unrecognised;
  }

  /** Only the first segment decides a non-lyric line: two scanned lines
      whose first segments agree classify alike, whatever follows, unless
      the first key is an integer (then every segment is decoded) or the
      first group is `[:]` (then the remainder is the comment). */
  lemma {:induction false} FirstSegmentDecides(tags1: seq<Segment>, text1: string, tags2: seq<Segment>, text2: string, lineNum: nat)
    requires |tags1| >= 1 && |tags2| >= 1 && tags1[0] == tags2[0]
    requires !(tags1[0].key == [] && tags1[0].value == []) && ParseI64(Trim(tags1[0].key)).None?
    ensures Classify(tags1, text1, lineNum) == Classify(tags2, text2, lineNum)
  {
  }

  /** A clock reading `ss.f`, `ss.ff` or `ss.fff` in milliseconds, read off
      its digits alone: the seconds digits followed by the fraction padded
      with zeros to three places, as one whole number. */
  function ClockMillis(seconds: string, fraction: string): (r: nat)
    requires AllDigits(seconds) && AllDigits(fraction) && |fraction| <= 3
  {
    DigitsValueAppend(seconds, fraction);
    DigitsValueAppend(seconds + fraction, Zeros(3 - |fraction|));
    DigitsValue(seconds + fraction + Zeros(3 - |fraction|))
  }

  /** The same reading by place value: whole seconds are worth 1000 and the
      n-th fractional digit 10^(3-n) milliseconds. */
  lemma {:induction false} ClockMillisPlaces(seconds: string, fraction: string)
    requires AllDigits(seconds) && AllDigits(fraction) && |fraction| <= 3
    ensures ClockMillis(seconds, fraction)
      == DigitsValue(seconds) * 1000 + DigitsValue(fraction) * Pow10(3 - |fraction|)
  {
    var z := Zeros(3 - |fraction|);
    DigitsValueAppend(seconds, fraction);
    DigitsValueAppend(seconds + fraction, z);
    Pow10Values();
    var p, k := Pow10(|fraction|), Pow10(3 - |fraction|);
    assert p * k == 1000 by {
      if |fraction| == 0 {} else if |fraction| == 1 {} else if |fraction| == 2 {} else {}
    }
    Places(DigitsValue(seconds), DigitsValue(fraction), p, k,
      DigitsValue(seconds + fraction), ClockMillis(seconds, fraction));
  }

  /** The literal `[mm:ss.ff]` with up to three fractional digits, the point
      written as `.` or `:`, is `mm` minutes plus the clock reading `ss.ff`
      in exact milliseconds. With at most 14 minute digits and 15 second
      digits that sum is an i64, so the source's arithmetic cannot
      overflow on it. */
  lemma {:induction false} SegmentMillisValue(minutes: string, seconds: string, sep: char, fraction: string)
    requires minutes != [] && AllDigits(minutes) && |minutes| <= 14
    requires seconds != [] && AllDigits(seconds) && |seconds| <= 15
    requires fraction != [] && AllDigits(fraction) && |fraction| <= 3
    requires sep == '.' || sep == ':'
    ensures SegmentMillis(Segment(minutes, seconds + [sep] + fraction))
      == Some(DigitsValue(minutes) * 60000 + ClockMillis(seconds, fraction))
    ensures InI64(DigitsValue(minutes) * 60000 + ClockMillis(seconds, fraction))
  {
    SecondsDecimal(seconds, sep, fraction);
    SecondsMillis(seconds, fraction);
    ParseI64Digits(minutes);
    SegmentMillisOf(Segment(minutes, seconds + [sep] + fraction),
      Decimal(DigitsValue(seconds + fraction), |fraction|), DigitsValue(minutes), ClockMillis(seconds, fraction));
    SegmentMillisRange(minutes, seconds, fraction);
  }

  /** At most 14 minute digits are worth less than 6 * 10^18 ms and at most
      15 + 3 clock digits less than 10^18 ms; together less than 2^63. */
  lemma {:induction false} SegmentMillisRange(minutes: string, seconds: string, fraction: string)
    requires AllDigits(minutes) && |minutes| <= 14
    requires AllDigits(seconds) && |seconds| <= 15
    requires AllDigits(fraction) && |fraction| <= 3
    ensures InI64(DigitsValue(minutes) * 60000 + ClockMillis(seconds, fraction))
  {
    DigitsValueBound(minutes);
    Pow10Monotone(|minutes|, 14);
    ClockMillisBound(seconds, fraction);
    Pow10Values();
  }

  /** A clock reading of at most 18 digits is less than 10^18 ms. */
  lemma {:induction false} ClockMillisBound(seconds: string, fraction: string)
    requires AllDigits(seconds) && |seconds| <= 15
    requires AllDigits(fraction) && |fraction| <= 3
    ensures ClockMillis(seconds, fraction) < Pow10(18)
  {
    var z := Zeros(3 - |fraction|);
    DigitsValueAppend(seconds, fraction);
    DigitsValueAppend(seconds + fraction, z);
    DigitsValueBound(seconds + fraction + z);
    Pow10Monotone(|seconds + fraction + z|, 18);
  }

  /** `SegmentMillis` once its three parts are known. */
  lemma {:induction false} SegmentMillisOf(seg: Segment, seconds: Decimal, minutes: int, ms: int)
    requires ParseDecimal(Replace(seg.value, ':', '.')) == Some(seconds)
    requires ParseI64(seg.key) == Some(minutes)
    requires Millis(seconds) == Some(ms)
    ensures SegmentMillis(seg) == Some(minutes * 60000 + ms)
  {
  }

  /** The seconds text, `:` read as `.`, is the decimal whose mantissa is the
      seconds and fraction digits side by side. */
  lemma {:induction false} SecondsDecimal(seconds: string, sep: char, fraction: string)
    requires seconds != [] && AllDigits(seconds)
    requires fraction != [] && AllDigits(fraction)
    requires sep == '.' || sep == ':'
    ensures AllDigits(seconds + fraction)
    ensures ParseDecimal(Replace(seconds + [sep] + fraction, ':', '.'))
      == Some(Decimal(DigitsValue(seconds + fraction), |fraction|))
  {
    var text := seconds + "." + fraction;
    ReplaceSeparator(seconds, sep, fraction);
    ParseDecimalFraction("", seconds, fraction);
    assert "" + seconds + "." + fraction == text;
    DecimalOf(Replace(seconds + [sep] + fraction, ':', '.'), text, Decimal(DigitsValue(seconds + fraction), |fraction|));
  }

  lemma {:induction false} DecimalOf(s: string, t: string, d: Decimal)
    requires s == t && ParseDecimal(t) == Some(d)
    ensures ParseDecimal(s) == Some(d)
  {
  }

  lemma {:induction false} ReplaceSeparator(seconds: string, sep: char, fraction: string)
    requires AllDigits(seconds) && AllDigits(fraction) && (sep == '.' || sep == ':')
    ensures Replace(seconds + [sep] + fraction, ':', '.') == seconds + "." + fraction
  {
    var value := seconds + [sep] + fraction;
    var replaced := Replace(value, ':', '.');
    var want := seconds + "." + fraction;
    ReplaceAt(value, ':', '.');
    forall i | 0 <= i < |value| ensures replaced[i] == want[i] {
      if i < |seconds| {
        assert value[i] == seconds[i] && IsDigit(seconds[i]);
      } else if i > |seconds| {
        assert value[i] == fraction[i - |seconds| - 1] && IsDigit(fraction[i - |seconds| - 1]);
      }
    }
  }

  /** With at most three fractional digits and at most 15 whole ones the
      milliseconds are exact and within i64. */
  lemma {:induction false} SecondsMillis(seconds: string, fraction: string)
    requires seconds != [] && AllDigits(seconds) && |seconds| <= 15
    requires fraction != [] && AllDigits(fraction) && |fraction| <= 3
    ensures AllDigits(seconds + fraction)
    ensures Millis(Decimal(DigitsValue(seconds + fraction), |fraction|)) == Some(ClockMillis(seconds, fraction))
  {
    DigitsValueAppend(seconds, fraction);
    var s := seconds + fraction;
    var z := Zeros(3 - |fraction|);
    DigitsValueAppend(s, z);
    MillisExact(Decimal(DigitsValue(s), |fraction|));
    DigitsValueBound(s + z);
    Pow10Monotone(|s + z|, 18);
    Pow10Values();
  }

  /** Every line's outcome, line k parsed as line number k. */
  function Outcomes(lines: seq<string>): (r: seq<Result<Option<LrcItem>, LrcParseError>>)
    ensures |r| == |lines|
    ensures forall k :: 0 <= k < |lines| ==> r[k] == ParseLine(lines[k], k)
  {
    seq(|lines|, k requires 0 <= k < |lines| => ParseLine(lines[k], k))
  }

  /** The fail-fast accumulation of `parse` over line outcomes: the items of
      the `Ok(Some(_))` outcomes in order, or the first error. */
  function Collect(outs: seq<Result<Option<LrcItem>, LrcParseError>>): (r: Result<seq<LrcItem>, LrcParseError>)
    ensures r.Ok? ==> |r.value| <= |outs|
  {
    if outs == [] then Ok([]) else Step(Collect(outs[..|outs| - 1]), outs[|outs| - 1])
  }

  /** One turn of `parse`'s loop: an error so far stays, a failing line
      becomes the error, and an item is pushed. */
  function Step(acc: Result<seq<LrcItem>, LrcParseError>, out: Result<Option<LrcItem>, LrcParseError>): (r: Result<seq<LrcItem>, LrcParseError>)
    ensures r.Ok? <==> acc.Ok? && out.Ok?
    ensures r.Ok? ==> |acc.value| <= |r.value| <= |acc.value| + 1
  {
    match acc
    case Err(e) => Err(e)
    case Ok(items) =>
      match out
      case Err(e) => Err(e)
      case Ok(None) => Ok(items)
      case Ok(Some(item)) => Ok(items + [item])
  }

  lemma {:induction false} CollectPrefix(outs: seq<Result<Option<LrcItem>, LrcParseError>>, n: nat)
    requires n < |outs|
    ensures Collect(outs[..n + 1]) == Step(Collect(outs[..n]), outs[n])
  {
    assert outs[..n + 1][..n] == outs[..n];
  }

  /** An error in the first `n` outcomes is the result of them all. */
  lemma {:induction false} ErrorRest(outs: seq<Result<Option<LrcItem>, LrcParseError>>, n: nat)
    requires n <= |outs| && Collect(outs[..n]).Err?
    ensures Collect(outs) == Collect(outs[..n])
  {
    ErrorPersists(outs[..n], outs[n..]);
    assert outs[..n] + outs[n..] == outs;
  }

  /** `parse` as a function: the items of the lines in order, numbering
      lines from 0, or the error of the first line that fails. */
  function ParseDocument(lines: seq<string>): (r: Result<seq<LrcItem>, LrcParseError>)
    ensures r.Ok? ==> |r.value| <= |lines|
  {
    Collect(Outcomes(lines))
  }

  /** `parse`: the loop over the lines that keeps every item and returns at
      the first error. */
  method Parse(lines: seq<string>) returns (r: Result<seq<LrcItem>, LrcParseError>)
    ensures r == ParseDocument(lines)
  {
    ghost var outs := Outcomes(lines);
    var lrcTags: seq<LrcItem> := [];
    for lineNum := 0 to |lines|
      invariant Collect(outs[..lineNum]) == Ok(lrcTags)
    {
      var item := ParseSingle(lines[lineNum], lineNum);
      assert item == outs[lineNum];
      CollectPrefix(outs, lineNum);
      if item.Err? {
        ErrorRest(outs, lineNum + 1);
        return Err(item.error);
      }
      if item.value.Some? {
        lrcTags := lrcTags + [item.value.value];
      }
    }
    assert outs[..|lines|] == outs;
    return Ok(lrcTags);
  }

  /** Once a prefix of the outcomes holds an error, nothing after it changes
      the result. */
  lemma {:induction false} ErrorPersists(outs: seq<Result<Option<LrcItem>, LrcParseError>>, more: seq<Result<Option<LrcItem>, LrcParseError>>)
    requires Collect(outs).Err?
    ensures Collect(outs + more) == Collect(outs)
    decreases |more|
  {
    if more != [] {
      var all := outs + more;
      var shorter := outs + more[..|more| - 1];
      assert all[..|all| - 1] == shorter;
      ErrorPersists(outs, more[..|more| - 1]);
    } else {
      assert outs + more == outs;
    }
  }

  /** Collecting succeeds exactly when every outcome is a success. */
  lemma {:induction false} CollectOk(outs: seq<Result<Option<LrcItem>, LrcParseError>>)
    ensures Collect(outs).Ok? <==> forall k :: 0 <= k < |outs| ==> outs[k].Ok?
    decreases |outs|
  {
    if outs != [] {
      var n := |outs| - 1;
      CollectOk(outs[..n]);
      assert forall k :: 0 <= k < n ==> outs[..n][k] == outs[k];
    }
  }

  /** The first error decides: when outcome k is an error and none before it
      is, collecting fails with that error. */
  lemma {:induction false} CollectFirstError(outs: seq<Result<Option<LrcItem>, LrcParseError>>, k: nat)
    requires k < |outs| && outs[k].Err?
    requires forall j :: 0 <= j < k ==> outs[j].Ok?
    ensures Collect(outs) == Err(outs[k].error)
    ensures Collect(outs) == Collect(outs[..k + 1])
  {
    var prefix := outs[..k];
    CollectOk(prefix);
    assert forall j :: 0 <= j < k ==> prefix[j] == outs[j];
    assert outs[..k + 1][..k] == prefix;
    ErrorPersists(outs[..k + 1], outs[k + 1..]);
    assert outs[..k + 1] + outs[k + 1..] == outs;
  }

  /** The items of the `Ok(Some(_))` outcomes, in order, read front to back
      (independently of `Collect`, which works from the back). */
  function Items(outs: seq<Result<Option<LrcItem>, LrcParseError>>): (r: seq<LrcItem>)
    ensures |r| <= |outs|
  {
    if outs == [] then []
    else ItemOf(outs[0]) + Items(outs[1..])
  }

  function ItemOf(out: Result<Option<LrcItem>, LrcParseError>): (r: seq<LrcItem>)
    ensures |r| <= 1
  {
    if out.Ok? && out.value.Some? then [out.value.value] else []
  }

  lemma {:induction false} ItemsSnoc(outs: seq<Result<Option<LrcItem>, LrcParseError>>, out: Result<Option<LrcItem>, LrcParseError>)
    ensures Items(outs + [out]) == Items(outs) + ItemOf(out)
    decreases |outs|
  {
    if outs == [] {
      assert [] + [out] == [out];
      assert [out][1..] == [];
    } else {
      assert (outs + [out])[1..] == outs[1..] + [out];
      ItemsSnoc(outs[1..], out);
    }
  }

  /** When every outcome is a success, collecting gives exactly the items
      of the `Some` outcomes, in order. */
  lemma {:induction false} CollectItems(outs: seq<Result<Option<LrcItem>, LrcParseError>>)
    requires forall k :: 0 <= k < |outs| ==> outs[k].Ok?
    ensures Collect(outs) == Ok(Items(outs))
    decreases |outs|
  {
    if outs != [] {
      var n := |outs| - 1;
      var prefix, last := outs[..n], outs[n];
      assert forall k :: 0 <= k < n ==> prefix[k] == outs[k];
      CollectItems(prefix);
      assert Collect(outs) == Step(Ok(Items(prefix)), last);
      assert prefix + [last] == outs;
      ItemsSnoc(prefix, last);
      if last.value.None? {
        assert Items(prefix) + ItemOf(last) == Items(prefix);
      }
    }
  }

  /** The document parses without error exactly when every line does, and
      then its items are those of the lines' `Some` results, in line order. */
  lemma {:induction false} ParseDocumentOk(lines: seq<string>)
    ensures ParseDocument(lines).Ok? <==> forall k :: 0 <= k < |lines| ==> ParseLine(lines[k], k).Ok?
    ensures ParseDocument(lines).Ok? ==> ParseDocument(lines) == Ok(Items(Outcomes(lines)))
  {
    var outs := Outcomes(lines);
    CollectOk(outs);
    if ParseDocument(lines).Ok? {
      CollectItems(outs);
    }
  }

  /** The first failing line decides the error: when line k fails and no
      earlier line does, the document fails with line k's error, and the
      lines after k make no difference. */
  lemma {:induction false} FirstErrorWins(lines: seq<string>, k: nat)
    requires k < |lines| && ParseLine(lines[k], k).Err?
    requires forall j :: 0 <= j < k ==> ParseLine(lines[j], j).Ok?
    ensures ParseDocument(lines) == Err(ParseLine(lines[k], k).error)
    ensures ParseDocument(lines) == ParseDocument(lines[..k + 1])
  {
    var outs := Outcomes(lines);
    assert forall j :: 0 <= j <= k ==> outs[j] == ParseLine(lines[j], j);
    CollectFirstError(outs, k);
    var short := lines[..k + 1];
    var shortOuts := Outcomes(short);
    assert forall j :: 0 <= j <= k ==> shortOuts[j] == ParseLine(lines[j], j);
    CollectFirstError(shortOuts, k);
    assert shortOuts[..k + 1] == shortOuts;
  }
}
