/** The tag scanner: `many1` of the sequence `[`, take_until(`:`), `:`,
    take_until(`]`), `]` at the head of a line, giving the bracket segments
    in order and the text left after the last one. */
module Scanner {
  import opened Wrappers
  import opened Text

  /** The key and value text of one `[key:value]` group, unprocessed. */
  datatype Segment = Segment(key: string, value: string)

  /** What the scanner can produce: take_until stops at the first delimiter,
      so a key never holds `:` and a value never holds `]`. */
  predicate WellFormed(seg: Segment) {
    ':' !in seg.key && ']' !in seg.value
  }

  /** The text one segment was scanned from. */
  function Render(seg: Segment): (r: string) {
    "[" + seg.key + ":" + seg.value + "]"
  }

  /** The text a run of segments followed by a remainder was scanned from. */
  function RenderLine(segs: seq<Segment>, rest: string): (r: string) {
    if segs == [] then rest else Render(segs[0]) + RenderLine(segs[1..], rest)
  }

  /** One bracket group at the head of `s` and the text after it, or None
      when `s` does not start with a complete `[key:value]`. */
  function ScanSegment(s: string): (r: Option<(Segment, string)>)
    ensures r.Some? ==> s != [] && s[0] == '[' && |r.value.1| < |s|
  {
    if s == [] || s[0] != '[' then None
    else
      match TakeUntil(s[1..], ':')
      case None => None
      case Some((key, afterKey)) =>
        match TakeUntil(afterKey[1..], ']')
        case None => None
        case Some((value, afterValue)) => Some((Segment(key, value), afterValue[1..]))
  }

  /** A scanned group is well formed and is exactly the text it was scanned
      from, followed by what is left. */
  lemma {:induction false} ScanSegmentSpec(s: string)
    requires ScanSegment(s).Some?
    ensures var (seg, rest) := ScanSegment(s).value;
      WellFormed(seg) && Render(seg) + rest == s
  {
    var (key, afterKey) := TakeUntil(s[1..], ':').value;
    TakeUntilSpec(s[1..], ':');
    var (value, afterValue) := TakeUntil(afterKey[1..], ']').value;
    TakeUntilSpec(afterKey[1..], ']');
    SegmentParts(s, key, afterKey, value, afterValue);
  }

  lemma {:induction false} SegmentParts(s: string, key: string, afterKey: string, value: string, afterValue: string)
    requires s != [] && s[0] == '['
    requires key + afterKey == s[1..] && afterKey != [] && afterKey[0] == ':'
    requires value + afterValue == afterKey[1..] && afterValue != [] && afterValue[0] == ']'
    ensures Render(Segment(key, value)) + afterValue[1..] == s
  {
    var tail := afterValue[1..];
    assert afterValue == [']'] + tail;
    assert afterKey == [':'] + afterKey[1..];
    assert afterKey == [':'] + (value + ([']'] + tail));
    assert s == ['['] + s[1..];
    assert s == ['['] + (key + ([':'] + (value + ([']'] + tail))));
  }

  /** The group rendered from a well-formed segment is the one scanned back,
      whatever follows it. */
  lemma {:induction false} ScanSegmentRender(seg: Segment, rest: string)
    requires WellFormed(seg)
    ensures ScanSegment(Render(seg) + rest) == Some((seg, rest))
  {
    var s := Render(seg) + rest;
    var afterValue := [']'] + rest;
    var afterKey := [':'] + (seg.value + afterValue);
    assert s == ['['] + (seg.key + afterKey);
    assert s[1..] == seg.key + [':'] + (seg.value + afterValue);
    TakeUntilSplit(seg.key, seg.value + afterValue, ':');
    assert afterKey[1..] == seg.value + [']'] + rest;
    TakeUntilSplit(seg.value, rest, ']');
    ScanSegmentOf(s, seg.key, afterKey, seg.value, afterValue);
    assert afterValue[1..] == rest;
  }

  /** `ScanSegment` once both delimiters are found. */
  lemma {:induction false} ScanSegmentOf(s: string, key: string, afterKey: string, value: string, afterValue: string)
    requires s != [] && s[0] == '['
    requires TakeUntil(s[1..], ':') == Some((key, afterKey))
    requires TakeUntil(afterKey[1..], ']') == Some((value, afterValue))
    ensures ScanSegment(s) == Some((Segment(key, value), afterValue[1..]))
  {
  }

  /** `many0` of the group parser: every further group, and the text from
      the first position where none follows. */
  function ScanMore(s: string): (r: (seq<Segment>, string))
    ensures r.0 == [] <==> ScanSegment(s).None?
    ensures |r.1| <= |s|
    decreases |s|
  {
    match ScanSegment(s)
    case None => ([], s)
    case Some((seg, rest)) =>
      var (segs, tail) := ScanMore(rest);
      ([seg] + segs, tail)
  }

  /** What `ScanMore` returns renders back to its input, holds only
      well-formed segments, and stops where no further group starts. */
  lemma {:induction false} ScanMoreSpec(s: string)
    ensures var (segs, rest) := ScanMore(s);
      RenderLine(segs, rest) == s
      && (forall i :: 0 <= i < |segs| ==> WellFormed(segs[i]))
      && ScanSegment(rest).None?
    decreases |s|
  {
    match ScanSegment(s)
    case None =>
    case Some((seg, rest)) =>
      ScanSegmentSpec(s);
      ScanMoreSpec(rest);
      var (segs, tail) := ScanMore(rest);
      var all := [seg] + segs;
      assert all[0] == seg && all[1..] == segs;
      assert forall i :: 1 <= i < |all| ==> all[i] == segs[i - 1];
  }

  /** `many1` of the group parser: at least one group, then as many as
      follow; None when the line does not start with a complete group. */
  function Scan(line: string): (r: Option<(seq<Segment>, string)>)
    ensures r.None? <==> ScanSegment(line).None?
    ensures r.Some? ==> |r.value.0| >= 1 && line[0] == '['
  {
    match ScanSegment(line)
    case None => None
    case Some(_) => Some(ScanMore(line))
  }

  /** Scanning loses nothing: the segments rendered back with the remainder
      give the line, every key is free of `:` and every value of `]`, and
      the remainder does not start with a further complete group. */
  lemma {:induction false} ScanRoundTrip(line: string)
    requires Scan(line).Some?
    ensures var (segs, rest) := Scan(line).value;
      RenderLine(segs, rest) == line
      && (forall i :: 0 <= i < |segs| ==> WellFormed(segs[i]))
      && ScanSegment(rest).None?
  {
    ScanMoreSpec(line);
  }

  /** And back: rendering well-formed segments and a remainder that does not
      start with a group scans to exactly those segments and remainder. */
  lemma {:induction false} RenderScanRoundTrip(segs: seq<Segment>, rest: string)
    requires |segs| >= 1 && (forall i :: 0 <= i < |segs| ==> WellFormed(segs[i]))
    requires ScanSegment(rest).None?
    ensures Scan(RenderLine(segs, rest)) == Some((segs, rest))
  {
    ScanSegmentRender(segs[0], RenderLine(segs[1..], rest));
    ScanMoreRender(segs, rest);
  }

  lemma {:induction false} ScanMoreRender(segs: seq<Segment>, rest: string)
    requires forall i :: 0 <= i < |segs| ==> WellFormed(segs[i])
    requires ScanSegment(rest).None?
    ensures ScanMore(RenderLine(segs, rest)) == (segs, rest)
    decreases |segs|
  {
    if segs != [] {
      var line := RenderLine(segs, rest);
      var tail := RenderLine(segs[1..], rest);
      assert line == Render(segs[0]) + tail;
      assert WellFormed(segs[0]);
      ScanSegmentRender(segs[0], tail);
      assert forall i :: 0 <= i < |segs[1..]| ==> WellFormed(segs[1..][i]) by {
        forall i | 0 <= i < |segs[1..]| ensures WellFormed(segs[1..][i]) {
          assert segs[1..][i] == segs[i + 1];
        }
      }
      ScanMoreRender(segs[1..], rest);
      assert ScanMore(line) == ([segs[0]] + ScanMore(tail).0, ScanMore(tail).1);
      assert [segs[0]] + segs[1..] == segs;
    }
  }
}
