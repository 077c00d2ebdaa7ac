# lrc-nom line parser, modelled in Dafny

This project models the LRC lyric parser of `lrc-nom` (`src/lib.rs`). It has
two entry points:

- `parse_single` reads one line of an LRC file. It returns `Ok(None)` for a
  line it skips, `Ok(Some(item))` for a metadata tag or a timed lyric, or
  one of three errors tagged with the line number.
- `parse` runs `parse_single` over every line of a document, numbering
  lines from 0. It keeps the items in order and stops at the first error.

The project is split into modules:

- `Wrappers`: `Option` and `Result`.
- `Text`: `str::trim` over the Unicode White_Space set, nom's `take_until`
  for a one-character delimiter, and `str::replace` of one character.
- `Numbers`: `str::parse::<i64>`, with its inverse `ShowInt`. An exact
  decimal (mantissa and scale) for `Decimal::from_str_exact`. The whole
  milliseconds of a decimal, truncated toward zero as `to_i64` does.
- `Scanner`: the `many1` tag parser (`[`, up to `:`, `:`, up to `]`, `]`).
  It is a function on strings and has a round trip in both directions.
- `Lrc`:
  - The datatypes `LrcMetadata`, `LrcItem` and `LrcParseError`.
  - The classification of a line by its first segment (`KindOf`,
    `Classify`).
  - The timestamp decoder, as a pure function (`SegmentMillis`,
    `Timestamps`) and as the loop of the source (`DecodeTimestamps`).
  - `parse_single` as a function (`ParseLine`) and a method
    (`ParseSingle`).
  - `parse` as a function (`ParseDocument`) and as its loop (`Parse`).
- `Samples`: concrete lines and what the parser makes of them.

Two behaviours of the code are worth knowing:

- Only the first segment decides what a line is.
- The first key is trimmed to choose the timestamp arm, but each key is
  parsed untrimmed when the timestamps are decoded. So `[ 00:12.34]x` fails
  with `InvalidTimestamp`; `PaddedMinuteRejected` proves this. Later
  segments are decoded whatever they hold, so `[00:01.00][ar:x]` fails too.

## Model

| member | source | states |
|---|---|---|
| Text.Trim | src/lib.rs:64 | `trim` leaves no whitespace at either end, and gives the empty string exactly for a blank line |
| Text.TrimIsSlice | src/lib.rs:64 | the trimmed text is a slice of the input with only whitespace before and after it |
| Text.TrimPadded | src/lib.rs:73-88 | trimming removes exactly the whitespace padding around trimmed text |
| Text.TakeUntil | src/lib.rs:58-60 | on success the rest is no longer than the input and starts with the delimiter; `TakeUntilSpec` characterises it fully |
| Text.TakeUntilSpec | src/lib.rs:58-60 | `take_until` fails exactly when the delimiter is absent, and otherwise splits before its first occurrence |
| Text.TakeUntilSplit | src/lib.rs:58-60 | a split just before the first delimiter is the one `take_until` returns |
| Text.Replace | src/lib.rs:92 | replacing one character keeps the length; `ReplaceAt` gives each position |
| Text.ReplaceAt | src/lib.rs:92 | `replace(':', ".")` changes each `:` into `.` and keeps every other character in place |
| Numbers.ParseI64 | src/lib.rs:95-97 | every parsed integer lies in the i64 range; `ParseI64Signed` and `ParseI64Converse` say exactly which texts parse and to what |
| Numbers.ParseI64Signed | src/lib.rs:80-85 | an optional `+` or `-` followed by digits, leading zeros allowed, reads as its signed value when that is an i64, and fails otherwise |
| Numbers.ParseI64Converse | src/lib.rs:95-97 | every text that parses is an optional sign followed by digits, and its value is their signed value, so every other text fails |
| Numbers.ParseI64ShowInt | src/lib.rs:80-85 | parsing is the inverse of printing on the i64 range, and rejects the spelling of anything outside it |
| Numbers.ParseI64Shape | src/lib.rs:89 | an integer literal is non-empty, ends in a digit and holds no whitespace |
| Numbers.ParseDecimal | src/lib.rs:92 | a decimal that reads has fewer fraction digits than the text has characters; `ParseDecimalConverse` gives the shape and value of every text that reads |
| Numbers.ParseDecimalConverse | src/lib.rs:92 | every text that reads as a decimal is `[+-]?digits` or `[+-]?digits.digits`, and its value is the one `ParseDecimalInteger` or `ParseDecimalFraction` gives that spelling, so every other text fails |
| Numbers.ParseDecimalInteger | src/lib.rs:92 | a signed digit string reads as that integer with scale 0 |
| Numbers.ParseDecimalFraction | src/lib.rs:92 | a signed `whole.fraction` reads as both digit strings side by side, with scale equal to the number of fraction digits |
| Numbers.DigitsValueAppend | src/lib.rs:92 | digits written after others shift them one decimal place each |
| Numbers.Millis | src/lib.rs:92-102 | the milliseconds of a decimal, when they exist, are within i64 |
| Numbers.TruncDivBounds | src/lib.rs:101 | the conversion truncates toward zero: the result is the multiple next to the exact value, on the side of zero |
| Numbers.MillisExact | src/lib.rs:92-102 | with at most three fraction digits nothing is truncated |
| Scanner.ScanSegment | src/lib.rs:57-61 | one `[key:value]` group starts with `[` and consumes input |
| Scanner.ScanSegmentSpec | src/lib.rs:57-61 | a scanned group has no `:` in its key and no `]` in its value, and renders back to the text it consumed |
| Scanner.ScanSegmentRender | src/lib.rs:57-61 | a rendered well-formed group scans back to itself, whatever follows it |
| Scanner.ScanMore | src/lib.rs:56-62 | repetition yields no group exactly when the first group does not scan, and never lengthens the rest; `ScanMoreSpec` characterises it fully |
| Scanner.ScanMoreSpec | src/lib.rs:56-62 | repeating the group parser loses nothing and stops where no complete group starts |
| Scanner.Scan | src/lib.rs:56-69 | `many1` fails exactly when the line does not start with a complete group; otherwise it returns at least one group |
| Scanner.ScanRoundTrip | src/lib.rs:56-70 | the groups rendered back, followed by the remainder, give the line; all groups are well formed; the remainder starts no further complete group |
| Scanner.RenderScanRoundTrip | src/lib.rs:56-70 | rendering well-formed groups and a remainder that starts no group scans back to exactly those groups and remainder |
| Lrc.NamedTag | src/lib.rs:73-88 | exactly the nine codes `ar`, `al`, `ti`, `au`, `length`, `by`, `re`, `ve` and `#` select a text variant, which holds the value and whose `Code` is the code matched; none of them is `offset` or ends in a digit |
| Lrc.NamedTagCode | src/lib.rs:73-88 | each text variant is selected back by its own code, so no two codes share a variant |
| Lrc.KindOf | src/lib.rs:70-107 | the arm is `[:]` exactly for a raw empty key and value; a named tag holds the trimmed value; the minutes arm needs an i64 trimmed key |
| Lrc.Classify | src/lib.rs:70-109 | errors carry the line number; a lyric has one timestamp per segment |
| Lrc.ParseLine | src/lib.rs:46-110 | errors carry the line number; a lyric has at least one timestamp |
| Lrc.ParseSingle | src/lib.rs:46-110 | the method computes `ParseLine`: blank check, scan, then classification |
| Lrc.ClassifySegments | src/lib.rs:70-109 | the method's `match` computes `Classify`, and runs the decoder loop on a lyric line |
| Lrc.BlankLineIgnored | src/lib.rs:64-66 | a blank or whitespace-only line gives `Ok(None)` |
| Lrc.MissingTagFails | src/lib.rs:64-69 | a non-blank line without a leading complete group fails as `NoTagInNonEmptyLine`; so does one with whitespace before its `[` |
| Lrc.ScannedLine | src/lib.rs:68-70 | a line that starts with a complete group is classified by its groups and remainder |
| Lrc.EmptyTagIsComment | src/lib.rs:71-72 | `[:]` first makes the line a comment holding the untrimmed remainder, whatever the later groups are |
| Lrc.NamedTagKind | src/lib.rs:73-88 | a short code as the trimmed first key selects its variant, holding the trimmed first value |
| Lrc.OffsetLine | src/lib.rs:80-85 | `offset` gives `Offset(n)` for a trimmed value that is an i64, and `InvalidOffset` otherwise |
| Lrc.MinutesKind | src/lib.rs:73-89 | a trimmed first key that is an i64 always reaches the timestamp arm |
| Lrc.UnknownTagIgnored | src/lib.rs:107 | any other first key drops the line with no error |
| Lrc.FirstSegmentDecides | src/lib.rs:70-107 | when the first key is not an integer and the first group is not `[:]`, the later groups and the remainder do not change the result |
| Lrc.TimestampLine | src/lib.rs:89-106 | a timestamp line is `Lyric(remainder, ts)` with the decoded timestamps, or `InvalidTimestamp` when they do not decode |
| Lrc.SegmentMillis | src/lib.rs:92-102 | a segment decodes only when its key, untrimmed, is an i64; `SegmentMillisValue` gives the value of a well-formed timestamp and `BadSegmentFails` the failures |
| Lrc.Timestamps | src/lib.rs:90-104 | decoded timestamps are one per segment; `TimestampsSpec` characterises them fully |
| Lrc.TimestampsSpec | src/lib.rs:90-104 | the timestamps exist exactly when every segment decodes, and keep segment order |
| Lrc.BadSegmentFails | src/lib.rs:91-102 | one segment that does not decode, a later one included, fails the whole line |
| Lrc.PaddedMinuteRejected | src/lib.rs:73-97 | a first key with whitespace around an integer is classified as a timestamp and then fails as `InvalidTimestamp` |
| Lrc.DecodeTimestamps | src/lib.rs:90-104 | the loop returns the decoded timestamps exactly when they all decode, and `InvalidTimestamp(line)` otherwise |
| Lrc.SegmentMillisValue | src/lib.rs:92-102 | `[mm:ss.fff]` (point as `.` or `:`, at most three fraction digits, at most 14 minute and 15 second digits) decodes to `mm*60000` plus the clock reading in exact milliseconds, and that sum lies within i64 |
| Lrc.ClockMillisBound | src/lib.rs:92-102 | at most 15 whole and 3 fraction digits of seconds are worth less than 10^18 ms |
| Lrc.SecondsDecimal | src/lib.rs:92 | the seconds, with `:` read as `.`, are the exact decimal of their digits |
| Lrc.SecondsMillis | src/lib.rs:92-102 | at most 15 whole and 3 fraction digits give exact milliseconds within i64 |
| Lrc.ClockMillisPlaces | src/lib.rs:92-94 | whole seconds are worth 1000 ms and the n-th fraction digit 10^(3-n) ms |
| Numbers.ParseI64Digits | src/lib.rs:96 | a digit string of at most 18 digits parses to its value |
| Lrc.Parse | src/lib.rs:112-124 | the loop computes `ParseDocument`, returning at the first error |
| Lrc.ParseDocument | src/lib.rs:112-124 | a parsed document holds at most one item per line; `ParseDocumentOk` and `FirstErrorWins` characterise it |
| Lrc.ParseDocumentOk | src/lib.rs:112-124 | the document parses exactly when every line does, and then gives the `Some` items of its lines in line order |
| Lrc.FirstErrorWins | src/lib.rs:117-121 | the first failing line's error is the document's, and the lines after it make no difference |
| Lrc.Collect | src/lib.rs:115-123 | collecting yields at most one item per outcome; `CollectItems` and `CollectFirstError` characterise it |
| Lrc.Step | src/lib.rs:118-120 | one step succeeds exactly when the items so far and the new outcome are both `Ok`, and then adds at most one item |
| Lrc.CollectFirstError | src/lib.rs:118 | collecting fails with the first error among the outcomes |
| Lrc.CollectItems | src/lib.rs:118-120 | when every outcome succeeds, collecting gives the `Some` items in order |
| Lrc.ErrorPersists | src/lib.rs:118 | once an error is collected, later outcomes do not change it |
| Samples.LyricSample | src/lib.rs:89-105 | `[00:12.34]Hello` is the lyric `Hello` at 12340 ms |
| Samples.OffsetSample | src/lib.rs:80-85 | `[offset:-250]` is an offset of -250 ms |
| Samples.PlusOffsetSample | src/lib.rs:80-85 | `[offset:+250]` is an offset of 250 ms |
| Samples.BadOffsetSample | src/lib.rs:80-85 | `[offset:abc]` fails with `InvalidOffset` |
| Samples.ArtistSample | src/lib.rs:74 | `[ar: Someone ]` names the artist `Someone` |
| Samples.PaddedMinuteSample | src/lib.rs:89-97 | `[ 00:12.34]x` fails with `InvalidTimestamp` |
| Samples.UntaggedSample | src/lib.rs:68-69 | `Hello` fails with `NoTagInNonEmptyLine` |
| Samples.UnknownTagSample | src/lib.rs:107 | `[xx:yy]Hello` is dropped without an error |
| Samples.SharedSample | src/lib.rs:89-105 | `[00:12.00][00:45.00]Shared` is the lyric `Shared` at 12000 ms and 45000 ms |

## Left out

- nom's combinators are modelled by their effect on complete input. `tag`, `take_until`, `tuple` and `many1` are not modelled as parsers.
- Borrowed `&str` slices and lifetimes become owned strings.
- `parse`'s `Iterator` argument becomes a sequence of lines. An iterator's own side effects are not modelled.
- The `Display` messages that `thiserror` derives for `LrcParseError` are not modelled, and neither are the `Debug`/`PartialEq` derives.
- Numbers.ParseDecimal: the grammar is `[+-]?digits('.'digits)?`, which approximates `Decimal::from_str_exact`. The library's other forms (`.5`, `5.`, `_` separators) are rejected here. Its 96-bit mantissa and 28-digit scale limits are not modelled, so the model accepts some long numbers that the library rejects.
- Numbers.Millis: the panic of `Decimal * 1000` on overflow of the 96-bit mantissa is not modelled. The model computes the product exactly.
- Lrc.SegmentMillis: `minute * 60 * 1000 + ms` is computed on unbounded integers. Rust's i64 overflow there (a panic in debug builds, wrap-around in release builds) is not modelled. `SegmentMillisValue` requires at most 14 minute digits and 15 second digits, and proves that the result then lies within i64; longer minute or second fields, where the source's arithmetic could overflow, are computed exactly here.
- `Vec::with_capacity` is an allocation hint with no observable effect, and is not modelled.
