# cds core, modelled in Dafny

`cds` runs clippy on a Rust crate and prints a compact per-file report of
its documentation diagnostics. This project models the four parts of the
tool that do not touch I/O. It proves properties about each of them.

- **Item kinds** (`kinds.dfy`, module `Kinds`).
  - The closed table of 15 documentable item kinds, each with its theme key and its message phrase.
  - The suffix classifier. It tries the kinds in a fixed order and returns the first whose phrase ends the message, with the byte offset where that phrase starts.
- **The aggregator** (`visit.dfy`, module `Visit`).
  - `MissingDocs` is a class with a report field (a map from file path to a sequence of entries) and a one-message pending slot `last`.
  - `visit_message` applies the eight-code allow-list and makes the message pending.
  - `visit_span` applies the path filter, consumes the pending message and appends one entry to the span's file.
  - `TextCollector` copies the highlighted lines of a span.
  - The state change of each visit is also given as a function on values (`SpanVisited`, `MessageVisited`). The methods are proved against those functions, and the lemmas reason about the functions.
- **Render helpers** (`render.dfy`, module `Render`, with the byte-level string view in `utf8.dfy`, module `Utf8`).
  - `count_digits` and `pad_locations`, which give the width of the location column.
  - `shorten`, which strips a fixed list of openings from a message.
  - The split of a message at the offset of its kind phrase.
  - `floor_char_boundary` and `ceil_char_boundary` over UTF-8 bytes.
  - `partition`, which carves each highlighted line into head, middle and tail using one indentation `left_pad` shared by all lines.
- **Colours** (`config.dfy`, module `Config`).
  - `Color::from_u16`.
  - `FromStr`, which accepts `#RGB`, `#RGBA`, `#RRGGBB`, `#AARRGGBB` and `rgb(r,g,b)`.
  - `Display`, which prints `#rrggbb`.

Strings are modelled as sequences of bytes: a byte is a `char` below 0x100, so ASCII literals are also byte strings. The source can panic in four places: the `unwrap` and the out-of-range slices of the windowing code, `expect("valid tree")` in `visit_span`, and `k.to_str().unwrap()` on a report path in `pad_locations` (src/render.rs:96). The first three are modelled as explicit failure outcomes, `None` or `false`, except the `unwrap` inside `floor_char_boundary`, which is that function's precondition. The fourth cannot arise in the model, where paths are byte strings; see the `Render.PadLocations` line under "Left out".

Several behaviours are easy to misread; in each case the model follows the code.

- The colour quirks are modelled as written.
  - `from_u16` builds blue from the blue nibble followed by the *green* nibble, so `#abc` is `(0xaa, 0xbb, 0xcb)`.
  - `rgb(x,y,z)` stores the second value as blue and the third as green, giving `Color(x, z, y)`. Errors are reported in the order red, blue, green.
- The aggregator has no include/exclude gate by item kind. `MissingDocs::new` takes only the path set.
- A message that the code filter rejects does not clear a message already pending.
- A span of a file the path filter refuses drops the pending message. `visit_span` consumes the pending message on every span, so only the first span of a message can be filed. Any later admitted span of the same message hits the "valid tree" failure (`LaterAdmittedSpanFails`).
- `partition` sets `left_pad` only when the line at position 0 is not blank. Otherwise it stays 0, and it is never recomputed for later lines.
- `partition` converts the highlighted columns to char indices of the whole line. It then uses those char indices as byte indices into the line less its indentation.

## Model

| member | source | states |
|---|---|---|
| Kinds.AsStr | src/args.rs:47-65 | every kind's phrase is non-empty |
| Kinds.Rank | src/args.rs:68-84 | each kind's position in the fixed search order holds that kind |
| Kinds.RankOfOrder | src/args.rs:68-84 | the search order lists every kind exactly once |
| Kinds.ParseFrom | src/args.rs:67-95 | the search from position n returns a kind whose phrase ends the input, at offset len - len(phrase); no kind tried before it matches; it returns None iff no kind from n on matches |
| Kinds.Parse | src/args.rs:67-95 | on success the offset plus the phrase length is the input length, and the input from the offset on is the phrase |
| Kinds.ParseNone | src/args.rs:88-94 | parse returns None exactly when no kind's phrase ends the input |
| Kinds.ParseEmpty | src/args.rs:47-95 | the empty message has no kind, because every phrase is non-empty |
| Kinds.ParseFirstMatch | src/args.rs:68-92 | no kind earlier in the order than the one returned ends the input (first match wins) |
| Kinds.PhraseOverlaps | src/args.rs:47-65 | one phrase ends another iff they are equal, or the pair is associated constant/constant or associated function/function |
| Kinds.ParseFromPicks | src/args.rs:67-95 | a matching kind with no earlier match in the order is the one the search returns, with its offset |
| Kinds.ParsePhrase | src/args.rs:47-95 | every phrase on its own parses as its own kind at offset 0 |
| Kinds.PhrasesDistinct | src/args.rs:47-65 | as_str is injective over the 15 kinds |
| Kinds.KeysDistinct | src/args.rs:27-45 | as_key is injective over the 15 kinds |
| Kinds.AsKey | src/args.rs:27-45 | every theme key is a non-empty snake-case word (lower-case letters and underscores); distinct per kind by KeysDistinct |
| Kinds.AssociatedConstantWins | src/args.rs:68-92 | text ending in "associated constant" is AssociatedConstant (never Constant), split where the phrase begins |
| Kinds.AssociatedFunctionWins | src/args.rs:68-92 | text ending in "associated function" is AssociatedFunction (never Function), split where the phrase begins |
| Utf8.EndsWithSlice | src/args.rs:89-92 | the byte-wise strip_suffix test holds iff the suffix fits and equals the last len(suffix) bytes |
| Utf8.StripPrefix | src/render.rs:124 | when the text starts with the prefix, prefix + result is the text; otherwise the text is returned unchanged |
| Utf8.IsBoundaryByte | src/render.rs:138 | the test (b as i8) >= -0x40 holds exactly for bytes below 0x80 or at least 0xC0 |
| Utf8.CharIndexMonotone | src/render.rs:190-191 | the byte-to-char index conversion never decreases as the byte index grows |
| Utf8.CharIndex | src/render.rs:190-191 | definition: the char starts up to the byte, less one, or the char count past the end; never more than the char count; monotone by CharIndexMonotone, the identity on ASCII by CharIndexAscii |
| Utf8.CharIndexAscii | src/render.rs:190-191 | on ASCII text the char index of a byte index is that index, or the length past the end |
| Utf8.IsCharBoundary | src/render.rs:193-199 | a boundary lies within the text: 0, the length, or a byte that starts a char |
| Utf8.LeadingWhitespace | src/render.rs:183-184 | the number of bytes trim_start removes fits in the text, the bytes removed are a run of whitespace chars, and no whitespace char is left at the front |
| Utf8.TrailingWhitespace | src/config.rs:230 | the number of bytes trim removes from the end fits in the text, the bytes removed are a run of whitespace chars, and no whitespace char is left at the back |
| Utf8.TrimUntouched | src/config.rs:230 | text with no whitespace at either end is unchanged by trim |
| Utf8.TrimStart | src/render.rs:178-184 | the result is a suffix of the text, the bytes removed are all whitespace chars, and none is left at its front |
| Utf8.TrimEnd | src/config.rs:230 | the result is a prefix of the text, the bytes removed are all whitespace chars, and none is left at its back |
| Utf8.Trim | src/config.rs:230 | the result is the text less a whitespace run of exactly LeadingWhitespace bytes in front and a whitespace run behind, with no whitespace char left at either end |
| Utf8.TrimLeadingSpace | src/config.rs:230 | one space in front of text with no whitespace at either end is all that trim removes |
| Utf8.TrimStartEmpty | src/render.rs:178 | trim_start gives the empty text exactly when the text is all whitespace chars |
| Visit.FilterMessage | src/visit.rs:43-56 | true iff the message has a code and the code is one of the eight documentation codes |
| Visit.Append | src/visit.rs:97-100 | entry().or_default().push() adds exactly one entry at the end of that path's list, adds the path to the keys, and leaves every other path's list unchanged |
| Visit.SpanVisited | src/visit.rs:67-101 | fails iff the path is admitted and no message is pending; afterwards nothing is pending; a refused path leaves the report unchanged; an admitted one gets the pending text at the span's row and column appended; all other files are unchanged |
| Visit.Admits | src/visit.rs:68 | definition: an empty path set admits every file, otherwise only its members |
| Visit.MessageVisited | src/visit.rs:60-65 | a rejected message changes nothing; an accepted one without spans only becomes the pending message |
| Visit.SpansVisited | src/visit.rs:63 | the spans visited in order, None once one fails; no file is dropped, and each file's earlier list is a prefix of its new list |
| Visit.SpansEmptySlot | src/visit.rs:67-101 | after one or more spans have been visited, no message is pending |
| Visit.RefusedSpansUnchanged | src/visit.rs:68-71 | spans of refused files, with nothing pending, leave the state unchanged |
| Visit.LaterAdmittedSpanFails | src/visit.rs:67-101 | an admitted span after the first span of a message fails with "valid tree" |
| Visit.NoPendingFails | src/visit.rs:73-93 | with no message pending, the first admitted span fails |
| Visit.OneEntryPerMessage | src/visit.rs:60-100 | a documentation diagnostic whose first span is admitted and whose other spans are refused files exactly one entry, its text at the first span's position, at the end of that file's list |
| Visit.NoEntryForRefusedMessage | src/visit.rs:60-71 | a documentation diagnostic none of whose spans is admitted leaves the report unchanged and the slot empty |
| Visit.GroupSelect | src/visit.rs:97-100 | each file's list is exactly the entries filed under it, in filing order (not sorted by row/col), and a file is a key iff it received an entry |
| Visit.TextCollector.constructor | src/visit.rs:76-79 | the collector starts empty |
| Visit.TextCollector.VisitText | src/visit.rs:82-84 | one copy of the line is appended after those collected before |
| Visit.MissingDocs.constructor | src/visit.rs:35-41 | empty report, nothing pending, the given path set |
| Visit.MissingDocs.VisitSpan | src/visit.rs:67-101 | succeeds iff SpanVisited does; the new report and slot are SpanVisited's; on failure the report is unchanged and nothing is pending; the log of filed entries grows by this span's entry exactly when one is filed, so the report stays grouped by file in filing order |
| Visit.MissingDocs.VisitMessage | src/visit.rs:60-65 | succeeds iff MessageVisited does, and then leaves MessageVisited's report and slot; the log of filed entries only grows (the old log is a prefix of the new), and the report stays the grouping of that log by file in filing order |
| Render.DigitsBelow | src/render.rs:80-90 | d has at most k decimal digits iff d < Pow(10, k) |
| Render.CountDigits | src/render.rs:80-90 | the result is the number of decimal digits of d capped at 20, and lies in 1..20 |
| Render.DigitsOfWord | src/render.rs:80-90 | for every 64-bit value, count_digits is exactly its number of decimal digits |
| Render.MaxRowCol | src/render.rs:97-101 | 1 for a file with no entries; otherwise the largest digits(row) + digits(col) among its entries |
| Render.PadLocations | src/render.rs:92-106 | 1 for an empty report; otherwise the largest len(path) + 2 + widest row:col over all files, attained by some file |
| Render.StripEachSuffix | src/render.rs:114-128 | stripping the prefixes leaves a suffix of the input |
| Render.StripEachUntouched | src/render.rs:114-128 | input that starts with none of the prefixes comes back unchanged |
| Render.Shorten | src/render.rs:114-128 | the loop strips each of the six openings at most once, in list order, and returns a suffix of the input |
| Render.ShortenStruct | src/render.rs:116-124 | "missing documentation for a struct" is shortened to "struct" |
| Render.Classify | src/render.rs:159-162 | the message splits into a head and a tail that concatenate back to it; the tail is the phrase of the kind parse returned, and the head's length is parse's offset; it is None iff parse is None |
| Render.RPosition | src/render.rs:136-139 | rposition finds the last char-start byte, and is None iff there is none |
| Render.Position | src/render.rs:149-152 | position finds the first char-start byte, and is None iff there is none |
| Render.FloorCharBoundary | src/render.rs:130-141 | the length for an index at or past the end; otherwise the greatest char start in [i saturating- 3, i] |
| Render.CeilCharBoundary | src/render.rs:143-153 | the length for an index past the end; otherwise a value in [i, min(i+4, len)], with no char start between i and it, which is itself a char start unless it is the window end |
| Render.FloorLeCeil | src/render.rs:130-153 | rounding an index down never passes rounding the same or a later index up |
| Render.CeilOnBoundary | src/render.rs:143-153 | on text with no run of four continuation bytes, rounding up lands on a char boundary |
| Render.FloorDefinedOnRuns | src/render.rs:135-139 | on well-formed text the unwrap in floor_char_boundary never fails |
| Render.Window | src/render.rs:187-201 | a carved line has its pad at a char boundary; head + middle + tail equals the line less its pad; the head ends at the start column (less pad + 1, as a char index) rounded down to a char boundary and the middle at the end column rounded up |
| Render.Cut | src/render.rs:197-199 | the three slices concatenate back to the text and have the requested lengths |
| Render.WindowAscii | src/render.rs:187-201 | on ASCII text with pad < start <= end <= len + 1, the head is the bytes from pad to column start - 1, the middle the bytes up to column end - 1, the tail the rest |
| Render.WindowNoPanic | src/render.rs:187-199 | a line cut at a char boundary, with well-formed rest and start <= end, is carved without a panic |
| Render.LeftPad | src/render.rs:182-185 | the leading-whitespace byte count of the first line when it is not blank, otherwise 0 |
| Render.NonBlank | src/render.rs:178-180 | the lines partition does not skip, none of them blank |
| Render.CarveStops | src/render.rs:176-202 | once a line panics, later lines yield nothing |
| Render.Blank | src/render.rs:178-180 | definition: trim_start leaves nothing; by TrimStartEmpty, the line is all whitespace chars |
| Render.CarveLine | src/render.rs:176-201 | a line adds at most one piece at the end and keeps the earlier ones; after a panic it changes nothing, and it never undoes a panic |
| Render.Carve | src/render.rs:176-202 | never more pieces than lines; characterised by CarveCount and CarvePieces |
| Render.CarveCount | src/render.rs:176-202 | at most one piece per non-blank line, and exactly one per non-blank line when no line panics; blank lines yield nothing |
| Render.CarvePieces | src/render.rs:176-202 | piece i is the carving of the i-th non-blank line with the shared pad, so pieces come in line order and each reassembles its line less the pad |
| Render.CarveAll | src/render.rs:176-202 | when every non-blank line is cut at a char boundary, well-formed and ordered, no line panics |
| Render.Partition | src/render.rs:167-203 | the iterator run to exhaustion yields exactly Carve(spans, LeftPad(spans)), with left_pad taken from line 0 only, and stops at the first panic |
| Config.FromStrRadix | src/config.rs:211-215 | succeeds iff the text after an optional '+' is non-empty and all digits of the radix; the value is those digits read in the radix, and below radix^digits |
| Config.ValueBound | src/config.rs:211-215 | n digits are worth less than radix^n |
| Config.Magnitude | src/config.rs:211-215 | the text less its first byte when that is '+', otherwise the text unchanged |
| Config.Value | src/config.rs:211-215 | definition: the digits read most significant first; bounded by ValueBound |
| Config.ParseU8 | src/config.rs:230-243 | succeeds iff the text parses as a decimal number below 256, and then it is that number |
| Config.FromU16 | src/config.rs:163-175 | uses nibbles 2, 1, 0 when the top nibble is 0, otherwise nibbles 3, 2, 1; red and green are nibble-doubled, blue is its nibble followed by the green nibble |
| Config.HexChar | src/config.rs:202 | a lowercase hex digit whose value is n |
| Config.Hex2 | src/config.rs:202 | two hex digits whose value is the byte |
| Config.ToString | src/config.rs:199-204 | '#' followed by six lowercase hex digits |
| Config.Find | src/config.rs:230 | the first position of the separator, None iff it does not occur |
| Config.Split | src/config.rs:230 | at least one piece, none containing the separator |
| Config.SplitTerminator | src/config.rs:230 | no piece contains the separator |
| Config.DropEmptyLast | src/config.rs:230 | the last piece is dropped exactly when it is empty |
| Config.SplitThree | src/config.rs:230 | "a,b,c" of comma-free pieces with c non-empty splits into exactly [a, b, c] |
| Config.SplitTerminatorFirst | src/config.rs:230 | text up to the first comma is the first piece, followed by the pieces of the rest |
| Config.SplitThreeRest | src/config.rs:230 | three comma-free pieces followed by a comma come first, whatever follows them |
| Config.Channel | src/config.rs:230-243 | definition: piece i trimmed and parsed as u8, None when there are fewer pieces |
| Config.ParseHex | src/config.rs:209-225 | lengths other than 3, 4, 6 and 8 give the syntax error; otherwise it fails iff the digits do not parse, with only syntax and invalid-digit errors; 3 or 4 digits give from_u16 of their value, 6 or 8 the low three bytes of theirs |
| Config.ParseRgb | src/config.rs:228-245 | the red error iff the first channel is missing or invalid; the blue error iff the first is valid and the second is not; the green error iff the first two are valid and the third is not; success iff all three are valid, giving Color(first, third, second) |
| Config.ParseColor | src/config.rs:206-248 | input neither starting with '#' nor of the form rgb(...) is "invalid color"; '#' with a length other than 3, 4, 6 or 8 is the syntax error |
| Config.SixDigits | src/config.rs:214-219 | #RRGGBB with hex digit pairs parses, red from the first pair, green from the second and blue from the third |
| Config.ParseHash | src/config.rs:209-210 | text after '#' is parsed by the hex forms |
| Config.ParseRgbForm | src/config.rs:228-229 | text inside rgb( and ) is parsed as channels |
| Config.ShortValueFits | src/config.rs:211-213 | three or four hex digits always fit in a u16 |
| Config.LowBytesOf | src/config.rs:216-218 | the low three bytes of a number ending in three given bytes are those bytes |
| Config.LowBytes | src/config.rs:216-218 | definition: bytes 2, 1, 0 of the number as red, green, blue; characterised by LowBytesOf and LowBytesHigh |
| Config.LowBytesHigh | src/config.rs:214-218 | the most significant byte of the u32 does not affect the colour |
| Config.DisplayRoundTrip | src/config.rs:199-219 | parsing the printed form of any colour gives that colour back |
| Config.ThreeBytes | src/config.rs:216-218 | the number made of three bytes converts back to the colour with those bytes |
| Config.EightDigitsDropFirstByte | src/config.rs:214-218 | the 8-digit form ignores its two leading digits: it parses like the 6-digit form of the rest |
| Config.LeadingZeroNibble | src/config.rs:163-175 | a 4-digit form starting with 0 parses like the 3-digit form of the rest |
| Config.ShortFormBlue | src/config.rs:163-175 | "#abc" parses to (0xaa, 0xbb, 0xcb) |
| Config.Message | src/config.rs:212-247 | definition: the source's error text for each error value |
| Config.FromU16Abc | src/config.rs:174 | from_u16(0xabc) is (0xaa, 0xbb, 0xcb) |
| Config.RgbChannelOrder | src/config.rs:232-244 | rgb(x,y,z) with valid channels is Color(x, z, y) |
| Config.RgbSpaced | src/config.rs:230-244 | rgb(x, y, z) with a space after each comma gives Color(x, z, y): trim drops the spaces |
| Config.ChannelText | src/config.rs:230 | text that parses as a channel is non-empty, has no comma and no whitespace at either end |
| Config.RgbMissingGreen | src/config.rs:240-243 | rgb(x,y) with two valid channels is the green-channel error |
| Config.RgbOfChannels | src/config.rs:228-244 | rgb(...) whose first three pieces are valid channels x, y, z parses to Color(x, z, y) |
| Config.RgbIgnoresRest | src/config.rs:232-244 | pieces after the third valid channel are ignored: rgb(x,y,z,...) is Color(x, z, y) |
| Config.RgbOnlyRed | src/config.rs:236-239 | rgb(x) with a valid red channel is the blue-channel error |
| Config.RgbBadBlue | src/config.rs:236-239 | a valid first channel followed by an invalid second is the blue-channel error, whatever follows |
| Config.RgbBadRed | src/config.rs:232-235 | an invalid first channel is the red-channel error, whatever follows |

## Left out

- Output is not modelled: `render::show`, `theme_style`, ANSI styling and the terminal layout. They only print.
- The theme lookup `theme.kinds.get(key)?` in `Classify::classify` is not modelled, because the theme map is not part of this model. `Render.Classify` models only the parse and the `split_at`.
- src/main.rs (process orchestration, the clippy run, the chorts tree walk) is not part of this model. Neither is the CLI in src/args.rs (clap wiring, globbing, `ValueEnum`).
- Configuration loading, XDG paths, TOML, serde impls and the conversion to anstyle styles are not modelled. They are I/O and library glue.
- Paths are byte strings. `PathBuf` component normalisation is not modelled, and neither is the sorted key order of `BTreeMap`. The report is a map, and `pad_locations` takes a maximum, which does not depend on order.
- Render.PadLocations: a ghost function, because it picks map keys in no particular order. `k.to_str().unwrap()` is taken as the path's byte length; non-UTF-8 paths are not modelled.
- The chorts tree is given as plain values (`Message`, `Span`, `Text`). The visitor's `accept` traversal is the loops of `VisitMessage` and `VisitSpan`.
- The chorts walk itself is not part of this model. The model assumes three things about it:
  - `visit_message` is called once per message.
  - `message.spans.accept` calls `visit_span` once per span of that message, in order.
  - Nested child messages reach `visit_message` as messages of their own, so a message is modelled without its children.
- Highlight values are copied as they are; `to_owned` lifetimes have no counterpart.
- Invalid UTF-8 is not modelled. A Rust `str` is always valid UTF-8. The model states only the consequences it needs (`ShortCharRuns`, `WellFormedRuns`) as preconditions of the lemmas that rely on them, never of the operations.
- `str_indices::chars::from_byte_idx` is a foreign crate. It is modelled by `Utf8.CharIndex` as the number of char starts up to the byte, less one, or the char count past the end.
- Config.FromStrRadix: every `ParseIntError` kind is collapsed into `None`, and the hex forms report its text as "invalid digit found in string". The empty-input and overflow kinds cannot arise in the hex forms (fixed lengths of at most 8 digits). In the decimal channels they are reported as the channel error either way.
- Config.FromStrRadix: a leading `+` is accepted, as `from_str_radix` does. Signs are otherwise not modelled, since only unsigned types are parsed.
- Unicode whitespace for `trim` and `trim_start` is recognised byte by byte, for the 25 whitespace chars of `char::is_whitespace`. Invalid encodings are not considered.
- Error values are a datatype (`ColorError`). `Config.Message` gives the source's text for each one.
