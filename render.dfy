/**
 * The helpers the report printer relies on (src/render.rs): digit counts
 * and the location column width, the message shortener, the suffix
 * split of a message, char-boundary rounding and the carving of each
 * highlighted line into the text before, inside and after the highlight.
 */
module Render {
  import opened Wrappers
  import opened Utf8
  import opened Arith
  import opened Kinds
  import opened Visit

  function Min(a: nat, b: nat): nat {
    if a <= b then a else b
  }

  /** `usize::saturating_sub`. */
  function SatSub(a: nat, b: nat): (r: nat)
    ensures r == if a >= b then a - b else 0
  {
    if a >= b then a - b else 0
  }

  // ---------------------------------------------------------------------
  // count_digits
  // ---------------------------------------------------------------------

  /** The number of decimal digits of `d` (one for 0 to 9). */
  function DigitCount(d: nat): (n: nat)
    ensures n >= 1
  {
    if d < 10 then 1 else 1 + DigitCount(d / 10)
  }

  /** `d` has at most `k` digits exactly when it is below 10^k. */
  lemma {:induction false} DigitsBelow(d: nat, k: nat)
    requires k >= 1
    ensures DigitCount(d) <= k <==> d < Pow(10, k)
  {
    if k > 1 && d >= 10 {
      DigitsBelow(d / 10, k - 1);
      assert d / 10 < Pow(10, k - 1) <==> d < 10 * Pow(10, k - 1);
    }
    if k > 1 && d < 10 {
      PowGrows(10, 1, k);
    }
  }

  /** What `count_digits` returns: the digit count, capped at 20. */
  function Digits(d: nat): nat {
    Min(DigitCount(d), 20)
  }

  /**
   * `count_digits`: multiplies a power of ten until it passes `d`, for at
   * most 20 digits.
   */
  method CountDigits(d: nat) returns (len: nat)
    ensures len == Digits(d)
    ensures 1 <= len <= 20
  {
    len := 1;
    var n := 1;
    while len < 20
      invariant 1 <= len <= 20
      invariant n == Pow(10, len - 1)
      invariant DigitCount(d) >= len
      decreases 20 - len
    {
      n := n * 10;
      DigitsBelow(d, len);
      if n > d {
        return;
      }
      len := len + 1;
    }
  }

  /** Every `usize` has at most 20 digits, so the cap never takes effect on one. */
  lemma DigitsOfWord(d: nat)
    requires d < 0x1_0000_0000_0000_0000
    ensures Digits(d) == DigitCount(d)
  {
    assert Pow(10, 10) == 10_000_000_000;
    assert Pow(10, 20) == 100_000_000_000_000_000_000;
    DigitsBelow(d, 20);
  }

  // ---------------------------------------------------------------------
  // pad_locations
  // ---------------------------------------------------------------------

  /** The width of an entry's `row:col`, less the colon. */
  function RowColWidth(x: Missing): nat {
    Digits(x.message.row) + Digits(x.message.col)
  }

  /** The widest `row:col` of a file's entries; 1 for a file with none. */
  function MaxRowCol(v: seq<Missing>): (w: nat)
    ensures v == [] ==> w == 1
    ensures v != [] ==> exists i :: 0 <= i < |v| && w == RowColWidth(v[i])
    ensures forall i :: 0 <= i < |v| ==> RowColWidth(v[i]) <= w
  {
    if v == [] then 1
    else if |v| == 1 then RowColWidth(v[0])
    else
      var rest := MaxRowCol(v[1..]);
      assert forall i :: 1 <= i < |v| ==> v[i] == v[1..][i - 1];
      if RowColWidth(v[0]) >= rest then RowColWidth(v[0]) else rest
  }

  /** The width of a file's location column: its path, two separators, its widest `row:col`. */
  function FileWidth(report: Report, path: Bytes): nat
    requires path in report
  {
    |path| + 2 + MaxRowCol(report[path])
  }

  /**
   * `pad_locations`: the widest location column over all files, 1 for an
   * empty report.
   */
  ghost function PadLocations(report: Report): (w: nat)
    ensures report == map[] ==> w == 1
    ensures report != map[] ==> exists p :: p in report && w == FileWidth(report, p)
    ensures forall p :: p in report ==> FileWidth(report, p) <= w
    decreases |report.Keys|
  {
    if report == map[] then 1
    else
      var p :| p in report;
      var rest := report - {p};
      if rest == map[] then
        assert forall q :: q in report ==> q == p || q in rest;
        assert report.Keys == {p};
        FileWidth(report, p)
      else
        var w := PadLocations(rest);
        assert forall q :: q in rest ==> FileWidth(rest, q) == FileWidth(report, q);
        if FileWidth(report, p) >= w then FileWidth(report, p) else w
  }

  // ---------------------------------------------------------------------
  // shorten
  // ---------------------------------------------------------------------

  /** The message openings the compact report leaves out, in the order they are tried. */
  const PREFIXES: seq<Bytes> := [
    MISSING_A, MISSING_AN, ERRORS_DOC, PANICS_DOC, SAFETY_DOC, UNSAFE_DOC
  ]

  const MISSING_A: Bytes := "missing documentation for a "
  const MISSING_AN: Bytes := "missing documentation for an "
  const ERRORS_DOC: Bytes := "docs for function returning `Result` "
  const PANICS_DOC: Bytes := "docs for function which may panic "
  const SAFETY_DOC: Bytes := "safe function's docs have "
  const UNSAFE_DOC: Bytes := "unsafe function's docs are "

  /** Each prefix of `prefixes`, in order, stripped once when the text then starts with it. */
  function StripEach(s: Bytes, prefixes: seq<Bytes>): Bytes
    decreases |prefixes|
  {
    if prefixes == [] then s else StripEach(StripPrefix(s, prefixes[0]), prefixes[1..])
  }

  /** `r` is what is left of `s` once something is cut from its front. */
  predicate IsSuffix(r: Bytes, s: Bytes) {
    |r| <= |s| && s[|s| - |r|..] == r
  }

  /** Stripping prefixes leaves the end of the text. */
  lemma {:induction false} StripEachSuffix(s: Bytes, prefixes: seq<Bytes>)
    ensures IsSuffix(StripEach(s, prefixes), s)
    decreases |prefixes|
  {
    if prefixes != [] {
      var t := StripPrefix(s, prefixes[0]);
      StripEachSuffix(t, prefixes[1..]);
      var r := StripEach(t, prefixes[1..]);
      assert IsSuffix(t, s);
      assert s[|s| - |r|..] == s[|s| - |t|..][|t| - |r|..];
    }
  }

  /** Text that starts with none of the prefixes comes back unchanged. */
  lemma {:induction false} StripEachUntouched(s: Bytes, prefixes: seq<Bytes>)
    requires forall i :: 0 <= i < |prefixes| ==> !StartsWith(s, prefixes[i])
    ensures StripEach(s, prefixes) == s
    decreases |prefixes|
  {
    if prefixes != [] {
      StripEachUntouched(s, prefixes[1..]);
    }
  }

  /** `shorten`: each of the six openings stripped at most once, in list order. */
  method Shorten(input: Bytes) returns (r: Bytes)
    ensures r == StripEach(input, PREFIXES)
    ensures IsSuffix(r, input)
  {
    r := input;
    var prefixes := PREFIXES;
    for i := 0 to |prefixes|
      invariant StripEach(r, prefixes[i..]) == StripEach(input, prefixes)
    {
      assert prefixes[i..][1..] == prefixes[i + 1..];
      r := StripPrefix(r, prefixes[i]);
    }
    StripEachSuffix(input, PREFIXES);
  }

  /** The common opening is stripped, leaving the phrase that names the item. */
  lemma ShortenStruct()
    ensures StripEach(MISSING_A + AsStr(Struct), PREFIXES) == AsStr(Struct)
  {
    var t := AsStr(Struct);
    var s := MISSING_A + t;
    assert PREFIXES[0] == MISSING_A;
    assert StartsWith(s, MISSING_A) by { assert s[..|MISSING_A|] == MISSING_A; }
    assert StripPrefix(s, PREFIXES[0]) == t;
    assert |t| == 6;
    StripEachUntouched(t, PREFIXES[1..]);
  }

  // ---------------------------------------------------------------------
  // Classify::classify (the split only)
  // ---------------------------------------------------------------------

  /**
   * The message split where the phrase of its kind begins: the text
   * before it and the phrase itself.
   */
  function Classify(input: Bytes): (r: Option<(Bytes, Bytes, ClassifyKind)>)
    ensures r.Some? ==>
      r.value.0 + r.value.1 == input && r.value.1 == AsStr(r.value.2) &&
      Parse(input) == Some((r.value.2, |r.value.0|))
    ensures r.None? <==> Parse(input).None?
  {
    var p := Parse(input);
    if p.None? then None
    else
      var kind, offset := p.value.0, p.value.1;
      SplitAt(input, offset);
      Some((input[..offset], input[offset..], kind))
  }

  // ---------------------------------------------------------------------
  // floor_char_boundary / ceil_char_boundary
  // ---------------------------------------------------------------------

  /** `rposition` of a char-starting byte: the last one in `w`. */
  function RPosition(w: Bytes): (r: Option<nat>)
    ensures r.Some? ==> r.value < |w| && IsBoundaryByte(w[r.value])
    ensures r.Some? ==> forall k :: r.value < k < |w| ==> !IsBoundaryByte(w[k])
    ensures r.None? <==> forall k :: 0 <= k < |w| ==> !IsBoundaryByte(w[k])
    decreases |w|
  {
    if w == [] then None
    else if IsBoundaryByte(w[|w| - 1]) then Some(|w| - 1)
    else
      var r := RPosition(w[..|w| - 1]);
      assert forall k :: 0 <= k < |w| - 1 ==> w[..|w| - 1][k] == w[k];
      r
  }

  /** `position` of a char-starting byte: the first one in `w`. */
  function Position(w: Bytes): (r: Option<nat>)
    ensures r.Some? ==> r.value < |w| && IsBoundaryByte(w[r.value])
    ensures r.Some? ==> forall k :: 0 <= k < r.value ==> !IsBoundaryByte(w[k])
    ensures r.None? <==> forall k :: 0 <= k < |w| ==> !IsBoundaryByte(w[k])
    decreases |w|
  {
    if w == [] then None
    else if IsBoundaryByte(w[0]) then Some(0)
    else
      match Position(w[1..])
      case None => None
      case Some(p) => Some(p + 1)
  }

  /** The `unwrap` in `floor_char_boundary` succeeds: the window holds a char start. */
  predicate FloorDefined(s: Bytes, i: nat) {
    i >= |s| || RPosition(s[SatSub(i, 3)..i + 1]).Some?
  }

  /**
   * `floor_char_boundary`: the length for an index at or past the end;
   * otherwise the greatest char start in `[i - 3, i]` (saturating).
   */
  function FloorCharBoundary(s: Bytes, i: nat): (r: nat)
    requires FloorDefined(s, i)
    ensures i >= |s| ==> r == |s|
    ensures i < |s| ==> SatSub(i, 3) <= r <= i && IsBoundaryByte(s[r])
    ensures i < |s| ==> forall k :: r < k <= i ==> !IsBoundaryByte(s[k])
  {
    if i >= |s| then |s|
    else
      var start := SatSub(i, 3);
      var next := RPosition(s[start..i + 1]).value;
      assert forall k :: start + next < k <= i ==> s[k] == s[start..i + 1][k - start];
      start + next
  }

  /**
   * `ceil_char_boundary`: the length for an index past the end; otherwise
   * the least char start in `[i, min(i + 4, len))`, or that window's end
   * when it holds none.
   */
  function CeilCharBoundary(s: Bytes, i: nat): (r: nat)
    ensures i > |s| ==> r == |s|
    ensures i <= |s| ==> i <= r <= Min(i + 4, |s|)
    ensures i <= |s| && r < Min(i + 4, |s|) ==> IsBoundaryByte(s[r])
    ensures i <= |s| ==> forall k :: i <= k < r ==> !IsBoundaryByte(s[k])
  {
    if i > |s| then |s|
    else
      var end := Min(i + 4, |s|);
      match Position(s[i..end])
      case None =>
        assert forall k :: i <= k < end ==> s[k] == s[i..end][k - i];
        end
      case Some(pos) =>
        assert forall k :: i <= k < pos + i ==> s[k] == s[i..end][k - i];
        pos + i
  }

  /** Rounding down never passes rounding up of a later index. */
  lemma FloorLeCeil(s: Bytes, i: nat, j: nat)
    requires i <= j && FloorDefined(s, i)
    ensures FloorCharBoundary(s, i) <= CeilCharBoundary(s, j)
  {
  }

  /** Rounding up lands on a char boundary of text whose char starts are never far apart. */
  lemma CeilOnBoundary(s: Bytes, i: nat)
    requires ShortCharRuns(s)
    ensures IsCharBoundary(s, CeilCharBoundary(s, i))
  {
    if i + 4 <= |s| {
      assert StartWithin4(s, i);
    }
  }

  /** Text that starts with a char start and has no long runs of continuation bytes. */
  predicate WellFormedRuns(s: Bytes) {
    (s != [] ==> IsBoundaryByte(s[0])) && ShortCharRuns(s)
  }

  lemma FloorDefinedOnRuns(s: Bytes, i: nat)
    requires WellFormedRuns(s)
    ensures FloorDefined(s, i)
  {
    if i < |s| {
      var start := SatSub(i, 3);
      var w := s[start..i + 1];
      if i >= 3 {
        assert StartWithin4(s, start);
        assert w[0] == s[start] && w[1] == s[start + 1] && w[2] == s[start + 2] && w[3] == s[start + 3];
      } else {
        assert w[0] == s[0];
      }
    }
  }

  // ---------------------------------------------------------------------
  // partition
  // ---------------------------------------------------------------------

  /** A highlighted line carved in three: before, inside and after the highlight. */
  datatype Piece = Piece(head: Bytes, middle: Bytes, tail: Bytes)

  /** A line that is empty once leading whitespace is removed; `partition` skips it. */
  predicate Blank(t: Text) {
    TrimStart(t.data) == []
  }

  /**
   * The carving of one line, with `pad` bytes of indentation cut from its
   * front: the highlighted columns, less the indentation, become char
   * indices of the whole line, which are then used as byte indices into
   * the cut line and rounded to char boundaries. `None` where the source
   * panics: the cut or a rounded bound off a char boundary, the rounding
   * down finding no char start, or the bounds out of order.
   */
  function Window(t: Text, pad: nat): (r: Option<Piece>)
    ensures r.Some? ==> pad <= |t.data| && IsCharBoundary(t.data, pad)
    ensures r.Some? ==> r.value.head + r.value.middle + r.value.tail == t.data[pad..]
    ensures r.Some? ==>
      IsCharBoundary(t.data[pad..], |r.value.head|) &&
      IsCharBoundary(t.data[pad..], |r.value.head| + |r.value.middle|)
    ensures r.Some? ==>
      var text := t.data[pad..];
      var start := CharIndex(t.data, SatSub(t.start, pad + 1));
      var end := CharIndex(t.data, SatSub(t.end, pad + 1));
      FloorDefined(text, start) &&
      |r.value.head| == FloorCharBoundary(text, start) &&
      |r.value.head| + |r.value.middle| == CeilCharBoundary(text, end)
  {
    if !(pad <= |t.data| && IsCharBoundary(t.data, pad)) then None
    else
      var start := CharIndex(t.data, SatSub(t.start, pad + 1));
      var end := CharIndex(t.data, SatSub(t.end, pad + 1));
      var text := t.data[pad..];
      if !FloorDefined(text, start) then None
      else
        var a := FloorCharBoundary(text, start);
        var b := CeilCharBoundary(text, end);
        if a <= b && IsCharBoundary(text, b) then Some(Cut(text, a, b)) else None
  }

  /** The text split at two ordered positions. */
  function Cut(text: Bytes, a: nat, b: nat): (p: Piece)
    requires a <= b <= |text|
    ensures p.head + p.middle + p.tail == text
    ensures |p.head| == a && |p.middle| == b - a
  {
    assert text[..a] + text[a..b] + text[b..] == text;
    Piece(text[..a], text[a..b], text[b..])
  }

  /**
   * A line cut at a char boundary, whose rest is well-formed text and whose
   * highlight is in order, is carved without a panic.
   */
  lemma WindowNoPanic(t: Text, pad: nat)
    requires pad <= |t.data| && IsCharBoundary(t.data, pad)
    requires WellFormedRuns(t.data[pad..]) && t.start <= t.end
    ensures Window(t, pad).Some?
  {
    var start := CharIndex(t.data, SatSub(t.start, pad + 1));
    var end := CharIndex(t.data, SatSub(t.end, pad + 1));
    var text := t.data[pad..];
    CharIndexMonotone(t.data, SatSub(t.start, pad + 1), SatSub(t.end, pad + 1));
    FloorDefinedOnRuns(text, start);
    FloorLeCeil(text, start, end);
    CeilOnBoundary(text, end);
  }

  /**
   * On ASCII text, whose char indices are byte indices, the highlight is
   * cut at its columns: the 1-based columns `start..end`, counted on the
   * whole line, become the bytes `start - 1` and `end - 1` of the line,
   * and the indentation is dropped from the front.
   */
  lemma WindowAscii(t: Text, pad: nat)
    requires IsAscii(t.data) && pad + 1 <= t.start <= t.end <= |t.data| + 1
    ensures Window(t, pad) ==
      Some(Piece(t.data[pad..t.start - 1], t.data[t.start - 1..t.end - 1], t.data[t.end - 1..]))
  {
    calc {
      Window(t, pad);
    == { WindowCut(t, pad); }
      Some(Cut(t.data[pad..], (t.start - 1) - pad, (t.end - 1) - pad));
    == { CutAfterPad(t.data, pad, t.start - 1, t.end - 1); }
      Some(Piece(t.data[pad..t.start - 1], t.data[t.start - 1..t.end - 1], t.data[t.end - 1..]));
    }
  }

  /** On ASCII text the window cuts the text after the indentation at the columns less one. */
  lemma WindowCut(t: Text, pad: nat)
    requires IsAscii(t.data) && pad + 1 <= t.start <= t.end <= |t.data| + 1
    ensures Window(t, pad) == Some(Cut(t.data[pad..], (t.start - 1) - pad, (t.end - 1) - pad))
  {
    var text := t.data[pad..];
    var i, j := t.start - pad - 1, t.end - pad - 1;
    assert SatSub(t.start, pad + 1) == i && SatSub(t.end, pad + 1) == j;
    CharIndexAscii(t.data, i);
    CharIndexAscii(t.data, j);
    assert IsCharBoundary(t.data, pad) by {
      if pad < |t.data| { assert t.data[pad] as int < 0x80; }
    }
    assert IsAscii(text) by {
      assert forall k :: 0 <= k < |text| ==> text[k] == t.data[pad + k];
    }
    FloorAscii(text, i);
    CeilAscii(text, j);
    WindowAt(t, pad, i, j);
  }

  /** The window of a line whose columns fall on char boundaries `a <= b` after the indentation. */
  lemma WindowAt(t: Text, pad: nat, a: nat, b: nat)
    requires pad <= |t.data| && IsCharBoundary(t.data, pad)
    requires CharIndex(t.data, SatSub(t.start, pad + 1)) == a
    requires CharIndex(t.data, SatSub(t.end, pad + 1)) == b
    requires a <= b <= |t.data| - pad
    requires FloorDefined(t.data[pad..], a) && FloorCharBoundary(t.data[pad..], a) == a
    requires CeilCharBoundary(t.data[pad..], b) == b && IsCharBoundary(t.data[pad..], b)
    ensures Window(t, pad) == Some(Cut(t.data[pad..], a, b))
  {
  }

  /** Cutting the text after `pad` is cutting the whole text `pad` bytes further on. */
  lemma CutAfterPad(s: Bytes, pad: nat, a: nat, b: nat)
    requires pad <= a <= b <= |s|
    ensures Cut(s[pad..], a - pad, b - pad) == Piece(s[pad..a], s[a..b], s[b..])
  {
    var text := s[pad..];
    assert text[..a - pad] == s[pad..a];
    assert text[a - pad..b - pad] == s[a..b];
    assert text[b - pad..] == s[b..];
  }

  /** On ASCII text rounding down leaves an index inside the text where it is. */
  lemma FloorAscii(text: Bytes, i: nat)
    requires IsAscii(text) && i <= |text|
    ensures FloorDefined(text, i) && FloorCharBoundary(text, i) == i
  {
    if i < |text| {
      var w := text[SatSub(i, 3)..i + 1];
      assert w[|w| - 1] == text[i];
      assert text[i] as int < 0x80;
    }
  }

  /** On ASCII text rounding up leaves an index inside the text where it is. */
  lemma CeilAscii(text: Bytes, j: nat)
    requires IsAscii(text) && j <= |text|
    ensures CeilCharBoundary(text, j) == j && IsCharBoundary(text, j)
  {
    if j < |text| {
      assert text[j] as int < 0x80;
    }
  }

  /**
   * The indentation `partition` cuts from every line: that of the first
   * line when it is not blank, none otherwise.
   */
  function LeftPad(spans: seq<Text>): (pad: nat)
    ensures spans != [] && !Blank(spans[0]) ==>
      pad <= |spans[0].data| && TrimStart(spans[0].data) == spans[0].data[pad..]
    ensures spans == [] || Blank(spans[0]) ==> pad == 0
  {
    if spans != [] && !Blank(spans[0]) then LeadingWhitespace(spans[0].data) else 0
  }

  /**
   * The pieces `partition` yields for `spans`, every line cut by `pad`,
   * and whether it got through them all (false once one panics).
   */
  function Carve(spans: seq<Text>, pad: nat): (r: (seq<Piece>, bool))
    ensures |r.0| <= |spans|
    decreases |spans|
  {
    if spans == [] then ([], true)
    else CarveLine(Carve(spans[..|spans| - 1], pad), spans[|spans| - 1], pad)
  }

  /** One more line carved after `sofar`: skipped when blank or after a panic. */
  function CarveLine(sofar: (seq<Piece>, bool), t: Text, pad: nat): (r: (seq<Piece>, bool))
    ensures sofar.0 <= r.0 && |r.0| <= |sofar.0| + 1
    ensures r.1 ==> sofar.1
    ensures !sofar.1 ==> r == sofar
  {
    if !sofar.1 || Blank(t) then sofar
    else
      match Window(t, pad)
      case None => (sofar.0, false)
      case Some(p) => (sofar.0 + [p], true)
  }

  /** The carving of one more line of `spans`. */
  lemma CarveNext(spans: seq<Text>, pad: nat, i: nat)
    requires i < |spans|
    ensures Carve(spans[..i + 1], pad) == CarveLine(Carve(spans[..i], pad), spans[i], pad)
  {
    assert spans[..i + 1][..i] == spans[..i];
  }

  /** Once carving has panicked, later lines change nothing. */
  lemma {:induction false} CarveStops(spans: seq<Text>, pad: nat, i: nat)
    requires i <= |spans| && !Carve(spans[..i], pad).1
    ensures Carve(spans, pad) == Carve(spans[..i], pad)
    decreases |spans| - i
  {
    if i < |spans| {
      assert spans[..i + 1][..i] == spans[..i];
      CarveStops(spans, pad, i + 1);
    } else {
      assert spans[..i] == spans;
    }
  }

  /** A non-empty sequence is its front followed by its last element. */
  lemma Snoc<T>(s: seq<T>)
    requires s != []
    ensures s == s[..|s| - 1] + [s[|s| - 1]]
  {
  }

  /**
   * At most one piece per non-blank line, and exactly one each once the
   * run got through all lines.
   */
  lemma {:induction false} CarveCount(spans: seq<Text>, pad: nat)
    ensures |Carve(spans, pad).0| <= |NonBlank(spans)|
    ensures Carve(spans, pad).1 ==> |Carve(spans, pad).0| == |NonBlank(spans)|
    decreases |spans|
  {
    if spans != [] {
      var init, t := spans[..|spans| - 1], spans[|spans| - 1];
      CarveCount(init, pad);
      Snoc(spans);
      NonBlankSnoc(init, t);
      var prev, cur := Carve(init, pad), Carve(spans, pad);
      assert cur == CarveLine(prev, t, pad);
      if Blank(t) {
        assert cur == prev && NonBlank(spans) == NonBlank(init);
      } else if !prev.1 || Window(t, pad).None? {
        assert cur.0 == prev.0 && !cur.1;
      } else {
        assert cur == (prev.0 + [Window(t, pad).value], true);
      }
    }
  }

  /**
   * Piece i is the carving of the i-th non-blank line: the pieces come in
   * the order of the lines, and each reassembles its line less the
   * indentation.
   */
  lemma {:induction false} CarvePieces(spans: seq<Text>, pad: nat)
    ensures forall i :: 0 <= i < |Carve(spans, pad).0| && i < |NonBlank(spans)| ==>
      Window(NonBlank(spans)[i], pad) == Some(Carve(spans, pad).0[i])
    decreases |spans|
  {
    if spans != [] {
      var init, t := spans[..|spans| - 1], spans[|spans| - 1];
      CarvePieces(init, pad);
      CarveCount(init, pad);
      Snoc(spans);
      NonBlankSnoc(init, t);
      assert Carve(spans, pad) == CarveLine(Carve(init, pad), t, pad);
      CarveLinePieces(Carve(init, pad), NonBlank(init), t, pad);
    }
  }

  /** One more line keeps piece i the carving of non-blank line i. */
  lemma CarveLinePieces(prev: (seq<Piece>, bool), nb: seq<Text>, t: Text, pad: nat)
    requires |prev.0| <= |nb| && (prev.1 ==> |prev.0| == |nb|)
    requires forall i :: 0 <= i < |prev.0| && i < |nb| ==> Window(nb[i], pad) == Some(prev.0[i])
    ensures var cur, nb' := CarveLine(prev, t, pad), nb + if Blank(t) then [] else [t];
      forall i :: 0 <= i < |cur.0| && i < |nb'| ==> Window(nb'[i], pad) == Some(cur.0[i])
  {
    var cur, nb' := CarveLine(prev, t, pad), nb + if Blank(t) then [] else [t];
    forall i | 0 <= i < |cur.0| && i < |nb'|
      ensures Window(nb'[i], pad) == Some(cur.0[i])
    {
      if i < |prev.0| {
        assert cur.0[i] == prev.0[i] && nb'[i] == nb[i];
      } else {
        assert nb'[i] == t;
      }
    }
  }

  /** Well-formed lines are all carved: the run never panics. */
  lemma {:induction false} CarveAll(spans: seq<Text>, pad: nat)
    requires forall j :: 0 <= j < |spans| ==>
      Blank(spans[j]) || (
        pad <= |spans[j].data| && IsCharBoundary(spans[j].data, pad) &&
        WellFormedRuns(spans[j].data[pad..]) && spans[j].start <= spans[j].end)
    ensures Carve(spans, pad).1
    decreases |spans|
  {
    if spans != [] {
      var init, t := spans[..|spans| - 1], spans[|spans| - 1];
      assert forall j :: 0 <= j < |init| ==> init[j] == spans[j];
      CarveAll(init, pad);
      if !Blank(t) {
        WindowNoPanic(t, pad);
      }
    }
  }

  /** The non-blank lines, in order. */
  function NonBlank(spans: seq<Text>): (r: seq<Text>)
    ensures |r| <= |spans|
    ensures forall i :: 0 <= i < |r| ==> !Blank(r[i])
    decreases |spans|
  {
    if spans == [] then []
    else if Blank(spans[0]) then NonBlank(spans[1..])
    else [spans[0]] + NonBlank(spans[1..])
  }

  lemma {:induction false} NonBlankSnoc(init: seq<Text>, t: Text)
    ensures NonBlank(init + [t]) == NonBlank(init) + if Blank(t) then [] else [t]
    decreases |init|
  {
    if init != [] {
      assert (init + [t])[1..] == init[1..] + [t];
      NonBlankSnoc(init[1..], t);
    } else {
      assert [t][1..] == [];
    }
  }

  /**
   * `partition`: the lines carved in order, skipping blank ones, with the
   * indentation taken from the first line once that line is reached and
   * then kept for every later line. `completed` is false where the source
   * panics; `pieces` then holds what was yielded before.
   */
  method Partition(spans: seq<Text>) returns (pieces: seq<Piece>, completed: bool)
    ensures (pieces, completed) == Carve(spans, LeftPad(spans))
  {
    ghost var pad := LeftPad(spans);
    pieces := [];
    var leftPad := 0;
    for i := 0 to |spans|
      invariant (pieces, true) == Carve(spans[..i], pad)
      invariant i > 0 ==> leftPad == pad
      invariant i == 0 ==> leftPad == 0
    {
      var span := spans[i];
      CarveNext(spans, pad, i);
      if TrimStart(span.data) == [] {
        assert Blank(span) && (i == 0 ==> pad == 0);
        continue;
      }
      if i == 0 {
        var s := TrimStart(span.data);
        leftPad := |span.data| - |s|;
      }
      assert leftPad == pad;
      var w := Window(span, leftPad);
      if w.None? {
        assert Carve(spans[..i + 1], pad) == (pieces, false);
        CarveStops(spans, pad, i + 1);
        return pieces, false;
      }
      assert Carve(spans[..i + 1], pad) == (pieces + [w.value], true);
      pieces := pieces + [w.value];
    }
    assert spans[..|spans|] == spans;
    completed := true;
  }
}
