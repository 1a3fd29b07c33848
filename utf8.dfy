/**
 * Byte-level view of Rust `str` values: UTF-8 char boundaries, Unicode
 * whitespace trimming, prefix/suffix tests and the byte-to-char index
 * conversion the windowing code borrows from a foreign crate.
 *
 * A byte is carried in a `char` below 0x100, so an ASCII string literal is
 * also a byte string (`"struct field"` is its own UTF-8 encoding).
 */
module Utf8 {

  type Byte = c: char | c as int < 0x100

  type Bytes = seq<Byte>

  /** A single ASCII space. */
  const SPACE: Bytes := " "

  // ---------------------------------------------------------------------
  // Prefixes and suffixes (str::starts_with, strip_prefix, strip_suffix)
  // ---------------------------------------------------------------------

  predicate StartsWith(s: Bytes, prefix: Bytes) {
    |prefix| <= |s| && s[..|prefix|] == prefix
  }

  /** `s` ends with `suffix`, compared byte by byte from the end. */
  predicate EndsWith(s: Bytes, suffix: Bytes) {
    if suffix == [] then true
    else if s == [] then false
    else s[|s| - 1] == suffix[|suffix| - 1] && EndsWith(s[..|s| - 1], suffix[..|suffix| - 1])
  }

  /** The byte-by-byte comparison is the same as comparing the last |suffix| bytes. */
  lemma {:induction false} EndsWithSlice(s: Bytes, suffix: Bytes)
    ensures EndsWith(s, suffix) <==> |suffix| <= |s| && s[|s| - |suffix|..] == suffix
  {
    if suffix != [] && s != [] {
      EndsWithSlice(s[..|s| - 1], suffix[..|suffix| - 1]);
      if |suffix| <= |s| && s[|s| - |suffix|..] == suffix {
        assert s[..|s| - 1][|s| - |suffix|..] == suffix[..|suffix| - 1];
      }
      if EndsWith(s, suffix) {
        var k := |s| - |suffix|;
        assert s[..|s| - 1][k..] == suffix[..|suffix| - 1];
        assert s[k..] == s[..|s| - 1][k..] + [s[|s| - 1]];
        assert suffix == suffix[..|suffix| - 1] + [suffix[|suffix| - 1]];
      }
    }
  }

  /** Text ending in `suffix` is whatever precedes it followed by `suffix`. */
  lemma EndsWithAppend(head: Bytes, suffix: Bytes)
    ensures EndsWith(head + suffix, suffix)
  {
    EndsWithSlice(head + suffix, suffix);
    assert (head + suffix)[|head|..] == suffix;
  }

  /** Text whose k-th byte from the end differs from that of `suffix` does not end with it. */
  lemma DiffersFromEnd(s: Bytes, suffix: Bytes, k: nat)
    requires k < |suffix| && k < |s| && s[|s| - 1 - k] != suffix[|suffix| - 1 - k]
    ensures !EndsWith(s, suffix)
  {
    EndsWithSlice(s, suffix);
    if |suffix| <= |s| {
      assert s[|s| - |suffix|..][|suffix| - 1 - k] == s[|s| - 1 - k];
    }
  }

  /** Every text ends with itself. */
  lemma EndsWithSelf(s: Bytes)
    ensures EndsWith(s, s)
  {
    EndsWithSlice(s, s);
  }

  /** The two halves of a text split at `i` make it up again. */
  lemma SplitAt(s: Bytes, i: nat)
    requires i <= |s|
    ensures s[..i] + s[i..] == s
  {
  }

  /** `str::strip_prefix`: the rest of `s` when it starts with `prefix`. */
  function StripPrefix(s: Bytes, prefix: Bytes): (r: Bytes)
    ensures StartsWith(s, prefix) ==> prefix + r == s
    ensures !StartsWith(s, prefix) ==> r == s
  {
    if StartsWith(s, prefix) then s[|prefix|..] else s
  }

  // ---------------------------------------------------------------------
  // Char boundaries
  // ---------------------------------------------------------------------

  /** The byte read as an `i8`, the way the source tests it. */
  function AsSigned(b: Byte): int {
    if b as int < 0x80 then b as int else b as int - 0x100
  }

  /**
   * A byte that starts a UTF-8 char: `(b as i8) >= -0x40`. Only the
   * continuation bytes 0x80..0xBF fail the test.
   */
  predicate IsBoundaryByte(b: Byte)
    ensures IsBoundaryByte(b) <==> b as int < 0x80 || 0xC0 <= b as int
  {
    AsSigned(b) >= -0x40
  }

  /** `str::is_char_boundary`: the ends of the text, or a byte that starts a char. */
  predicate IsCharBoundary(s: Bytes, i: nat)
    ensures IsCharBoundary(s, i) ==> i <= |s|
  {
    i == 0 || i == |s| || (i < |s| && IsBoundaryByte(s[i]))
  }

  /**
   * Every run of four consecutive bytes holds the start of a char. Valid
   * UTF-8 has this property, since no char is longer than four bytes.
   */
  predicate ShortCharRuns(s: Bytes) {
    forall j :: 0 <= j && j + 4 <= |s| ==> StartWithin4(s, j)
  }

  /** One of the four bytes from position `j` on starts a char. */
  predicate StartWithin4(s: Bytes, j: nat)
    requires j + 4 <= |s|
  {
    IsBoundaryByte(s[j]) || IsBoundaryByte(s[j + 1]) || IsBoundaryByte(s[j + 2]) || IsBoundaryByte(s[j + 3])
  }

  // ---------------------------------------------------------------------
  // str_indices::chars::from_byte_idx
  // ---------------------------------------------------------------------

  /** The number of bytes of `s` that start a char, i.e. its char count. */
  function CountStarts(s: Bytes): (n: nat)
    ensures n <= |s|
  {
    if s == [] then 0
    else CountStarts(s[..|s| - 1]) + (if IsBoundaryByte(s[|s| - 1]) then 1 else 0)
  }

  /**
   * `str_indices::chars::from_byte_idx(s, idx)`: the index of the char
   * that holds byte `idx`, or the char count once `idx` is past the end.
   * For a byte inside the text that is one less than the number of char
   * starts in `[0, idx]` (a Rust `str` always starts with one).
   */
  function CharIndex(s: Bytes, idx: nat): (r: nat)
    ensures r <= CountStarts(s)
  {
    if idx >= |s| then CountStarts(s)
    else
      var starts := CountStarts(s[..idx + 1]);
      CountStartsPrefix(s, idx + 1, |s|);
      assert s[..|s|] == s;
      if starts == 0 then 0 else starts - 1
  }

  lemma {:induction false} CountStartsPrefix(s: Bytes, i: nat, j: nat)
    requires i <= j <= |s|
    ensures CountStarts(s[..i]) <= CountStarts(s[..j])
    decreases j - i
  {
    if i < j {
      CountStartsPrefix(s, i, j - 1);
      assert s[..j][..j - 1] == s[..j - 1];
    }
  }

  /** The char index never decreases as the byte index grows. */
  lemma CharIndexMonotone(s: Bytes, i: nat, j: nat)
    requires i <= j
    ensures CharIndex(s, i) <= CharIndex(s, j)
  {
    if i < |s| {
      if j < |s| {
        CountStartsPrefix(s, i + 1, j + 1);
      } else {
        CountStartsPrefix(s, i + 1, |s|);
        assert s[..|s|] == s;
      }
    }
  }

  /** Text made of single-byte chars only. */
  predicate IsAscii(s: Bytes) {
    forall i :: 0 <= i < |s| ==> s[i] as int < 0x80
  }

  /** In ASCII text every byte starts a char. */
  lemma {:induction false} CountStartsAscii(s: Bytes)
    requires IsAscii(s)
    ensures CountStarts(s) == |s|
    decreases |s|
  {
    if s != [] {
      var init := s[..|s| - 1];
      assert forall i :: 0 <= i < |init| ==> init[i] == s[i];
      CountStartsAscii(init);
    }
  }

  /** In ASCII text a byte index is its own char index, up to the char count. */
  lemma CharIndexAscii(s: Bytes, idx: nat)
    requires IsAscii(s)
    ensures CharIndex(s, idx) == if idx < |s| then idx else |s|
  {
    CountStartsAscii(s);
    if idx < |s| {
      var p := s[..idx + 1];
      assert forall i :: 0 <= i < |p| ==> p[i] == s[i];
      CountStartsAscii(p);
    }
  }

  // ---------------------------------------------------------------------
  // Unicode whitespace (char::is_whitespace), byte by byte
  // ---------------------------------------------------------------------

  /** The single-byte whitespace chars: U+0009..U+000D and U+0020. */
  predicate IsAsciiWhitespace(b: Byte) {
    b == '\t' || b == '\n' || b == '\U{000B}' || b == '\U{000C}' || b == '\r' || b == ' '
  }

  /** The two-byte whitespace chars U+0085 and U+00A0. */
  predicate IsWhitespace2(b0: Byte, b1: Byte) {
    b0 as int == 0xC2 && (b1 as int == 0x85 || b1 as int == 0xA0)
  }

  /**
   * The three-byte whitespace chars U+1680, U+2000..U+200A, U+2028,
   * U+2029, U+202F, U+205F and U+3000.
   */
  predicate IsWhitespace3(b0: Byte, b1: Byte, b2: Byte) {
    (b0 as int == 0xE1 && b1 as int == 0x9A && b2 as int == 0x80)
    || (b0 as int == 0xE2 && b1 as int == 0x80 && 0x80 <= b2 as int <= 0x8A)
    || (b0 as int == 0xE2 && b1 as int == 0x80 && (b2 as int == 0xA8 || b2 as int == 0xA9 || b2 as int == 0xAF))
    || (b0 as int == 0xE2 && b1 as int == 0x81 && b2 as int == 0x9F)
    || (b0 as int == 0xE3 && b1 as int == 0x80 && b2 as int == 0x80)
  }

  /** The length in bytes of the whitespace char that `s` starts with, 0 if none. */
  function WhitespaceAtFront(s: Bytes): (n: nat)
    ensures n <= |s| && n <= 3
  {
    if 1 <= |s| && IsAsciiWhitespace(s[0]) then 1
    else if 2 <= |s| && IsWhitespace2(s[0], s[1]) then 2
    else if 3 <= |s| && IsWhitespace3(s[0], s[1], s[2]) then 3
    else 0
  }

  /** The length in bytes of the whitespace char that `s` ends with, 0 if none. */
  function WhitespaceAtBack(s: Bytes): (n: nat)
    ensures n <= |s| && n <= 3
  {
    var k := |s|;
    if 1 <= k && IsAsciiWhitespace(s[k - 1]) then 1
    else if 2 <= k && IsWhitespace2(s[k - 2], s[k - 1]) then 2
    else if 3 <= k && IsWhitespace3(s[k - 3], s[k - 2], s[k - 1]) then 3
    else 0
  }

  /** `s` is a run of whitespace chars, read from the front. */
  predicate AllWhitespace(s: Bytes)
    decreases |s|
  {
    s == [] || (WhitespaceAtFront(s) > 0 && AllWhitespace(s[WhitespaceAtFront(s)..]))
  }

  /** `s` is a run of whitespace chars, read from the back. */
  predicate AllWhitespaceBack(s: Bytes)
    decreases |s|
  {
    s == [] || (WhitespaceAtBack(s) > 0 && AllWhitespaceBack(s[..|s| - WhitespaceAtBack(s)]))
  }

  /** Cutting text after its first whitespace char does not change what is found at its front. */
  lemma FrontOfPrefix(s: Bytes, m: nat)
    requires WhitespaceAtFront(s) <= m <= |s|
    ensures WhitespaceAtFront(s[..m]) == WhitespaceAtFront(s)
  {
    var p := s[..m];
    if 1 <= m { assert p[0] == s[0]; }
    if 2 <= m { assert p[1] == s[1]; }
    if 3 <= m { assert p[2] == s[2]; }
  }

  /** Cutting text before its last whitespace char does not change what is found at its back. */
  lemma BackOfSuffix(s: Bytes, m: nat)
    requires WhitespaceAtBack(s) <= m <= |s|
    ensures WhitespaceAtBack(s[|s| - m..]) == WhitespaceAtBack(s)
  {
    var p, k := s[|s| - m..], |s|;
    if 1 <= m { assert p[m - 1] == s[k - 1]; }
    if 2 <= m { assert p[m - 2] == s[k - 2]; }
    if 3 <= m { assert p[m - 3] == s[k - 3]; }
  }

  /**
   * The number of bytes `str::trim_start` removes: a run of whitespace
   * chars, after which none follows.
   */
  function LeadingWhitespace(s: Bytes): (n: nat)
    ensures n <= |s|
    ensures AllWhitespace(s[..n])
    ensures WhitespaceAtFront(s[n..]) == 0
    decreases |s|
  {
    var w := WhitespaceAtFront(s);
    if w == 0 then
      assert s[..0] == [];
      0
    else
      var rest := LeadingWhitespace(s[w..]);
      LeadingStep(s, rest);
      w + rest
  }

  /** A whitespace char in front of a run of whitespace makes a longer run. */
  lemma LeadingStep(s: Bytes, rest: nat)
    requires WhitespaceAtFront(s) > 0
    requires WhitespaceAtFront(s) + rest <= |s|
    requires AllWhitespace(s[WhitespaceAtFront(s)..][..rest])
    requires WhitespaceAtFront(s[WhitespaceAtFront(s)..][rest..]) == 0
    ensures AllWhitespace(s[..WhitespaceAtFront(s) + rest])
    ensures WhitespaceAtFront(s[WhitespaceAtFront(s) + rest..]) == 0
  {
    var w := WhitespaceAtFront(s);
    assert s[w..][rest..] == s[w + rest..];
    FrontOfPrefix(s, w + rest);
    assert s[..w + rest][w..] == s[w..][..rest];
  }

  /**
   * The number of bytes `str::trim_end` removes: a run of whitespace
   * chars, before which none precedes.
   */
  function TrailingWhitespace(s: Bytes): (n: nat)
    ensures n <= |s|
    ensures AllWhitespaceBack(s[|s| - n..])
    ensures WhitespaceAtBack(s[..|s| - n]) == 0
    decreases |s|
  {
    var w := WhitespaceAtBack(s);
    if w == 0 then
      assert s[|s|..] == [];
      0
    else
      var front := s[..|s| - w];
      var rest := TrailingWhitespace(front);
      TrailingStep(s, front, rest);
      w + rest
  }

  /** A whitespace char behind a run of whitespace makes a longer run. */
  lemma TrailingStep(s: Bytes, front: Bytes, rest: nat)
    requires WhitespaceAtBack(s) > 0 && front == s[..|s| - WhitespaceAtBack(s)]
    requires rest <= |front|
    requires AllWhitespaceBack(front[|front| - rest..])
    requires WhitespaceAtBack(front[..|front| - rest]) == 0
    ensures AllWhitespaceBack(s[|s| - (WhitespaceAtBack(s) + rest)..])
    ensures WhitespaceAtBack(s[..|s| - (WhitespaceAtBack(s) + rest)]) == 0
  {
    var w := WhitespaceAtBack(s);
    assert front[..|front| - rest] == s[..|s| - (w + rest)];
    BackOfSuffix(s, w + rest);
    var t := s[|s| - (w + rest)..];
    assert t[..|t| - w] == s[..|s| - w][|s| - w - rest..];
  }

  /** `str::trim_start`: the text after its leading whitespace. */
  function TrimStart(s: Bytes): (r: Bytes)
    ensures |r| <= |s| && s[|s| - |r|..] == r
    ensures AllWhitespace(s[..|s| - |r|]) && WhitespaceAtFront(r) == 0
  {
    s[LeadingWhitespace(s)..]
  }

  /** `str::trim_end`: the text before its trailing whitespace. */
  function TrimEnd(s: Bytes): (r: Bytes)
    ensures |r| <= |s| && s[..|r|] == r
    ensures AllWhitespaceBack(s[|r|..]) && WhitespaceAtBack(r) == 0
  {
    s[..|s| - TrailingWhitespace(s)]
  }

  /** Text is blank for `trim_start` exactly when it is all whitespace. */
  lemma {:induction false} TrimStartEmpty(s: Bytes)
    ensures TrimStart(s) == [] <==> AllWhitespace(s)
    decreases |s|
  {
    if s != [] && AllWhitespace(s) {
      var w := WhitespaceAtFront(s);
      TrimStartEmpty(s[w..]);
      assert LeadingWhitespace(s) == w + LeadingWhitespace(s[w..]);
    }
    if TrimStart(s) == [] {
      assert s[..|s|] == s;
    }
  }

  /** `str::trim`: whitespace removed from both ends. */
  function Trim(s: Bytes): (r: Bytes)
    ensures WhitespaceAtFront(r) == 0 && WhitespaceAtBack(r) == 0
    ensures TrimmedFrom(s, LeadingWhitespace(s), r)
  {
    var r := TrimEnd(s[LeadingWhitespace(s)..]);
    TrimInside(s, r);
    r
  }

  /** `r` is `s` less a run of `k` whitespace bytes in front and a run of whitespace behind. */
  predicate TrimmedFrom(s: Bytes, k: nat, r: Bytes) {
    k + |r| <= |s| && s[k..k + |r|] == r && AllWhitespace(s[..k]) && AllWhitespaceBack(s[k + |r|..])
  }

  /** The text trimmed at the front, then at the back, sits between two whitespace runs of `s`. */
  lemma TrimInside(s: Bytes, r: Bytes)
    requires r == TrimEnd(s[LeadingWhitespace(s)..])
    ensures WhitespaceAtFront(r) == 0 && WhitespaceAtBack(r) == 0
    ensures TrimmedFrom(s, LeadingWhitespace(s), r)
  {
    TrimAt(s, LeadingWhitespace(s), r);
  }

  /** Text found after a whitespace run of `k` bytes and trimmed at its back. */
  lemma TrimAt(s: Bytes, k: nat, r: Bytes)
    requires k <= |s| && AllWhitespace(s[..k]) && WhitespaceAtFront(s[k..]) == 0
    requires |r| <= |s[k..]| && s[k..][..|r|] == r
    requires AllWhitespaceBack(s[k..][|r|..]) && WhitespaceAtBack(r) == 0
    ensures WhitespaceAtFront(r) == 0 && WhitespaceAtBack(r) == 0
    ensures TrimmedFrom(s, k, r)
  {
    FrontOfPrefix(s[k..], |r|);
    SliceOfSuffix(s, k, |r|);
  }

  /** Slicing the part of `s` after `k` is slicing `s` itself, `k` further on. */
  lemma SliceOfSuffix<T>(s: seq<T>, k: nat, m: nat)
    requires k + m <= |s|
    ensures s[k..][..m] == s[k..k + m] && s[k..][m..] == s[k + m..]
  {
  }

  /** One space before text that has no whitespace at either end is all that `Trim` removes. */
  lemma TrimLeadingSpace(b: Bytes)
    requires b != [] && WhitespaceAtFront(b) == 0 && WhitespaceAtBack(b) == 0
    ensures Trim(SPACE + b) == b
  {
    var s := SPACE + b;
    assert WhitespaceAtFront(s) == 1;
    assert s[1..] == b;
    assert LeadingWhitespace(b) == 0 by { assert b[0..] == b; }
    assert LeadingWhitespace(s) == 1;
    assert TrimStart(s) == b;
    TrimUntouched(b);
  }

  /** Text without whitespace at either end comes back from `Trim` unchanged. */
  lemma TrimUntouched(s: Bytes)
    requires WhitespaceAtFront(s) == 0 && WhitespaceAtBack(s) == 0
    ensures Trim(s) == s
  {
    assert s[0..] == s;
  }
}
