/**
 * The closed table of documentable item kinds and the suffix classifier
 * that maps a diagnostic message to the kind it talks about
 * (`ClassifyKind` in src/args.rs).
 */
module Kinds {
  import opened Wrappers
  import opened Utf8

  datatype ClassifyKind =
    | AssociatedConstant
    | AssociatedFunction
    | AssociatedType
    | Constant
    | Crate
    | Enum
    | Function
    | Macro
    | Method
    | Struct
    | StructField
    | Trait
    | TypeAlias
    | Variant
    | Static

  /** The snake-case key under which a kind is looked up in the theme configuration. */
  function AsKey(k: ClassifyKind): (key: string)
    ensures key != [] && forall i :: 0 <= i < |key| ==> key[i] == '_' || 'a' <= key[i] <= 'z'
  {
    match k
    case AssociatedConstant => "associated_constant"
    case AssociatedFunction => "associated_function"
    case AssociatedType => "associated_type"
    case Constant => "constant"
    case Crate => "crate"
    case Enum => "enum"
    case Function => "function"
    case Macro => "macro"
    case Method => "method"
    case Struct => "struct"
    case StructField => "struct_field"
    case Trait => "trait"
    case TypeAlias => "type_alias"
    case Variant => "variant"
    case Static => "static"
  }

  /** The phrase a diagnostic message ends with when it is about an item of this kind. */
  function AsStr(k: ClassifyKind): (phrase: Bytes)
    ensures |phrase| > 0
  {
    match k
    case AssociatedConstant => "associated constant"
    case AssociatedFunction => "associated function"
    case AssociatedType => "associated type"
    case Constant => "constant"
    case Crate => "the crate"
    case Enum => "enum"
    case Function => "function"
    case Macro => "macro"
    case Method => "method"
    case Struct => "struct"
    case StructField => "struct field"
    case Trait => "trait"
    case TypeAlias => "type alias"
    case Variant => "variant"
    case Static => "static"
  }

  /** The fixed order in which `Parse` tries the kinds. */
  const ORDER: seq<ClassifyKind> := [
    AssociatedConstant, AssociatedFunction, AssociatedType, Constant, Crate,
    Enum, Function, Macro, Method, Struct, StructField, Trait, TypeAlias,
    Variant, Static
  ]

  /** The position of a kind in `ORDER`. */
  function Rank(k: ClassifyKind): (i: nat)
    ensures i < |ORDER| && ORDER[i] == k
  {
    match k
    case AssociatedConstant => 0
    case AssociatedFunction => 1
    case AssociatedType => 2
    case Constant => 3
    case Crate => 4
    case Enum => 5
    case Function => 6
    case Macro => 7
    case Method => 8
    case Struct => 9
    case StructField => 10
    case Trait => 11
    case TypeAlias => 12
    case Variant => 13
    case Static => 14
  }

  /** `ORDER` lists every kind exactly once. */
  lemma RankOfOrder(i: nat)
    requires i < |ORDER|
    ensures Rank(ORDER[i]) == i
  {
  }

  /**
   * The linear search of `ClassifyKind::parse`, from position `n` of
   * `ORDER` on: the first kind whose phrase ends `input`, with the byte
   * offset at which that phrase starts.
   */
  function ParseFrom(input: Bytes, n: nat): (r: Option<(ClassifyKind, nat)>)
    ensures r.Some? ==>
      EndsWith(input, AsStr(r.value.0)) && r.value.1 == |input| - |AsStr(r.value.0)|
    ensures r.Some? ==>
      n <= Rank(r.value.0) &&
      forall j :: n <= j < Rank(r.value.0) ==> !EndsWith(input, AsStr(ORDER[j]))
    ensures r.None? <==> forall j :: n <= j < |ORDER| ==> !EndsWith(input, AsStr(ORDER[j]))
    decreases |ORDER| - n
  {
    if n >= |ORDER| then None
    else if EndsWith(input, AsStr(ORDER[n])) then
      RankOfOrder(n);
      EndsWithSlice(input, AsStr(ORDER[n]));
      Some((ORDER[n], |input| - |AsStr(ORDER[n])|))
    else
      ParseFrom(input, n + 1)
  }

  /**
   * `ClassifyKind::parse`: the first kind in `ORDER` whose phrase ends
   * `input`, and the byte offset where that phrase begins; `None` when no
   * phrase ends `input`.
   */
  function Parse(input: Bytes): (r: Option<(ClassifyKind, nat)>)
    ensures r.Some? ==>
      r.value.1 + |AsStr(r.value.0)| == |input| && input[r.value.1..] == AsStr(r.value.0)
  {
    var r := ParseFrom(input, 0);
    if r.None? then r
    else
      EndsWithSlice(input, AsStr(r.value.0));
      r
  }

  /** `Parse` finds nothing exactly when no kind's phrase ends the input. */
  lemma ParseNone(input: Bytes)
    ensures Parse(input).None? <==> forall k :: !EndsWith(input, AsStr(k))
  {
    if Parse(input).None? {
      forall k ensures !EndsWith(input, AsStr(k)) {
        assert ORDER[Rank(k)] == k;
      }
    }
  }

  /** Nothing finds a kind in the empty message: every phrase is non-empty. */
  lemma ParseEmpty()
    ensures Parse([]) == None
  {
    forall k ensures !EndsWith([], AsStr(k)) {
      EndsWithSlice([], AsStr(k));
    }
    ParseNone([]);
  }

  /** The kind `Parse` picks is the first in `ORDER` whose phrase ends the input. */
  lemma ParseFirstMatch(input: Bytes, k: ClassifyKind)
    requires Parse(input).Some? && Rank(k) < Rank(Parse(input).value.0)
    ensures !EndsWith(input, AsStr(k))
  {
    assert ORDER[Rank(k)] == k;
  }

  /** The last byte of a kind's phrase. */
  function LastByte(k: ClassifyKind): Byte {
    match k
    case AssociatedConstant => 't'
    case AssociatedFunction => 'n'
    case AssociatedType => 'e'
    case Constant => 't'
    case Crate => 'e'
    case Enum => 'm'
    case Function => 'n'
    case Macro => 'o'
    case Method => 'd'
    case Struct => 't'
    case StructField => 'd'
    case Trait => 't'
    case TypeAlias => 's'
    case Variant => 't'
    case Static => 'c'
  }

  /** The length in bytes of a kind's phrase. */
  function Length(k: ClassifyKind): nat {
    match k
    case AssociatedConstant => 19
    case AssociatedFunction => 19
    case AssociatedType => 15
    case Constant => 8
    case Crate => 9
    case Enum => 4
    case Function => 8
    case Macro => 5
    case Method => 6
    case Struct => 6
    case StructField => 12
    case Trait => 5
    case TypeAlias => 10
    case Variant => 7
    case Static => 6
  }

  lemma PhraseShape(k: ClassifyKind)
    ensures |AsStr(k)| == Length(k) && AsStr(k)[Length(k) - 1] == LastByte(k)
  {
  }

  /** The phrases that end one another, as `PhraseOverlaps` states it. */
  predicate Overlap(a: ClassifyKind, b: ClassifyKind) {
    a == b
    || (a == AssociatedConstant && b == Constant)
    || (a == AssociatedFunction && b == Function)
  }

  /**
   * Distinct phrases with the same last byte, the shorter one second:
   * the byte from the end at which they part.
   */
  lemma SameLastByte(a: ClassifyKind, b: ClassifyKind)
    requires a != b && !Overlap(a, b)
    requires LastByte(a) == LastByte(b) && Length(b) <= Length(a)
    ensures !EndsWith(AsStr(a), AsStr(b))
  {
    if LastByte(a) == 't' {
      if b == Variant {
        DiffersFromEnd(AsStr(a), AsStr(b), 3);
      } else {
        DiffersFromEnd(AsStr(a), AsStr(b), 1);
      }
    } else {
      DiffersFromEnd(AsStr(a), AsStr(b), 1);
    }
  }

  /**
   * Which phrases end which: apart from a phrase ending itself, only
   * "associated constant" ends in "constant" and "associated function"
   * ends in "function".
   */
  lemma PhraseOverlaps(a: ClassifyKind, b: ClassifyKind)
    ensures EndsWith(AsStr(a), AsStr(b)) <==> Overlap(a, b)
  {
    if Overlap(a, b) {
      OverlapEnds(a, b);
    } else if LastByte(a) != LastByte(b) {
      LastBytesDiffer(a, b);
    } else if Length(a) < Length(b) {
      PhraseShape(a);
      PhraseShape(b);
      EndsWithSlice(AsStr(a), AsStr(b));
    } else {
      SameLastByte(a, b);
    }
  }

  /** The overlapping pairs do end one another. */
  lemma OverlapEnds(a: ClassifyKind, b: ClassifyKind)
    requires Overlap(a, b)
    ensures EndsWith(AsStr(a), AsStr(b))
  {
    if a == b {
      EndsWithSelf(AsStr(a));
    } else {
      assert AsStr(a) == "associated " + AsStr(b);
      EndsWithAppend("associated ", AsStr(b));
    }
  }

  /** Phrases with different last bytes do not end one another. */
  lemma LastBytesDiffer(a: ClassifyKind, b: ClassifyKind)
    requires LastByte(a) != LastByte(b)
    ensures !EndsWith(AsStr(a), AsStr(b))
  {
    PhraseShape(a);
    PhraseShape(b);
    DiffersFromEnd(AsStr(a), AsStr(b), 0);
  }

  /**
   * A kind whose phrase ends the input, when no kind tried before it (from
   * position `n` of `ORDER` on) does, is the one the search picks.
   */
  lemma ParseFromPicks(input: Bytes, n: nat, k: ClassifyKind)
    requires n <= Rank(k) && EndsWith(input, AsStr(k))
    requires forall j :: n <= j < Rank(k) ==> !EndsWith(input, AsStr(ORDER[j]))
    ensures ParseFrom(input, n) == Some((k, |input| - |AsStr(k)|))
  {
    var r := ParseFrom(input, n);
    assert r.Some? by {
      assert n <= Rank(k) < |ORDER| && EndsWith(input, AsStr(ORDER[Rank(k)]));
    }
    var found := r.value.0;
    assert EndsWith(input, AsStr(ORDER[Rank(found)]));
    assert Rank(k) <= Rank(found);
    assert Rank(found) <= Rank(k);
    assert found == ORDER[Rank(found)] == k;
    assert r.value.1 == |input| - |AsStr(k)|;
    assert r == Some((found, r.value.1));
  }

  /** Every phrase, on its own, is classified as its own kind at offset 0. */
  lemma ParsePhrase(k: ClassifyKind)
    ensures Parse(AsStr(k)) == Some((k, 0))
  {
    EndsWithSelf(AsStr(k));
    forall j | 0 <= j < Rank(k)
      ensures !EndsWith(AsStr(k), AsStr(ORDER[j]))
    {
      PhraseOverlaps(k, ORDER[j]);
      RankOfOrder(j);
    }
    ParseFromPicks(AsStr(k), 0, k);
  }

  /** No two kinds share a phrase. */
  lemma PhrasesDistinct(a: ClassifyKind, b: ClassifyKind)
    requires AsStr(a) == AsStr(b)
    ensures a == b
  {
    ParsePhrase(a);
    ParsePhrase(b);
  }

  /** No two kinds share a configuration key. */
  lemma KeysDistinct(a: ClassifyKind, b: ClassifyKind)
    requires AsKey(a) == AsKey(b)
    ensures a == b
  {
  }

  /**
   * Text ending in "associated constant" is an associated constant, never
   * a plain constant, because the longer phrase is tried first.
   */
  lemma AssociatedConstantWins(head: Bytes)
    ensures Parse(head + AsStr(AssociatedConstant)) == Some((AssociatedConstant, |head|))
  {
    EndsWithAppend(head, AsStr(AssociatedConstant));
  }

  /**
   * Text ending in "associated function" is an associated function, never
   * a plain function.
   */
  lemma AssociatedFunctionWins(head: Bytes)
    ensures Parse(head + AsStr(AssociatedFunction)) == Some((AssociatedFunction, |head|))
  {
    var s := head + AsStr(AssociatedFunction);
    EndsWithAppend(head, AsStr(AssociatedFunction));
    PhraseShape(AssociatedConstant);
    assert s[|s| - 1] == 'n';
    DiffersFromEnd(s, AsStr(AssociatedConstant), 0);
    ParseFromPicks(s, 0, AssociatedFunction);
  }
}
