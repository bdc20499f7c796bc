/**
 * The pattern codec: a closed enumeration whose every variant has a
 * fixed-length bit-string over {0, 1, x, X}.  A pattern value is the index of
 * its variant in declaration order; its canonical encoding is a vector of
 * BITS_COUNT booleans, position i being the bit named by the i-th bit name.
 */
module BitPattern {

  datatype Option<+T> = None | Some(value: T)

  datatype Result<+T, +E> = Ok(value: T) | Err(error: E)

  /** The one way a pattern decode fails. */
  datatype DecodeError = NoMatchingVariant

  /** One case of a pattern: display name, description, bit-string. */
  datatype Variant = Variant(name: string, desc: string, bits: string)

  /**
   * A pattern's schema: the bit names in position order (the canonical
   * order) and the variants in declaration order.
   */
  datatype PatternTable = PatternTable(bitNames: seq<string>, variants: seq<Variant>)

  function BitsCount(t: PatternTable): nat { |t.bitNames| }

  function VariantCount(t: PatternTable): nat { |t.variants| }

  predicate IsWildcard(c: char) { c == 'x' || c == 'X' }

  predicate IsBitChar(c: char) { c == '0' || c == '1' || IsWildcard(c) }

  /** Bit names are pairwise distinct. */
  predicate DistinctNames(names: seq<string>)
  {
    forall i, j :: 0 <= i < j < |names| ==> names[i] != names[j]
  }

  /** Every variant's bit-string has BITS_COUNT characters from {0, 1, x, X}. */
  predicate WellFormed(t: PatternTable)
  {
    && DistinctNames(t.bitNames)
    && forall k :: 0 <= k < |t.variants| ==>
         && |t.variants[k].bits| == |t.bitNames|
         && forall i :: 0 <= i < |t.variants[k].bits| ==> IsBitChar(t.variants[k].bits[i])
  }

  /**
   * A bit-string matches an input iff they have the same length and every
   * non-wildcard character equals the corresponding input bit.
   */
  predicate Matches(bits: string, input: seq<bool>)
  {
    && |bits| == |input|
    && forall i :: 0 <= i < |bits| ==> IsWildcard(bits[i]) || input[i] == (bits[i] == '1')
  }

  /** The first variant at or after `from` whose bit-string matches `input`. */
  function FirstMatch(vs: seq<Variant>, input: seq<bool>, from: nat): (r: Result<nat, DecodeError>)
    requires from <= |vs|
    ensures r.Ok? ==> from <= r.value < |vs| && Matches(vs[r.value].bits, input)
    ensures r.Ok? ==> forall j :: from <= j < r.value ==> !Matches(vs[j].bits, input)
    ensures r.Err? ==> forall j :: from <= j < |vs| ==> !Matches(vs[j].bits, input)
    decreases |vs| - from
  {
    if from == |vs| then Err(NoMatchingVariant)
    else if Matches(vs[from].bits, input) then Ok(from)
    else FirstMatch(vs, input, from + 1)
  }

  /**
   * Pattern decode: the first variant, in declaration order, whose
   * non-wildcard characters equal the input bits; NoMatchingVariant if none.
   */
  function Decode(t: PatternTable, input: seq<bool>): (r: Result<nat, DecodeError>)
    ensures r.Ok? ==> r.value < VariantCount(t) && Matches(t.variants[r.value].bits, input)
    ensures r.Ok? ==> forall j :: 0 <= j < r.value ==> !Matches(t.variants[j].bits, input)
    ensures r.Err? <==> forall j :: 0 <= j < VariantCount(t) ==> !Matches(t.variants[j].bits, input)
  {
    FirstMatch(t.variants, input, 0)
  }

  /**
   * Pattern encode: the canonical vector of variant k.  A wildcard position
   * is written as false (0); this is the convention of this model.
   */
  function Encode(t: PatternTable, k: nat): (r: seq<bool>)
    requires WellFormed(t) && k < VariantCount(t)
    ensures |r| == BitsCount(t)
    ensures Matches(t.variants[k].bits, r)
    ensures forall i :: 0 <= i < |r| && IsWildcard(t.variants[k].bits[i]) ==> !r[i]
  {
    seq(|t.bitNames|, i requires 0 <= i < |t.bitNames| => t.variants[k].bits[i] == '1')
  }

  /** `_pos_to_name`: the name of the bit at a canonical position. */
  function PosToName(t: PatternTable, pos: nat): (name: string)
    requires pos < BitsCount(t)
    ensures name in t.bitNames
  {
    t.bitNames[pos]
  }

  /**
   * `_name_to_pos`: the canonical position of a declared bit name.  An
   * undeclared name is unreachable in the source, so callers must not pass one.
   */
  function NameToPos(t: PatternTable, name: string): (pos: nat)
    requires name in t.bitNames
    ensures pos < BitsCount(t) && t.bitNames[pos] == name
  {
    IndexOf(t.bitNames, name)
  }

  function IndexOf(names: seq<string>, name: string): (i: nat)
    requires name in names
    ensures i < |names| && names[i] == name
    ensures forall j :: 0 <= j < i ==> names[j] != name
  {
    if names[0] == name then 0 else 1 + IndexOf(names[1..], name)
  }

  /** With distinct names, the two lookups are mutually inverse. */
  lemma {:induction false} NamePosInverse(t: PatternTable, pos: nat, name: string)
    requires DistinctNames(t.bitNames)
    requires pos < BitsCount(t) && name in t.bitNames
    ensures NameToPos(t, PosToName(t, pos)) == pos
    ensures PosToName(t, NameToPos(t, name)) == name
  {
  }

  /**
   * Two bit-strings overlap when some input matches both: at every position
   * one of them is a wildcard or they agree.
   */
  predicate Overlap(a: string, b: string)
  {
    |a| == |b| && forall i :: 0 <= i < |a| ==> IsWildcard(a[i]) || IsWildcard(b[i]) || a[i] == b[i]
  }

  /** No two distinct variants can match the same input. */
  predicate Unambiguous(t: PatternTable)
  {
    forall j, k :: 0 <= j < |t.variants| && 0 <= k < |t.variants| && j != k ==>
      !Overlap(t.variants[j].bits, t.variants[k].bits)
  }

  /** Two equal-length bit-strings without wildcards overlap only when equal. */
  lemma ExactOverlap(a: string, b: string)
    requires |a| == |b|
    requires forall i :: 0 <= i < |a| ==> !IsWildcard(a[i]) && !IsWildcard(b[i])
    ensures Overlap(a, b) <==> a == b
  {
    if Overlap(a, b) {
      assert forall i :: 0 <= i < |a| ==> a[i] == b[i];
    }
  }

  /** A table without wildcards whose bit-strings are pairwise distinct is unambiguous. */
  lemma ExactTableUnambiguous(t: PatternTable)
    requires WellFormed(t)
    requires forall k, i :: 0 <= k < |t.variants| && 0 <= i < |t.variants[k].bits| ==> !IsWildcard(t.variants[k].bits[i])
    requires forall j, k :: 0 <= j < k < |t.variants| ==> t.variants[j].bits != t.variants[k].bits
    ensures Unambiguous(t)
  {
    forall j, k | 0 <= j < |t.variants| && 0 <= k < |t.variants| && j != k
      ensures !Overlap(t.variants[j].bits, t.variants[k].bits)
    {
      ExactOverlap(t.variants[j].bits, t.variants[k].bits);
    }
  }

  /** An input matching two bit-strings witnesses their overlap. */
  lemma {:induction false} MatchBothOverlap(t: PatternTable, j: nat, k: nat, input: seq<bool>)
    requires WellFormed(t) && j < |t.variants| && k < |t.variants|
    requires Matches(t.variants[j].bits, input) && Matches(t.variants[k].bits, input)
    ensures Overlap(t.variants[j].bits, t.variants[k].bits)
  {
    var a, b := t.variants[j].bits, t.variants[k].bits;
    forall i | 0 <= i < |a| ensures IsWildcard(a[i]) || IsWildcard(b[i]) || a[i] == b[i] {
      assert IsBitChar(a[i]) && IsBitChar(b[i]);
    }
  }

  /**
   * In an unambiguous table the first match is the only match: decode
   * returns k exactly when variant k's bit-string matches the input.
   */
  lemma {:induction false} DecodeUniqueMatch(t: PatternTable, input: seq<bool>, k: nat)
    requires WellFormed(t) && Unambiguous(t) && k < VariantCount(t)
    ensures Decode(t, input) == Ok(k) <==> Matches(t.variants[k].bits, input)
  {
    if Matches(t.variants[k].bits, input) {
      var r := Decode(t, input);
      assert r.Ok?;
      if r.value != k {
        MatchBothOverlap(t, r.value, k, input);
      }
    }
  }

  /** Round trip: decoding the canonical vector of a variant gives it back. */
  lemma {:induction false} EncodeDecodeRoundTrip(t: PatternTable, k: nat)
    requires WellFormed(t) && Unambiguous(t) && k < VariantCount(t)
    ensures Decode(t, Encode(t, k)) == Ok(k)
  {
    DecodeUniqueMatch(t, Encode(t, k), k);
  }

  // ---------------------------------------------------------------------
  // `impl BitPattern<()> for bool`
  // ---------------------------------------------------------------------

  /** The bool pattern: one bit named "0"; variants "false" (0) and "true" (1). */
  const BoolTable := PatternTable(["0"], [Variant("false", "false", "0"), Variant("true", "true", "1")])

  /** Variant index of a bool: false is variant 0, true is variant 1. */
  function BoolIndex(b: bool): (k: nat)
    ensures k < VariantCount(BoolTable)
    ensures BoolTable.variants[k].name == (if b then "true" else "false")
  {
    if b then 1 else 0
  }

  /** `encode` for bool: the one-element vector [b]. */
  function BoolEncode(b: bool): (r: seq<bool>)
    ensures |r| == BitsCount(BoolTable) && r[0] == b
    ensures r == Encode(BoolTable, BoolIndex(b))
  {
    [b]
  }

  /** `decode` for bool: the first bit, which is the variant the generic table decode picks for it. */
  function BoolDecode(bits: seq<bool>): (r: Result<bool, ()>)
    requires |bits| >= 1
    ensures r.Ok? && r.value == bits[0]
    ensures Decode(BoolTable, bits[..1]) == Ok(BoolIndex(r.value))
  {
    BoolTableWellFormed();
    DecodeUniqueMatch(BoolTable, bits[..1], BoolIndex(bits[0]));
    Ok(bits[0])
  }

  lemma BoolTableWellFormed()
    ensures WellFormed(BoolTable) && Unambiguous(BoolTable)
    ensures BitsCount(BoolTable) == 1 && VariantCount(BoolTable) == 2
  {
    assert !Overlap("0", "1") by { assert "0"[0] != "1"[0]; }
    assert !Overlap("1", "0") by { assert "1"[0] != "0"[0]; }
  }

  /** decode(encode(b)) == Ok(b) for both booleans. */
  lemma BoolRoundTrip(b: bool)
    ensures BoolDecode(BoolEncode(b)) == Ok(b)
  {
  }

  /**
   * The bool impl agrees with the generic table codec: on a one-bit input the
   * table decode yields the variant of bits[0].
   */
  lemma BoolDecodeAgrees(bits: seq<bool>)
    requires |bits| == 1
    ensures Decode(BoolTable, bits) == Ok(BoolIndex(bits[0]))
    ensures BoolDecode(bits) == Ok(bits[0])
  {
    BoolTableWellFormed();
    DecodeUniqueMatch(BoolTable, bits, BoolIndex(bits[0]));
  }

  /** `_pos_to_name(0) == "0"` and `_name_to_pos("0") == 0`. */
  lemma BoolNames()
    ensures PosToName(BoolTable, 0) == "0" && NameToPos(BoolTable, "0") == 0
  {
  }
}
