/**
 * The CoolRunner-II macrocell as an instance of the fragment codec: six
 * pattern enums, the XC2Macrocell record of ten fields, its placement in
 * seven bitstream layouts (the small-device JED layout, the unburied and
 * buried large-device JED layouts, and four configuration-RAM grids), the
 * JedLarge layout that dispatches on whether the macrocell is buried, and
 * the default configuration.
 */
module Macrocell {
  import opened BitPattern
  import opened Schema
  import opened Coordinates
  import opened Fragment

  // ---------------------------------------------------------------------
  // The pattern enums
  // ---------------------------------------------------------------------

  /** Clock source for the register in a macrocell. */
  datatype XC2MCRegClkSrc = GCK0 | GCK1 | GCK2 | PTC | CTC

  /** Reset source for the register in a macrocell. */
  datatype XC2MCRegResetSrc = Disabled | PTA | GSR | CTR

  /** Set source for the register in a macrocell. */
  datatype XC2MCRegSetSrc = Disabled | PTA | GSR | CTS

  /** Mode of the register in a macrocell. */
  datatype XC2MCRegMode = DFF | LATCH | TFF | DFFCE

  /** Source of the ZIA feedback from this macrocell: the XOR gate or the register. */
  datatype XC2MCFeedbackMode = Disabled | COMB | REG

  /** The input of the XOR gate that does not come from the OR term. */
  datatype XC2MCXorMode = ZERO | ONE | PTC | PTCB

  const ClkSrcTable := PatternTable(["0", "1", "2"], [
    Variant("GCK0", "", "x00"), Variant("GCK1", "", "x10"), Variant("GCK2", "", "x01"),
    Variant("PTC", "", "011"), Variant("CTC", "", "111")])

  const ResetSrcTable := PatternTable(["0", "1"], [
    Variant("Disabled", "", "11"), Variant("PTA", "", "00"), Variant("GSR", "", "01"), Variant("CTR", "", "10")])

  const SetSrcTable := PatternTable(["0", "1"], [
    Variant("Disabled", "", "11"), Variant("PTA", "", "00"), Variant("GSR", "", "01"), Variant("CTS", "", "10")])

  const RegModeTable := PatternTable(["0", "1"], [
    Variant("DFF", "D-type flip-flop", "00"), Variant("LATCH", "Transparent latch", "01"),
    Variant("TFF", "Toggle flip-flop", "10"), Variant("DFFCE", "D-type flip-flop with clock-enable pin", "11")])

  const FeedbackModeTable := PatternTable(["0", "1"], [
    Variant("Disabled", "", "X1"), Variant("COMB", "", "00"), Variant("REG", "", "10")])

  const XorModeTable := PatternTable(["0", "1"], [
    Variant("ZERO", "A constant zero which results in this XOR outputting the value of the OR term", "00"),
    Variant("ONE", "A constant one which results in this XOR outputting the complement of the OR term", "11"),
    Variant("PTC", "XOR the OR term with the special product term C", "10"),
    Variant("PTCB", "XNOR the OR term with the special product term C", "01")])

  function ClkSrcIndex(c: XC2MCRegClkSrc): (k: nat)
    ensures k < VariantCount(ClkSrcTable)
  {
    match c
    case GCK0 => 0
    case GCK1 => 1
    case GCK2 => 2
    case PTC => 3
    case CTC => 4
  }

  function ClkSrcOf(k: nat): XC2MCRegClkSrc
    requires k < VariantCount(ClkSrcTable)
  {
    if k == 0 then GCK0 else if k == 1 then GCK1 else if k == 2 then GCK2 else if k == 3 then XC2MCRegClkSrc.PTC else CTC
  }

  function ResetSrcIndex(r: XC2MCRegResetSrc): (k: nat)
    ensures k < VariantCount(ResetSrcTable)
  {
    match r
    case Disabled => 0
    case PTA => 1
    case GSR => 2
    case CTR => 3
  }

  function ResetSrcOf(k: nat): XC2MCRegResetSrc
    requires k < VariantCount(ResetSrcTable)
  {
    if k == 0 then XC2MCRegResetSrc.Disabled else if k == 1 then XC2MCRegResetSrc.PTA
    else if k == 2 then XC2MCRegResetSrc.GSR else CTR
  }

  function SetSrcIndex(s: XC2MCRegSetSrc): (k: nat)
    ensures k < VariantCount(SetSrcTable)
  {
    match s
    case Disabled => 0
    case PTA => 1
    case GSR => 2
    case CTS => 3
  }

  function SetSrcOf(k: nat): XC2MCRegSetSrc
    requires k < VariantCount(SetSrcTable)
  {
    if k == 0 then XC2MCRegSetSrc.Disabled else if k == 1 then XC2MCRegSetSrc.PTA
    else if k == 2 then XC2MCRegSetSrc.GSR else CTS
  }

  function RegModeIndex(m: XC2MCRegMode): (k: nat)
    ensures k < VariantCount(RegModeTable)
  {
    match m
    case DFF => 0
    case LATCH => 1
    case TFF => 2
    case DFFCE => 3
  }

  function RegModeOf(k: nat): XC2MCRegMode
    requires k < VariantCount(RegModeTable)
  {
    if k == 0 then DFF else if k == 1 then LATCH else if k == 2 then TFF else DFFCE
  }

  function FeedbackModeIndex(f: XC2MCFeedbackMode): (k: nat)
    ensures k < VariantCount(FeedbackModeTable)
  {
    match f
    case Disabled => 0
    case COMB => 1
    case REG => 2
  }

  function FeedbackModeOf(k: nat): XC2MCFeedbackMode
    requires k < VariantCount(FeedbackModeTable)
  {
    if k == 0 then XC2MCFeedbackMode.Disabled else if k == 1 then COMB else REG
  }

  function XorModeIndex(x: XC2MCXorMode): (k: nat)
    ensures k < VariantCount(XorModeTable)
  {
    match x
    case ZERO => 0
    case ONE => 1
    case PTC => 2
    case PTCB => 3
  }

  function XorModeOf(k: nat): XC2MCXorMode
    requires k < VariantCount(XorModeTable)
  {
    if k == 0 then ZERO else if k == 1 then ONE else if k == 2 then XC2MCXorMode.PTC else PTCB
  }

  /** Each enum is in one-to-one correspondence with the variants of its table. */
  lemma EnumIndexBijections()
    ensures forall c :: ClkSrcOf(ClkSrcIndex(c)) == c
    ensures forall k :: 0 <= k < VariantCount(ClkSrcTable) ==> ClkSrcIndex(ClkSrcOf(k)) == k
    ensures forall r :: ResetSrcOf(ResetSrcIndex(r)) == r
    ensures forall k :: 0 <= k < VariantCount(ResetSrcTable) ==> ResetSrcIndex(ResetSrcOf(k)) == k
    ensures forall s :: SetSrcOf(SetSrcIndex(s)) == s
    ensures forall k :: 0 <= k < VariantCount(SetSrcTable) ==> SetSrcIndex(SetSrcOf(k)) == k
    ensures forall m :: RegModeOf(RegModeIndex(m)) == m
    ensures forall k :: 0 <= k < VariantCount(RegModeTable) ==> RegModeIndex(RegModeOf(k)) == k
    ensures forall f :: FeedbackModeOf(FeedbackModeIndex(f)) == f
    ensures forall k :: 0 <= k < VariantCount(FeedbackModeTable) ==> FeedbackModeIndex(FeedbackModeOf(k)) == k
    ensures forall x :: XorModeOf(XorModeIndex(x)) == x
    ensures forall k :: 0 <= k < VariantCount(XorModeTable) ==> XorModeIndex(XorModeOf(k)) == k
  {
  }
  // ---------------------------------------------------------------------
  // Properties of the pattern tables
  // ---------------------------------------------------------------------

  /** Two bit-strings that disagree on a position where neither has a wildcard do not overlap. */
  lemma DifferAt(a: string, b: string, i: nat)
    requires i < |a| == |b| && !IsWildcard(a[i]) && !IsWildcard(b[i]) && a[i] != b[i]
    ensures !Overlap(a, b)
  {
  }

  /** Two bit names, "0" and "1", are distinct. */
  lemma TwoNames()
    ensures DistinctNames(["0", "1"])
  {
    assert "0"[0] != "1"[0];
  }

  /** A two-bit table whose variants are exact, pairwise distinct bit-strings is well formed and unambiguous. */
  lemma ExactTwoBitTable(t: PatternTable)
    requires t.bitNames == ["0", "1"]
    requires forall k :: 0 <= k < |t.variants| ==> t.variants[k].bits in {"00", "01", "10", "11"}
    requires forall j, k :: 0 <= j < k < |t.variants| ==> t.variants[j].bits != t.variants[k].bits
    ensures WellFormed(t) && Unambiguous(t) && BitsCount(t) == 2
  {
    TwoNames();
    forall k | 0 <= k < |t.variants|
      ensures |t.variants[k].bits| == 2 && !IsWildcard(t.variants[k].bits[0]) && !IsWildcard(t.variants[k].bits[1])
      ensures IsBitChar(t.variants[k].bits[0]) && IsBitChar(t.variants[k].bits[1])
    {
      var b := t.variants[k].bits;
      assert b == "00" || b == "01" || b == "10" || b == "11";
    }
    ExactTableUnambiguous(t);
  }

  lemma ResetSrcTableOk()
    ensures WellFormed(ResetSrcTable) && Unambiguous(ResetSrcTable) && BitsCount(ResetSrcTable) == 2
  {
    var vs := ResetSrcTable.variants;
    assert vs[0].bits == "11" && vs[1].bits == "00" && vs[2].bits == "01" && vs[3].bits == "10";
    assert "11"[0] != "00"[0] && "11"[0] != "01"[0] && "11"[1] != "10"[1] && "00"[1] != "01"[1] && "00"[0] != "10"[0] && "01"[0] != "10"[0];
    ExactTwoBitTable(ResetSrcTable);
  }

  lemma SetSrcTableOk()
    ensures WellFormed(SetSrcTable) && Unambiguous(SetSrcTable) && BitsCount(SetSrcTable) == 2
  {
    var vs := SetSrcTable.variants;
    assert vs[0].bits == "11" && vs[1].bits == "00" && vs[2].bits == "01" && vs[3].bits == "10";
    assert "11"[0] != "00"[0] && "11"[0] != "01"[0] && "11"[1] != "10"[1] && "00"[1] != "01"[1] && "00"[0] != "10"[0] && "01"[0] != "10"[0];
    ExactTwoBitTable(SetSrcTable);
  }

  lemma RegModeTableOk()
    ensures WellFormed(RegModeTable) && Unambiguous(RegModeTable) && BitsCount(RegModeTable) == 2
  {
    var vs := RegModeTable.variants;
    assert vs[0].bits == "00" && vs[1].bits == "01" && vs[2].bits == "10" && vs[3].bits == "11";
    assert "00"[1] != "01"[1] && "00"[0] != "10"[0] && "00"[0] != "11"[0] && "01"[0] != "10"[0] && "01"[0] != "11"[0] && "10"[1] != "11"[1];
    ExactTwoBitTable(RegModeTable);
  }

  lemma XorModeTableOk()
    ensures WellFormed(XorModeTable) && Unambiguous(XorModeTable) && BitsCount(XorModeTable) == 2
  {
    var vs := XorModeTable.variants;
    assert vs[0].bits == "00" && vs[1].bits == "11" && vs[2].bits == "10" && vs[3].bits == "01";
    assert "00"[0] != "11"[0] && "00"[0] != "10"[0] && "00"[1] != "01"[1] && "11"[1] != "10"[1] && "11"[0] != "01"[0] && "10"[0] != "01"[0];
    ExactTwoBitTable(XorModeTable);
  }

  /** FeedbackMode's wildcard variant "X1" is told apart from "00" and "10" by its second bit. */
  lemma FeedbackModeTableOk()
    ensures WellFormed(FeedbackModeTable) && Unambiguous(FeedbackModeTable) && BitsCount(FeedbackModeTable) == 2
  {
    TwoNames();
    var f := FeedbackModeTable.variants;
    assert f[0].bits == "X1" && f[1].bits == "00" && f[2].bits == "10";
    forall k | 0 <= k < |f| ensures |f[k].bits| == 2 && IsBitChar(f[k].bits[0]) && IsBitChar(f[k].bits[1]) {
    }
    DifferAt("X1", "00", 1);
    DifferAt("00", "X1", 1);
    DifferAt("X1", "10", 1);
    DifferAt("10", "X1", 1);
    DifferAt("00", "10", 0);
    DifferAt("10", "00", 0);
  }

  lemma ClkSrcTableWellFormed()
    ensures WellFormed(ClkSrcTable) && BitsCount(ClkSrcTable) == 3
  {
    assert DistinctNames(["0", "1", "2"]) by {
      assert "0"[0] != "1"[0] && "0"[0] != "2"[0] && "1"[0] != "2"[0];
    }
    var c := ClkSrcTable.variants;
    assert c[0].bits == "x00" && c[1].bits == "x10" && c[2].bits == "x01" && c[3].bits == "011" && c[4].bits == "111";
    forall k | 0 <= k < |c| ensures |c[k].bits| == 3 && IsBitChar(c[k].bits[0]) && IsBitChar(c[k].bits[1]) && IsBitChar(c[k].bits[2]) {
    }
  }

  /**
   * ClkSrc's three wildcard variants "x00", "x10", "x01" differ in bits 1
   * and 2 from each other and from "011" and "111", which differ in bit 0.
   */
  lemma ClkSrcTableOk()
    ensures WellFormed(ClkSrcTable) && Unambiguous(ClkSrcTable) && BitsCount(ClkSrcTable) == 3
  {
    ClkSrcTableWellFormed();
    var c := ClkSrcTable.variants;
    assert c[0].bits == "x00" && c[1].bits == "x10" && c[2].bits == "x01" && c[3].bits == "011" && c[4].bits == "111";
    forall j, k | 0 <= j < |c| && 0 <= k < |c| && j != k ensures !Overlap(c[j].bits, c[k].bits) {
      var a, b := c[j].bits, c[k].bits;
      if j >= 3 && k >= 3 {
        DifferAt(a, b, 0);
      } else if a[1] != b[1] {
        DifferAt(a, b, 1);
      } else {
        DifferAt(a, b, 2);
      }
    }
  }
  /** Every three-bit input decodes to a clock source: the five bit-strings cover all eight inputs. */
  lemma ClkSrcDecodeTotal(buf: seq<bool>)
    requires |buf| == 3
    ensures Decode(ClkSrcTable, buf).Ok?
  {
    var c := ClkSrcTable.variants;
    assert c[0].bits == "x00" && c[1].bits == "x10" && c[2].bits == "x01" && c[3].bits == "011" && c[4].bits == "111";
    var k := if !buf[1] && !buf[2] then 0 else if buf[1] && !buf[2] then 1 else if !buf[1] && buf[2] then 2
      else if !buf[0] then 3 else 4;
    assert Matches(c[k].bits, buf);
  }

  /** Every two-bit input decodes in a table whose four variants are "00", "01", "10" and "11" in some order. */
  lemma TwoBitDecodeTotal(t: PatternTable, buf: seq<bool>)
    requires |buf| == 2 && |t.variants| == 4
    requires multiset{t.variants[0].bits, t.variants[1].bits, t.variants[2].bits, t.variants[3].bits} == multiset{"00", "01", "10", "11"}
    ensures Decode(t, buf).Ok?
  {
    var s := if buf[0] then (if buf[1] then "11" else "10") else (if buf[1] then "01" else "00");
    assert s in multiset{"00", "01", "10", "11"};
    var k :| 0 <= k < 4 && t.variants[k].bits == s;
    assert Matches(t.variants[k].bits, buf);
  }

  /** Every two-bit input decodes to a feedback mode: "X1" covers 01 and 11. */
  lemma FeedbackModeDecodeTotal(buf: seq<bool>)
    requires |buf| == 2
    ensures Decode(FeedbackModeTable, buf).Ok?
  {
    var f := FeedbackModeTable.variants;
    assert f[0].bits == "X1" && f[1].bits == "00" && f[2].bits == "10";
    var k := if buf[1] then 0 else if !buf[0] then 1 else 2;
    assert Matches(f[k].bits, buf);
  }

  /** A two-bit input decodes to the feedback mode Disabled exactly when its bit 1 is set. */
  lemma FeedbackModeDisabledIff(buf: seq<bool>)
    requires |buf| == 2
    ensures Decode(FeedbackModeTable, buf) == Ok(FeedbackModeIndex(XC2MCFeedbackMode.Disabled)) <==> buf[1]
  {
    FeedbackModeTableOk();
    assert FeedbackModeTable.variants[0].bits == "X1";
    assert Matches("X1", buf) <==> buf[1];
    DecodeUniqueMatch(FeedbackModeTable, buf, 0);
  }
  // ---------------------------------------------------------------------
  // The macrocell record and its seven layouts
  // ---------------------------------------------------------------------

  /** The configuration of one macrocell, fields in declaration order. */
  datatype XC2Macrocell = XC2Macrocell(
    clkSrc: XC2MCRegClkSrc,
    clkInvertPol: bool,
    isDdr: bool,
    rSrc: XC2MCRegResetSrc,
    sSrc: XC2MCRegSetSrc,
    initState: bool,
    regMode: XC2MCRegMode,
    fbMode: XC2MCFeedbackMode,
    ffInIbuf: bool,
    xorMode: XC2MCXorMode)

  /** The seven bitstream layouts the record is declared with. */
  datatype McVariant = JedSmall | JedLargeUnburied | JedLargeBuried | Crbit32 | Crbit64 | Crbit256 | CrbitLarge

  const FieldCount := 10

  const FieldNames := ["clk_src", "clk_invert_pol", "is_ddr", "r_src", "s_src",
                       "init_state", "reg_mode", "fb_mode", "ff_in_ibuf", "xor_mode"]

  /** The pattern of each field: an enum table, or the one-bit bool pattern. */
  function FieldTable(i: nat): PatternTable
  {
    if i == 0 then ClkSrcTable
    else if i == 3 then ResetSrcTable
    else if i == 4 then SetSrcTable
    else if i == 6 then RegModeTable
    else if i == 7 then FeedbackModeTable
    else if i == 9 then XorModeTable
    else BoolTable
  }

  /** The ten fields of a layout, given the bit map of each; none is an array field. */
  function McFields(b: seq<map<string, PatBitInfo>>): (fs: seq<FieldLayout>)
    requires |b| == FieldCount
    ensures |fs| == FieldCount
    ensures forall i :: 0 <= i < FieldCount ==> fs[i] == FieldLayout(FieldNames[i], FieldTable(i), b[i], None)
  {
    seq(FieldCount, i requires 0 <= i < FieldCount => FieldLayout(FieldNames[i], FieldTable(i), b[i], None))
  }

  function Dims(v: McVariant): nat
  {
    match v
    case JedSmall | JedLargeUnburied | JedLargeBuried => 1
    case _ => 2
  }

  /** The extent of the variant's picture, per dimension. */
  function Extent(v: McVariant): (size: seq<nat>)
    ensures |size| == Dims(v)
  {
    match v
    case JedSmall => [27]
    case JedLargeUnburied => [29]
    case JedLargeBuried => [16]
    case Crbit32 => [9, 3]
    case Crbit64 => [9, 3]
    case Crbit256 => [10, 3]
    case CrbitLarge => [15, 2]
  }

  const Arities := [3, 1, 1, 2, 2, 1, 2, 2, 1, 2]

  /** Where the bits of field i start when the bits of all ten fields are laid end to end. */
  const Starts := [0, 3, 4, 5, 7, 9, 10, 12, 14, 15]

  const BitTotal := 17

  /** The place of bit p of field i when the bits of all ten fields are laid end to end. */
  function Slot(i: nat, p: nat): (a: nat)
    requires i < FieldCount && p < Arities[i]
    ensures a < BitTotal
  {
    Starts[i] + p
  }

  /**
   * The picture cell of every bit of the record, read off the
   * `#[pat_pict]` pictures of mc.rs: fields in declaration order, bits in
   * canonical order, cells numbered row by row (column + width * row).  The
   * one bit that is a constant rather than a fuse is marked -1.
   */
  function Cells(v: McVariant): (cs: seq<int>)
    ensures |cs| == BitTotal
  {
    match v
    case JedSmall => [0, 2, 3,  1,  4,  5, 6,  7, 8,  26,  9, 10,  13, 14,  15,  17, 18]
    case JedLargeUnburied => [0, 1, 2,  4,  3,  23, 24,  17, 18,  19,  21, 22,  6, 7,  10,  27, 28]
    case JedLargeBuried => [0, 1, 2,  4,  3,  12, 13,  7, 8,  9,  10, 11,  5, 6,  -1,  14, 15]
    case Crbit32 => [0, 2, 3,  1,  4,  5, 6,  7, 8,  26,  9, 10,  13, 14,  15,  17, 18]
    case Crbit64 => [8, 5, 6,  7,  4,  2, 3,  0, 1,  18,  16, 17,  12, 13,  11,  25, 26]
    case Crbit256 => [9, 7, 8,  5,  6,  24, 25,  11, 12,  10,  26, 27,  2, 3,  19,  20, 21]
    case CrbitLarge => [8, 9, 10,  12,  11,  26, 27,  28, 29,  14,  24, 25,  2, 3,  13,  15, 16]
  }

  function Width(v: McVariant): nat
  {
    Extent(v)[0]
  }

  /** Number of cells of the picture. */
  function CellCount(v: McVariant): nat
  {
    match v
    case JedSmall => 27
    case JedLargeUnburied => 29
    case JedLargeBuried => 16
    case Crbit32 => 27
    case Crbit64 => 27
    case Crbit256 => 30
    case CrbitLarge => 30
  }

  /** The coordinates of picture cell k. */
  function CoordsOf(v: McVariant, k: int): (c: seq<int>)
    ensures |c| == Dims(v)
  {
    if Dims(v) == 1 then [k] else [k % Width(v), k / Width(v)]
  }

  /** The bits of init_state and ff_in_ibuf are stored inverted (`!0` in their pictures). */
  predicate Inverted(i: nat)
  {
    i == 5 || i == 8
  }

  /** Bit p of field i: a fuse at its picture cell, or the constant `0=false` of the buried layout. */
  function BitInfo(v: McVariant, i: nat, p: nat): PatBitInfo
    requires i < FieldCount && p < Arities[i]
  {
    var k := Cells(v)[Slot(i, p)];
    if k < 0 then PatBitInfo(false, Bool(false)) else PatBitInfo(Inverted(i), Loc(CoordsOf(v, k)))
  }

  /** The bits of each field in canonical order. */
  function Infos(v: McVariant): (b: seq<seq<PatBitInfo>>)
    ensures |b| == FieldCount
    ensures forall i :: 0 <= i < FieldCount ==> |b[i]| == Arities[i]
  {
    seq(FieldCount, i requires 0 <= i < FieldCount => seq(Arities[i], p requires 0 <= p < Arities[i] => BitInfo(v, i, p)))
  }

  const BitNames := ["0", "1", "2"]

  /** The `#[pat_bits]` map of a field with one to three bits: bit name k to the k-th entry. */
  function ToMap(s: seq<PatBitInfo>): map<string, PatBitInfo>
  {
    if |s| == 1 then map["0" := s[0]]
    else if |s| == 2 then map["0" := s[0], "1" := s[1]]
    else if |s| == 3 then map["0" := s[0], "1" := s[1], "2" := s[2]]
    else map[]
  }

  function BitMaps(v: McVariant): (b: seq<map<string, PatBitInfo>>)
    ensures |b| == FieldCount
  {
    seq(FieldCount, i requires 0 <= i < FieldCount => ToMap(Infos(v)[i]))
  }

  /** The layout of the record in variant v. */
  function LayoutOf(v: McVariant): (l: Layout)
    ensures l.dims == Dims(v) && |l.fields| == FieldCount
  {
    Layout(Dims(v), McFields(BitMaps(v)))
  }
  /**
   * Every field's pattern is well formed and unambiguous, and has as many
   * bits as the field's pictures number: the width each picture allots it.
   */
  lemma FieldTablesOk()
    ensures forall i :: 0 <= i < FieldCount ==> WellFormed(FieldTable(i)) && Unambiguous(FieldTable(i))
    ensures forall i :: 0 <= i < FieldCount ==> BitsCount(FieldTable(i)) == Arities[i]
  {
    ClkSrcTableOk();
    ResetSrcTableOk();
    SetSrcTableOk();
    RegModeTableOk();
    FeedbackModeTableOk();
    XorModeTableOk();
    BoolTableWellFormed();
  }

  /** A bit map names exactly the given bits, each located one with `dims` coordinates. */
  predicate BitMapFits(m: map<string, PatBitInfo>, names: seq<string>, dims: nat)
  {
    && (forall n :: n in m ==> n in names)
    && (forall n :: n in names ==> n in m)
    && (forall n :: n in m && m[n].pos.Loc? ==> |m[n].pos.coords| == dims)
  }

  predicate Sized(a: PatBitInfo, dims: nat)
  {
    a.pos.Loc? ==> |a.pos.coords| == dims
  }

  /** The map of one to three bits names exactly the first bit names, bit k holding the k-th entry. */
  lemma ToMapFits(s: seq<PatBitInfo>, dims: nat)
    requires 1 <= |s| <= 3 && forall p :: 0 <= p < |s| ==> Sized(s[p], dims)
    ensures BitMapFits(ToMap(s), BitNames[..|s|], dims)
    ensures forall p :: 0 <= p < |s| ==> ToMap(s)[BitNames[p]] == s[p]
  {
    assert "0"[0] != "1"[0] && "0"[0] != "2"[0] && "1"[0] != "2"[0];
    if |s| == 1 {
      assert BitNames[..1] == ["0"];
    } else if |s| == 2 {
      assert BitNames[..2] == ["0", "1"];
    } else {
      assert BitNames[..3] == ["0", "1", "2"];
    }
  }

  /** Each field of each layout has as many bits as its pattern, each with one coordinate per dimension. */
  lemma InfosShape(v: McVariant)
    ensures forall i :: 0 <= i < FieldCount ==>
      && |Infos(v)[i]| == BitsCount(FieldTable(i))
      && FieldTable(i).bitNames == BitNames[..|Infos(v)[i]|]
      && forall p :: 0 <= p < |Infos(v)[i]| ==> Sized(Infos(v)[i][p], Dims(v))
  {
    assert BitNames[..1] == ["0"] && BitNames[..2] == ["0", "1"] && BitNames[..3] == BitNames;
  }

  /** Every field's bit map names exactly its pattern's bits, each with one coordinate per dimension. */
  lemma LayoutOfOk(v: McVariant)
    ensures LayoutOk(LayoutOf(v)) && TablesUnambiguous(LayoutOf(v))
    ensures forall i, p :: 0 <= i < FieldCount && 0 <= p < BitCount(LayoutOf(v), i) ==>
      p < |Infos(v)[i]| && InfoAt(LayoutOf(v), i, p) == Infos(v)[i][p]
  {
    FieldTablesOk();
    InfosShape(v);
    var l := LayoutOf(v);
    forall i | 0 <= i < FieldCount
      ensures FieldOk(l.fields[i], l.dims)
      ensures forall p :: 0 <= p < BitCount(l, i) ==> l.fields[i].bits[l.fields[i].table.bitNames[p]] == Infos(v)[i][p]
    {
      FieldOfOk(v, i);
    }
  }

  /** Field i of layout v is well formed, and its bit map gives each bit its position info. */
  lemma FieldOfOk(v: McVariant, i: nat)
    requires i < FieldCount
    ensures |LayoutOf(v).fields| == FieldCount
    ensures FieldOk(LayoutOf(v).fields[i], LayoutOf(v).dims)
    ensures forall p :: 0 <= p < BitsCount(FieldTable(i)) ==>
      && LayoutOf(v).fields[i].table == FieldTable(i)
      && LayoutOf(v).fields[i].bits[FieldTable(i).bitNames[p]] == Infos(v)[i][p]
  {
    FieldTablesOk();
    InfosShape(v);
    var l := LayoutOf(v);
    ToMapFits(Infos(v)[i], l.dims);
    assert l.fields[i] == FieldLayout(FieldNames[i], FieldTable(i), ToMap(Infos(v)[i]), None);
    assert |Zeros(l.dims)| == l.dims;
  }
  // ---------------------------------------------------------------------
  // No two bits share a fuse, and every bit lies inside its picture
  // ---------------------------------------------------------------------

  /**
   * No two bits of a layout name the same picture cell, every cell lies
   * inside the picture, and the only constant is ff_in_ibuf of the buried layout.
   */
  predicate CellsOk(v: McVariant)
  {
    && (forall a, b :: 0 <= a < b < BitTotal ==> Cells(v)[a] != Cells(v)[b])
    && (forall a :: 0 <= a < BitTotal ==> Cells(v)[a] < CellCount(v))
    && (forall a :: 0 <= a < BitTotal ==> (Cells(v)[a] < 0 <==> v == JedLargeBuried && a == 14))
  }

  lemma AllCellsOk(v: McVariant)
    ensures CellsOk(v)
  {
    match v
    case JedSmall => CellsOkJedSmall();
    case JedLargeUnburied => CellsOkJedLargeUnburied();
    case JedLargeBuried => CellsOkJedLargeBuried();
    case Crbit32 => CellsOkCrbit32();
    case Crbit64 => CellsOkCrbit64();
    case Crbit256 => CellsOkCrbit256();
    case CrbitLarge => CellsOkCrbitLarge();
  }

  lemma CellsOkJedSmall()
    ensures CellsOk(JedSmall)
  {
    assert forall a, b :: 0 <= a < b < BitTotal ==> Cells(JedSmall)[a] != Cells(JedSmall)[b];
    assert forall a :: 0 <= a < BitTotal ==> 0 <= Cells(JedSmall)[a] < CellCount(JedSmall);
  }

  lemma CellsOkJedLargeUnburied()
    ensures CellsOk(JedLargeUnburied)
  {
    assert forall a, b :: 0 <= a < b < BitTotal ==> Cells(JedLargeUnburied)[a] != Cells(JedLargeUnburied)[b];
    assert forall a :: 0 <= a < BitTotal ==> 0 <= Cells(JedLargeUnburied)[a] < CellCount(JedLargeUnburied);
  }

  lemma CellsOkJedLargeBuried()
    ensures CellsOk(JedLargeBuried)
  {
    assert forall a, b :: 0 <= a < b < BitTotal ==> Cells(JedLargeBuried)[a] != Cells(JedLargeBuried)[b];
    assert forall a :: 0 <= a < BitTotal && a != 14 ==> 0 <= Cells(JedLargeBuried)[a] < CellCount(JedLargeBuried);
    assert Cells(JedLargeBuried)[14] == -1;
  }

  lemma CellsOkCrbit32()
    ensures CellsOk(Crbit32)
  {
    assert forall a, b :: 0 <= a < b < BitTotal ==> Cells(Crbit32)[a] != Cells(Crbit32)[b];
    assert forall a :: 0 <= a < BitTotal ==> 0 <= Cells(Crbit32)[a] < CellCount(Crbit32);
  }

  lemma CellsOkCrbit64()
    ensures CellsOk(Crbit64)
  {
    assert forall a, b :: 0 <= a < b < BitTotal ==> Cells(Crbit64)[a] != Cells(Crbit64)[b];
    assert forall a :: 0 <= a < BitTotal ==> 0 <= Cells(Crbit64)[a] < CellCount(Crbit64);
  }

  lemma CellsOkCrbit256()
    ensures CellsOk(Crbit256)
  {
    assert forall a, b :: 0 <= a < b < BitTotal ==> Cells(Crbit256)[a] != Cells(Crbit256)[b];
    assert forall a :: 0 <= a < BitTotal ==> 0 <= Cells(Crbit256)[a] < CellCount(Crbit256);
  }

  lemma CellsOkCrbitLarge()
    ensures CellsOk(CrbitLarge)
  {
    assert forall a, b :: 0 <= a < b < BitTotal ==> Cells(CrbitLarge)[a] != Cells(CrbitLarge)[b];
    assert forall a :: 0 <= a < BitTotal ==> 0 <= Cells(CrbitLarge)[a] < CellCount(CrbitLarge);
  }

  /** Every cell of the picture has coordinates inside the picture. */
  lemma CoordsOfInBounds(v: McVariant, k: int)
    requires 0 <= k < CellCount(v)
    ensures InBounds(CoordsOf(v, k), Extent(v))
  {
    match v
    case Crbit32 | Crbit64 => assert CoordsOf(v, k) == [k % 9, k / 9];
    case Crbit256 => assert CoordsOf(v, k) == [k % 10, k / 10];
    case CrbitLarge => assert CoordsOf(v, k) == [k % 15, k / 15];
    case _ =>
  }

  /** Distinct cells have distinct coordinates. */
  lemma CoordsOfInjective(v: McVariant, k1: int, k2: int)
    requires 0 <= k1 && 0 <= k2
    ensures CoordsOf(v, k1) == CoordsOf(v, k2) ==> k1 == k2
  {
    if Dims(v) == 2 && CoordsOf(v, k1) == CoordsOf(v, k2) {
      var w := Width(v);
      assert w > 0;
      assert k1 % w == CoordsOf(v, k1)[0] == CoordsOf(v, k2)[0] == k2 % w;
      assert k1 / w == CoordsOf(v, k1)[1] == CoordsOf(v, k2)[1] == k2 / w;
      DivModDetermines(k1, k2, w);
    }
  }

  /** A number is determined by its quotient and remainder. */
  lemma DivModDetermines(a: int, b: int, w: nat)
    requires w > 0 && a % w == b % w && a / w == b / w
    ensures a == b
  {
    assert a == w * (a / w) + a % w;
    assert b == w * (b / w) + b % w;
  }

  /** Laid end to end, the bits of distinct fields or positions occupy distinct places. */
  lemma SlotInjective(i: nat, p: nat, i2: nat, p2: nat)
    requires i < FieldCount && p < Arities[i] && i2 < FieldCount && p2 < Arities[i2]
    requires Slot(i, p) == Slot(i2, p2)
    ensures i == i2 && p == p2
  {
  }

  /** A field that is not an array is one element, whose bits sit at their own locations. */
  lemma PlainLocalPos(l: Layout, i: nat, p: nat)
    requires LayoutOk(l) && i < |l.fields| && l.fields[i].arrOff.None?
    requires p < BitCount(l, i) && InfoAt(l, i, p).pos.Loc?
    ensures ElemCount(l, i) == 1
    ensures LocalPos(l, i, 0, p) == InfoAt(l, i, p).pos.coords
  {
    assert FieldOk(l.fields[i], l.dims);
    assert Deltas(l.fields[i], l.dims) == [Zeros(l.dims)];
    var c := InfoAt(l, i, p).pos.coords;
    var z := VecAdd(Zeros(l.dims), c);
    assert LocalPos(l, i, 0, p) == z;
    assert z == c;
  }

  /** Bit p of field i of a layout sits at its picture cell. */
  lemma LocalPosOf(v: McVariant, i: nat, p: nat)
    requires i < FieldCount && p < Arities[i] && Cells(v)[Slot(i, p)] >= 0
    ensures LayoutOk(LayoutOf(v)) && ElemCount(LayoutOf(v), i) == 1 && p < BitCount(LayoutOf(v), i)
    ensures InfoAt(LayoutOf(v), i, p) == BitInfo(v, i, p)
    ensures LocalPos(LayoutOf(v), i, 0, p) == CoordsOf(v, Cells(v)[Slot(i, p)])
  {
    LayoutOfOk(v);
    InfosShape(v);
    assert Infos(v)[i][p] == BitInfo(v, i, p);
    PlainLocalPos(LayoutOf(v), i, p);
  }

  /** Two fuse bits of a layout at the same picture coordinates are the same bit. */
  lemma SameCoordsSameBit(v: McVariant, i: nat, p: nat, i2: nat, p2: nat)
    requires i < FieldCount && p < Arities[i] && Cells(v)[Slot(i, p)] >= 0
    requires i2 < FieldCount && p2 < Arities[i2] && Cells(v)[Slot(i2, p2)] >= 0
    requires CoordsOf(v, Cells(v)[Slot(i, p)]) == CoordsOf(v, Cells(v)[Slot(i2, p2)])
    ensures i == i2 && p == p2
  {
    SameCoordsSameCell(v, Slot(i, p), Slot(i2, p2));
    SlotInjective(i, p, i2, p2);
  }

  /** Distinct bits of a layout have distinct positions in its picture. */
  lemma LayoutOfInjective(v: McVariant)
    ensures LayoutOk(LayoutOf(v)) && LocalInjective(LayoutOf(v))
  {
    LayoutOfOk(v);
    InfosShape(v);
    var l := LayoutOf(v);
    forall i, e, p, i2, e2, p2 |
      && 0 <= i < |l.fields| && 0 <= e < ElemCount(l, i) && 0 <= p < BitCount(l, i) && InfoAt(l, i, p).pos.Loc?
      && 0 <= i2 < |l.fields| && 0 <= e2 < ElemCount(l, i2) && 0 <= p2 < BitCount(l, i2) && InfoAt(l, i2, p2).pos.Loc?
      && LocalPos(l, i, e, p) == LocalPos(l, i2, e2, p2)
      ensures i == i2 && e == e2 && p == p2
    {
      assert InfoAt(l, i, p) == BitInfo(v, i, p) && InfoAt(l, i2, p2) == BitInfo(v, i2, p2);
      LocalPosOf(v, i, p);
      LocalPosOf(v, i2, p2);
      SameCoordsSameBit(v, i, p, i2, p2);
    }
  }

  // ---------------------------------------------------------------------
  // Placing the record in a fuse array
  // ---------------------------------------------------------------------

  /**
   * The picture fits the grid at this placement: along every dimension both
   * of its ends resolve inside the grid (a mirrored picture extends from
   * the offset towards lower coordinates).
   */
  predicate Fits(v: McVariant, pl: Placement)
  {
    && |pl.shape| == Dims(v) && |pl.offset| == Dims(v) && |pl.mirror| == Dims(v)
    && forall d :: 0 <= d < Dims(v) ==>
         if pl.mirror[d] then Extent(v)[d] - 1 <= pl.offset[d] < pl.shape[d]
         else 0 <= pl.offset[d] && pl.offset[d] + Extent(v)[d] <= pl.shape[d]
  }

  /** A picture coordinate resolves inside the grid when the picture fits. */
  lemma ResolveInside(v: McVariant, pl: Placement, c: seq<int>)
    requires Fits(v, pl) && InBounds(c, Extent(v))
    ensures InBounds(Resolve(pl.offset, pl.mirror, c), pl.shape)
  {
    forall d | 0 <= d < Dims(v) ensures 0 <= Resolve(pl.offset, pl.mirror, c)[d] < pl.shape[d] {
      ResolveMirror(pl.offset, pl.mirror, c, d);
    }
  }

  /** The fuse holding picture cell k at a placement that fits. */
  function FuseIndex(v: McVariant, pl: Placement, k: int): (c: nat)
    requires Fits(v, pl) && 0 <= k < CellCount(v)
    ensures c < Product(pl.shape)
  {
    CoordsOfInBounds(v, k);
    ResolveInside(v, pl, CoordsOf(v, k));
    Flatten(Resolve(pl.offset, pl.mirror, CoordsOf(v, k)), pl.shape)
  }

  /**
   * The fuse of picture cell k: for a JED layout the fuse number
   * offset + sign * k, for a configuration-RAM layout the cell of column
   * offset[0] + sign * (k % width) in row offset[1] + sign * (k / width).
   */
  lemma FuseIndexFormula(v: McVariant, pl: Placement, k: int)
    requires Fits(v, pl) && 0 <= k < CellCount(v)
    ensures Dims(v) == 1 ==> FuseIndex(v, pl, k) == pl.offset[0] + Sign(pl.mirror[0]) * k
    ensures Dims(v) == 2 ==> FuseIndex(v, pl, k) == (pl.offset[0] + Sign(pl.mirror[0]) * (k % Width(v)))
                                  + pl.shape[0] * (pl.offset[1] + Sign(pl.mirror[1]) * (k / Width(v)))
  {
    CoordsOfInBounds(v, k);
    ResolveInside(v, pl, CoordsOf(v, k));
    var a := Resolve(pl.offset, pl.mirror, CoordsOf(v, k));
    if Dims(v) == 1 {
      Flatten1(a[0], pl.shape[0]);
      assert a == [a[0]] && pl.shape == [pl.shape[0]];
    } else {
      Flatten2(a[0], a[1], pl.shape[0], pl.shape[1]);
      assert a == [a[0], a[1]] && pl.shape == [pl.shape[0], pl.shape[1]];
    }
  }

  /** Two fuse bits of a layout at the same picture coordinates are at the same place in the bit order. */
  lemma SameCoordsSameCell(v: McVariant, a: nat, b: nat)
    requires a < BitTotal && b < BitTotal && 0 <= Cells(v)[a] && 0 <= Cells(v)[b]
    requires CoordsOf(v, Cells(v)[a]) == CoordsOf(v, Cells(v)[b])
    ensures a == b
  {
    CellAt(v, a);
    CoordsOfInjective(v, Cells(v)[a], Cells(v)[b]);
    CellsDistinct(v, a, b);
  }

  /** Distinct bits of a layout name distinct picture cells. */
  lemma CellsDistinct(v: McVariant, a: nat, b: nat)
    requires a < BitTotal && b < BitTotal && Cells(v)[a] == Cells(v)[b]
    ensures a == b
  {
    AllCellsOk(v);
  }

  /** Every bit of a layout is a fuse inside the picture, except ff_in_ibuf of the buried layout. */
  lemma CellAt(v: McVariant, a: nat)
    requires a < BitTotal
    ensures Cells(v)[a] < CellCount(v)
    ensures Cells(v)[a] < 0 <==> v == JedLargeBuried && a == 14
  {
    AllCellsOk(v);
  }

  /** A bit of the layout that is a fuse sits at its picture cell, which lies inside the picture. */
  lemma FuseBit(v: McVariant, i: nat, p: nat)
    requires i < FieldCount && p < BitCount(LayoutOf(v), i)
    ensures LayoutOk(LayoutOf(v)) && p < Arities[i]
    ensures InfoAt(LayoutOf(v), i, p) == BitInfo(v, i, p)
    ensures InfoAt(LayoutOf(v), i, p).pos.Loc? <==> 0 <= Cells(v)[Slot(i, p)]
    ensures Cells(v)[Slot(i, p)] < CellCount(v)
  {
    LayoutOfOk(v);
    InfosShape(v);
    assert Infos(v)[i][p] == BitInfo(v, i, p);
    CellAt(v, Slot(i, p));
  }

  /** Where a fuse bit of the layout lands at a placement that fits. */
  lemma FuseBitCell(v: McVariant, pl: Placement, i: nat, p: nat)
    requires Fits(v, pl) && i < FieldCount && p < Arities[i] && 0 <= Cells(v)[Slot(i, p)]
    ensures LayoutOk(LayoutOf(v)) && PlacementFits(LayoutOf(v), pl)
    ensures ElemCount(LayoutOf(v), i) == 1 && p < BitCount(LayoutOf(v), i) && InfoAt(LayoutOf(v), i, p).pos.Loc?
    ensures Cells(v)[Slot(i, p)] < CellCount(v)
    ensures InBounds(CoordOf(LayoutOf(v), pl, i, 0, p), pl.shape)
    ensures Flatten(CoordOf(LayoutOf(v), pl, i, 0, p), pl.shape) == FuseIndex(v, pl, Cells(v)[Slot(i, p)])
  {
    var l, k := LayoutOf(v), Cells(v)[Slot(i, p)];
    LocalPosOf(v, i, p);
    FuseBit(v, i, p);
    CoordsOfInBounds(v, k);
    assert CoordOf(l, pl, i, 0, p) == Resolve(pl.offset, pl.mirror, CoordsOf(v, k));
    ResolveInside(v, pl, CoordsOf(v, k));
  }

  /**
   * At a placement that fits, every fuse of the layout lands inside the
   * grid and no two bits share a fuse.
   */
  lemma LayoutOfPlaceable(v: McVariant, pl: Placement)
    requires Fits(v, pl)
    ensures LayoutOk(LayoutOf(v)) && PlacementFits(LayoutOf(v), pl)
    ensures Placeable(LayoutOf(v), pl) && DisjointCells(LayoutOf(v), pl)
  {
    LayoutOfInjective(v);
    var l := LayoutOf(v);
    forall i, e, p | 0 <= i < |l.fields| && 0 <= e < ElemCount(l, i) && 0 <= p < BitCount(l, i) && InfoAt(l, i, p).pos.Loc?
      ensures InBounds(CoordOf(l, pl, i, e, p), pl.shape)
    {
      FuseBit(v, i, p);
      FuseBitCell(v, pl, i, p);
    }
    DisjointFromLocal(l, pl);
  }

  // ---------------------------------------------------------------------
  // The record as a value of its layouts
  // ---------------------------------------------------------------------

  /** The variant index of field i of the record. */
  function FieldValue(mc: XC2Macrocell, i: nat): (k: nat)
    requires i < FieldCount
    ensures k < VariantCount(FieldTable(i))
  {
    if i == 0 then ClkSrcIndex(mc.clkSrc)
    else if i == 1 then BoolIndex(mc.clkInvertPol)
    else if i == 2 then BoolIndex(mc.isDdr)
    else if i == 3 then ResetSrcIndex(mc.rSrc)
    else if i == 4 then SetSrcIndex(mc.sSrc)
    else if i == 5 then BoolIndex(mc.initState)
    else if i == 6 then RegModeIndex(mc.regMode)
    else if i == 7 then FeedbackModeIndex(mc.fbMode)
    else if i == 8 then BoolIndex(mc.ffInIbuf)
    else XorModeIndex(mc.xorMode)
  }

  /** The record as a layout value: each field one element, the variant index of its value. */
  function Values(mc: XC2Macrocell): (vs: seq<seq<nat>>)
    ensures |vs| == FieldCount && forall i :: 0 <= i < FieldCount ==> vs[i] == [FieldValue(mc, i)]
  {
    seq(FieldCount, i requires 0 <= i < FieldCount => [FieldValue(mc, i)])
  }

  /** A layout value of the record: one in-range variant index per field. */
  predicate RecordValues(vs: seq<seq<nat>>)
  {
    && |vs| == FieldCount
    && forall i :: 0 <= i < FieldCount ==> |vs[i]| == 1 && vs[i][0] < VariantCount(FieldTable(i))
  }

  /** The record a decoded layout value stands for (what the generated decode constructs). */
  function FromValues(vs: seq<seq<nat>>): XC2Macrocell
    requires RecordValues(vs)
  {
    assert |vs[0]| == 1 && vs[0][0] < VariantCount(FieldTable(0));
    assert |vs[1]| == 1 && |vs[2]| == 1 && |vs[5]| == 1 && |vs[8]| == 1;
    assert |vs[3]| == 1 && vs[3][0] < VariantCount(FieldTable(3));
    assert |vs[4]| == 1 && vs[4][0] < VariantCount(FieldTable(4));
    assert |vs[6]| == 1 && vs[6][0] < VariantCount(FieldTable(6));
    assert |vs[7]| == 1 && vs[7][0] < VariantCount(FieldTable(7));
    assert |vs[9]| == 1 && vs[9][0] < VariantCount(FieldTable(9));
    XC2Macrocell(ClkSrcOf(vs[0][0]), vs[1][0] == 1, vs[2][0] == 1, ResetSrcOf(vs[3][0]), SetSrcOf(vs[4][0]),
      vs[5][0] == 1, RegModeOf(vs[6][0]), FeedbackModeOf(vs[7][0]), vs[8][0] == 1, XorModeOf(vs[9][0]))
  }

  /** Every record is a layout value, and reading it back gives the record. */
  lemma ValuesRoundTrip(mc: XC2Macrocell)
    ensures RecordValues(Values(mc)) && FromValues(Values(mc)) == mc
  {
    EnumIndexBijections();
  }

  /** Every layout value is the value of the record it stands for. */
  lemma FromValuesRoundTrip(vs: seq<seq<nat>>)
    requires RecordValues(vs)
    ensures Values(FromValues(vs)) == vs
  {
    EnumIndexBijections();
    var ws := Values(FromValues(vs));
    forall i | 0 <= i < FieldCount ensures ws[i] == vs[i] {
      assert |vs[i]| == 1 && vs[i][0] < VariantCount(FieldTable(i));
      assert ws[i][0] == vs[i][0];
    }
  }

  /** Every field of every layout is one element of its own pattern. */
  lemma LayoutOfShape(v: McVariant)
    ensures forall i :: 0 <= i < FieldCount ==>
      && ElemCount(LayoutOf(v), i) == 1 && LayoutOf(v).fields[i].table == FieldTable(i)
      && BitCount(LayoutOf(v), i) == BitsCount(FieldTable(i))
  {
    var l := LayoutOf(v);
    forall i | 0 <= i < FieldCount ensures ElemCount(l, i) == 1 && l.fields[i].table == FieldTable(i) {
      assert Deltas(l.fields[i], l.dims) == [Zeros(l.dims)];
    }
  }

  /** The layout values of every variant are exactly the record's layout values. */
  lemma RecordValuesOk(v: McVariant, vs: seq<seq<nat>>)
    ensures ValuesOk(LayoutOf(v), vs) <==> RecordValues(vs)
  {
    LayoutOfShape(v);
  }

  // ---------------------------------------------------------------------
  // Encode and decode of the record
  // ---------------------------------------------------------------------

  /** The generated `encode` of layout v: the grid after the record's fuses are written. */
  function EncodeMacrocell(g: seq<bool>, v: McVariant, pl: Placement, mc: XC2Macrocell): (r: seq<bool>)
    requires Fits(v, pl)
    ensures |r| == |g|
  {
    LayoutOfPlaceable(v, pl);
    ValuesRoundTrip(mc);
    RecordValuesOk(v, Values(mc));
    Encoded(g, LayoutOf(v), pl, Values(mc))
  }

  /** The generated `decode` of layout v: every field read in declaration order, the first error returned. */
  function DecodeMacrocell(g: seq<bool>, v: McVariant, pl: Placement): Result<XC2Macrocell, DecodeError>
    requires Fits(v, pl) && |g| == Product(pl.shape)
  {
    LayoutOfPlaceable(v, pl);
    match Decoded(g, LayoutOf(v), pl)
    case Err(err) => Err(err)
    case Ok(vs) =>
      DecodedIsValue(g, LayoutOf(v), pl);
      RecordValuesOk(v, vs);
      Ok(FromValues(vs))
  }

  // ---------------------------------------------------------------------
  // What encode and decode of the record promise
  // ---------------------------------------------------------------------

  /** The one constant bit of the layouts is ff_in_ibuf of the buried layout, and it reads false. */
  lemma ConstantBit(v: McVariant, i: nat, p: nat)
    requires i < FieldCount && p < BitCount(LayoutOf(v), i)
    requires LayoutOk(LayoutOf(v)) && InfoAt(LayoutOf(v), i, p).pos.Bool?
    ensures v == JedLargeBuried && i == 8 && p == 0
    ensures InfoAt(LayoutOf(v), i, p) == PatBitInfo(false, Bool(false))
  {
    FuseBit(v, i, p);
    CellAt(v, Slot(i, p));
    SlotInjective(i, p, 8, 0);
  }

  /** The constant `0=false` for ff_in_ibuf when buried agrees with every record whose ff_in_ibuf is false. */
  lemma ConstantsAgreeOf(v: McVariant, mc: XC2Macrocell)
    requires v == JedLargeBuried ==> !mc.ffInIbuf
    ensures LayoutOk(LayoutOf(v)) && ValuesOk(LayoutOf(v), Values(mc))
    ensures ConstantsAgree(LayoutOf(v), Values(mc))
  {
    LayoutOfOk(v);
    LayoutOfShape(v);
    ValuesRoundTrip(mc);
    RecordValuesOk(v, Values(mc));
    var l := LayoutOf(v);
    forall i, e, p | 0 <= i < |l.fields| && 0 <= e < ElemCount(l, i) && 0 <= p < BitCount(l, i) && InfoAt(l, i, p).pos.Bool?
      ensures ConstantFits(l, Values(mc), i, e, p)
    {
      ConstantBit(v, i, p);
      assert e == 0 && l.fields[i].table == BoolTable;
      assert Values(mc)[i][e] == 0;
      assert BoolTable.variants[0].bits[0] == '0';
    }
  }

  /**
   * Round trip: decoding the fuses just written gives the record back, in
   * every layout, except that the buried layout has no ff_in_ibuf fuse.
   */
  lemma MacrocellRoundTrip(g: seq<bool>, v: McVariant, pl: Placement, mc: XC2Macrocell)
    requires Fits(v, pl) && |g| == Product(pl.shape)
    requires v == JedLargeBuried ==> !mc.ffInIbuf
    ensures DecodeMacrocell(EncodeMacrocell(g, v, pl, mc), v, pl) == Ok(mc)
  {
    LayoutOfPlaceable(v, pl);
    LayoutOfOk(v);
    ConstantsAgreeOf(v, mc);
    FragmentRoundTrip(g, LayoutOf(v), pl, Values(mc));
    ValuesRoundTrip(mc);
  }

  /** Every combination of a field's bits is a variant of its pattern. */
  lemma FieldDecodeTotal(i: nat, buf: seq<bool>)
    requires i < FieldCount && |buf| == BitsCount(FieldTable(i))
    ensures Decode(FieldTable(i), buf).Ok?
  {
    if i == 0 {
      ClkSrcDecodeTotal(buf);
    } else if i == 3 {
      assert multiset{"11", "00", "01", "10"} == multiset{"00", "01", "10", "11"};
      TwoBitDecodeTotal(ResetSrcTable, buf);
    } else if i == 4 {
      assert multiset{"11", "00", "01", "10"} == multiset{"00", "01", "10", "11"};
      TwoBitDecodeTotal(SetSrcTable, buf);
    } else if i == 6 {
      TwoBitDecodeTotal(RegModeTable, buf);
    } else if i == 7 {
      FeedbackModeDecodeTotal(buf);
    } else if i == 9 {
      assert multiset{"00", "11", "10", "01"} == multiset{"00", "01", "10", "11"};
      TwoBitDecodeTotal(XorModeTable, buf);
    } else {
      BoolDecodeAgrees(buf);
    }
  }

  /** Decode never fails: every grid holds some record in every layout. */
  lemma DecodeMacrocellTotal(g: seq<bool>, v: McVariant, pl: Placement)
    requires Fits(v, pl) && |g| == Product(pl.shape)
    ensures DecodeMacrocell(g, v, pl).Ok?
  {
    LayoutOfPlaceable(v, pl);
    var l := LayoutOf(v);
    forall i, e | 0 <= i < |l.fields| && 0 <= e < ElemCount(l, i) ensures ElemValue(g, l, pl, i, e).Ok? {
      FieldDecodeTotal(i, ReadBuffer(g, l, pl, i, e));
    }
    DecodeFieldsMeaning(g, l, pl);
  }

  /** A buried macrocell always decodes with ff_in_ibuf false, whatever the fuses hold. */
  lemma BuriedDecodeNoIbuf(g: seq<bool>, pl: Placement)
    requires Fits(JedLargeBuried, pl) && |g| == Product(pl.shape)
    ensures DecodeMacrocell(g, JedLargeBuried, pl).Ok?
    ensures !DecodeMacrocell(g, JedLargeBuried, pl).value.ffInIbuf
  {
    DecodeMacrocellTotal(g, JedLargeBuried, pl);
    BuriedIbufReadsFalse(g, pl);
    LayoutOfShape(JedLargeBuried);
    var l := LayoutOf(JedLargeBuried);
    DecodeFieldsMeaning(g, l, pl);
    assert Decoded(g, l, pl).value[8][0] == 0;
  }

  /** In the buried layout the element of ff_in_ibuf reads the constant and decodes to false. */
  lemma BuriedIbufReadsFalse(g: seq<bool>, pl: Placement)
    requires Fits(JedLargeBuried, pl) && |g| == Product(pl.shape)
    ensures LayoutOk(LayoutOf(JedLargeBuried)) && PlacementFits(LayoutOf(JedLargeBuried), pl)
    ensures Placeable(LayoutOf(JedLargeBuried), pl)
    ensures 0 < ElemCount(LayoutOf(JedLargeBuried), 8)
    ensures ElemValue(g, LayoutOf(JedLargeBuried), pl, 8, 0) == Ok(BoolIndex(false))
  {
    LayoutOfPlaceable(JedLargeBuried, pl);
    LayoutOfShape(JedLargeBuried);
    var l := LayoutOf(JedLargeBuried);
    FuseBit(JedLargeBuried, 8, 0);
    assert Cells(JedLargeBuried)[Slot(8, 0)] == -1;
    assert InfoAt(l, 8, 0) == PatBitInfo(false, Bool(false));
    var buf := ReadBuffer(g, l, pl, 8, 0);
    assert |buf| == 1 && buf[0] == false;
    BoolDecodeAgrees(buf);
  }

  /** In the buried layout the round trip holds exactly for the records with ff_in_ibuf false. */
  lemma BuriedRoundTripIff(g: seq<bool>, pl: Placement, mc: XC2Macrocell)
    requires Fits(JedLargeBuried, pl) && |g| == Product(pl.shape)
    ensures DecodeMacrocell(EncodeMacrocell(g, JedLargeBuried, pl, mc), JedLargeBuried, pl) == Ok(mc) <==> !mc.ffInIbuf
  {
    if mc.ffInIbuf {
      BuriedDecodeNoIbuf(EncodeMacrocell(g, JedLargeBuried, pl, mc), pl);
    } else {
      MacrocellRoundTrip(g, JedLargeBuried, pl, mc);
    }
  }

  /**
   * Encode writes bit p of field i's encoded pattern into the fuse of that
   * bit, complemented for the fields stored inverted.
   */
  lemma EncodeFuse(g: seq<bool>, v: McVariant, pl: Placement, mc: XC2Macrocell, i: nat, p: nat)
    requires Fits(v, pl) && |g| == Product(pl.shape)
    requires i < FieldCount && p < Arities[i] && 0 <= Cells(v)[Slot(i, p)]
    ensures Cells(v)[Slot(i, p)] < CellCount(v)
    ensures WellFormed(FieldTable(i)) && Values(mc)[i][0] < VariantCount(FieldTable(i)) && p < BitsCount(FieldTable(i))
    ensures EncodeMacrocell(g, v, pl, mc)[FuseIndex(v, pl, Cells(v)[Slot(i, p)])]
         == (Inverted(i) != Encode(FieldTable(i), Values(mc)[i][0])[p])
  {
    FuseBitCell(v, pl, i, p);
    FuseBit(v, i, p);
    LayoutOfPlaceable(v, pl);
    ValuesRoundTrip(mc);
    RecordValuesOk(v, Values(mc));
    FieldTablesOk();
    EncodeWritesBit(g, LayoutOf(v), pl, Values(mc), i, 0, p);
  }

  /** init_state and ff_in_ibuf are bool fields stored inverted: their one encoded bit, complemented, is the flag's complement. */
  lemma InvertedFlagBit(mc: XC2Macrocell, i: nat, b: bool)
    requires (i == 5 && b == mc.initState) || (i == 8 && b == mc.ffInIbuf)
    ensures WellFormed(FieldTable(i)) && Values(mc)[i][0] < VariantCount(FieldTable(i)) && 0 < BitsCount(FieldTable(i))
    ensures (Inverted(i) != Encode(FieldTable(i), Values(mc)[i][0])[0]) == !b
  {
    BoolTableWellFormed();
    assert FieldTable(i) == BoolTable && Inverted(i);
    assert Values(mc)[i][0] == BoolIndex(b);
    assert BoolEncode(b)[0] == b;
  }

  /** The init_state fuse holds the complement of the register's initial state, in every layout. */
  lemma InitStateFuseInverted(g: seq<bool>, v: McVariant, pl: Placement, mc: XC2Macrocell)
    requires Fits(v, pl) && |g| == Product(pl.shape)
    ensures 0 <= Cells(v)[Slot(5, 0)] < CellCount(v)
    ensures EncodeMacrocell(g, v, pl, mc)[FuseIndex(v, pl, Cells(v)[Slot(5, 0)])] == !mc.initState
  {
    CellAt(v, Slot(5, 0));
    EncodeFuse(g, v, pl, mc, 5, 0);
    InvertedFlagBit(mc, 5, mc.initState);
  }

  /** Where ff_in_ibuf has a fuse, it holds the complement of the flag. */
  lemma IbufFuseInverted(g: seq<bool>, v: McVariant, pl: Placement, mc: XC2Macrocell)
    requires Fits(v, pl) && |g| == Product(pl.shape) && v != JedLargeBuried
    ensures 0 <= Cells(v)[Slot(8, 0)] < CellCount(v)
    ensures EncodeMacrocell(g, v, pl, mc)[FuseIndex(v, pl, Cells(v)[Slot(8, 0)])] == !mc.ffInIbuf
  {
    CellAt(v, Slot(8, 0));
    EncodeFuse(g, v, pl, mc, 8, 0);
    InvertedFlagBit(mc, 8, mc.ffInIbuf);
  }

  /** The fuses of layout v at placement pl. */
  function FuseSet(v: McVariant, pl: Placement): set<nat>
    requires Fits(v, pl)
  {
    set a | 0 <= a < BitTotal && 0 <= Cells(v)[a] < CellCount(v) :: FuseIndex(v, pl, Cells(v)[a])
  }

  /** The cell of every fuse bit of the layout is one of its fuses. */
  lemma BitInFuseSet(v: McVariant, pl: Placement, i: nat, e: nat, p: nat)
    requires Fits(v, pl) && LayoutOk(LayoutOf(v)) && i < FieldCount
    requires e < ElemCount(LayoutOf(v), i) && p < BitCount(LayoutOf(v), i) && InfoAt(LayoutOf(v), i, p).pos.Loc?
    ensures InBounds(CoordOf(LayoutOf(v), pl, i, e, p), pl.shape)
    ensures Flatten(CoordOf(LayoutOf(v), pl, i, e, p), pl.shape) in FuseSet(v, pl)
  {
    FuseBit(v, i, p);
    FuseBitCell(v, pl, i, p);
    LayoutOfShape(v);
    assert e == 0;
    var a := Slot(i, p);
    assert FuseIndex(v, pl, Cells(v)[a]) in FuseSet(v, pl);
  }

  /** Encode changes nothing outside the layout's fuses. */
  lemma EncodeOnlyFuses(g: seq<bool>, v: McVariant, pl: Placement, mc: XC2Macrocell, c: nat)
    requires Fits(v, pl) && |g| == Product(pl.shape) && c < |g| && c !in FuseSet(v, pl)
    ensures EncodeMacrocell(g, v, pl, mc)[c] == g[c]
  {
    LayoutOfPlaceable(v, pl);
    ValuesRoundTrip(mc);
    RecordValuesOk(v, Values(mc));
    var l := LayoutOf(v);
    forall i, e, p | 0 <= i < |l.fields| && 0 <= e < ElemCount(l, i) && 0 <= p < BitCount(l, i) && InfoAt(l, i, p).pos.Loc?
      ensures CellIndex(pl.shape, CoordOf(l, pl, i, e, p)) != c
    {
      BitInFuseSet(v, pl, i, e, p);
    }
    EncodeFrame(g, l, pl, Values(mc), c);
  }

  /** Decode reads nothing but the layout's fuses: grids that agree on them decode alike. */
  lemma DecodeOnlyFuses(g1: seq<bool>, g2: seq<bool>, v: McVariant, pl: Placement)
    requires Fits(v, pl) && |g1| == |g2| == Product(pl.shape)
    requires forall c :: c in FuseSet(v, pl) ==> g1[c] == g2[c]
    ensures DecodeMacrocell(g1, v, pl) == DecodeMacrocell(g2, v, pl)
  {
    LayoutOfPlaceable(v, pl);
    var l := LayoutOf(v);
    forall i, e, p | 0 <= i < |l.fields| && 0 <= e < ElemCount(l, i) && 0 <= p < BitCount(l, i) && InfoAt(l, i, p).pos.Loc?
      ensures g1[Flatten(CoordOf(l, pl, i, e, p), pl.shape)] == g2[Flatten(CoordOf(l, pl, i, e, p), pl.shape)]
    {
      BitInFuseSet(v, pl, i, e, p);
    }
    DecodeLocal(g1, g2, l, pl);
  }

  // ---------------------------------------------------------------------
  // The JedLarge layout: dispatch on whether the macrocell is buried
  // ---------------------------------------------------------------------

  /** The layout JedLarge uses: the buried one when the extra data says so. */
  function JedLargeVariant(buried: bool): (v: McVariant)
    ensures v == JedLargeBuried || v == JedLargeUnburied
    ensures v == JedLargeBuried <==> buried
    ensures Dims(v) == 1
  {
    if buried then JedLargeBuried else JedLargeUnburied
  }

  /** The one-dimensional placement of JedLarge: the whole fuse array, one offset, one mirror flag. */
  function JedPlacement(n: nat, offset: int, mirror: bool): (pl: Placement)
    ensures Product(pl.shape) == n
  {
    assert [n][1..] == [];
    Placement([n], [offset], [mirror])
  }

  /** `encode` of JedLarge: the buried or the unburied layout's encode, chosen by `buried`. */
  method EncodeJedLarge(mc: XC2Macrocell, fuses: array<bool>, offset: int, mirror: bool, buried: bool)
    requires Fits(JedLargeVariant(buried), JedPlacement(fuses.Length, offset, mirror))
    modifies fuses
    ensures fuses[..] == EncodeMacrocell(old(fuses[..]), JedLargeVariant(buried), JedPlacement(fuses.Length, offset, mirror), mc)
  {
    var pl := JedPlacement(fuses.Length, offset, mirror);
    ValuesRoundTrip(mc);
    if buried {
      LayoutOfPlaceable(JedLargeBuried, pl);
      RecordValuesOk(JedLargeBuried, Values(mc));
      EncodeFragment(LayoutOf(JedLargeBuried), pl, Values(mc), fuses);
    } else {
      LayoutOfPlaceable(JedLargeUnburied, pl);
      RecordValuesOk(JedLargeUnburied, Values(mc));
      EncodeFragment(LayoutOf(JedLargeUnburied), pl, Values(mc), fuses);
    }
  }

  /** `decode` of JedLarge: the buried or the unburied layout's decode, chosen by `buried`. */
  method DecodeJedLarge(fuses: array<bool>, offset: int, mirror: bool, buried: bool) returns (r: Result<XC2Macrocell, DecodeError>)
    requires Fits(JedLargeVariant(buried), JedPlacement(fuses.Length, offset, mirror))
    ensures r == DecodeMacrocell(fuses[..], JedLargeVariant(buried), JedPlacement(fuses.Length, offset, mirror))
  {
    var pl := JedPlacement(fuses.Length, offset, mirror);
    var v := if buried then JedLargeBuried else JedLargeUnburied;
    LayoutOfPlaceable(v, pl);
    var d := DecodeFragment(LayoutOf(v), pl, fuses);
    match d {
      case Err(err) =>
        r := Err(err);
      case Ok(vs) =>
        DecodedIsValue(fuses[..], LayoutOf(v), pl);
        RecordValuesOk(v, vs);
        r := Ok(FromValues(vs));
    }
  }

  /**
   * JedLarge round trip with the same extra data on both sides: it holds
   * for every unburied macrocell, and for a buried one exactly when
   * ff_in_ibuf is false.
   */
  lemma JedLargeRoundTrip(g: seq<bool>, offset: int, mirror: bool, buried: bool, mc: XC2Macrocell)
    requires Fits(JedLargeVariant(buried), JedPlacement(|g|, offset, mirror))
    ensures DecodeMacrocell(EncodeMacrocell(g, JedLargeVariant(buried), JedPlacement(|g|, offset, mirror), mc),
                            JedLargeVariant(buried), JedPlacement(|g|, offset, mirror)) == Ok(mc)
        <==> !(buried && mc.ffInIbuf)
  {
    var pl := JedPlacement(|g|, offset, mirror);
    if buried {
      BuriedRoundTripIff(g, pl, mc);
    } else {
      MacrocellRoundTrip(g, JedLargeUnburied, pl, mc);
    }
  }

  // ---------------------------------------------------------------------
  // The default configuration
  // ---------------------------------------------------------------------

  /**
   * `Default` of the record: clocked by GCK0 on the rising edge, single data
   * rate, no set or reset, initial state 1, a D flip-flop, no feedback, the
   * register fed from the XOR gate, and the XOR's other input constant 0.
   */
  function Default(): XC2Macrocell
  {
    XC2Macrocell(GCK0, false, false, XC2MCRegResetSrc.Disabled, XC2MCRegSetSrc.Disabled, true, DFF,
      XC2MCFeedbackMode.Disabled, false, ZERO)
  }

  /** The default configuration survives encode and decode in every layout, the buried one included. */
  lemma DefaultRoundTrip(g: seq<bool>, v: McVariant, pl: Placement)
    requires Fits(v, pl) && |g| == Product(pl.shape)
    ensures DecodeMacrocell(EncodeMacrocell(g, v, pl, Default()), v, pl) == Ok(Default())
  {
    MacrocellRoundTrip(g, v, pl, Default());
  }

  /** The default configuration writes 0 into the init_state fuse, the complement of its initial state 1. */
  lemma DefaultInitStateFuse(g: seq<bool>, v: McVariant, pl: Placement)
    requires Fits(v, pl) && |g| == Product(pl.shape)
    ensures 0 <= Cells(v)[Slot(5, 0)] < CellCount(v)
    ensures !EncodeMacrocell(g, v, pl, Default())[FuseIndex(v, pl, Cells(v)[Slot(5, 0)])]
  {
    InitStateFuseInverted(g, v, pl, Default());
  }
}
