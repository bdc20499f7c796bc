/**
 * The crate's own examples as fixed vectors: `MyEnum`, a two-bit pattern
 * placed as a one-dimensional fragment, and `MyStruct1`, a struct of two
 * pattern arrays.  Each lemma states the grids and values the examples
 * expect, for the model's encode and decode.
 */
module GoldenVectors {
  import opened BitPattern
  import opened Schema
  import opened Coordinates
  import opened Fragment

  /** `MyEnum`: Choice1..Choice4 are "00", "01", "10", "11". */
  const MyEnumTable := PatternTable(["0", "1"], [
    Variant("Choice1", "", "00"), Variant("Choice2", "", "01"),
    Variant("Choice3", "", "10"), Variant("Choice4", "", "11")])

  /** `#[pat_bits("0" = 1, "1" = 2)]`. */
  const MyEnumBits := map["0" := PatBitInfo(false, Loc([1])), "1" := PatBitInfo(false, Loc([2]))]

  /** `#[bitfragment(dimensions = 1)]` on `MyEnum` itself: one pattern field. */
  const MyEnumLayout := Layout(1, [FieldLayout("MyEnum", MyEnumTable, MyEnumBits, None)])

  lemma MyEnumTableOk()
    ensures WellFormed(MyEnumTable) && Unambiguous(MyEnumTable)
  {
    var vs := MyEnumTable.variants;
    assert vs[0].bits == "00" && vs[1].bits == "01" && vs[2].bits == "10" && vs[3].bits == "11";
    assert vs[0].bits[1] != vs[1].bits[1];
    assert vs[2].bits[0] != vs[1].bits[0];
    assert vs[3].bits[0] != vs[1].bits[0];
    assert vs[2].bits[1] != vs[3].bits[1];
    ExactTableUnambiguous(MyEnumTable);
  }

  lemma MyEnumLayoutOk()
    ensures LayoutOk(MyEnumLayout) && TablesUnambiguous(MyEnumLayout)
  {
    MyEnumTableOk();
  }

  /** A one-dimensional placement: a grid of n cells, offset o, mirrored or not. */
  function Place1(n: nat, o: int, m: bool): (pl: Placement)
    ensures PlacementFits(MyEnumLayout, pl)
  {
    Placement([n], [o], [m])
  }

  /** Grid index of local position x of a 1-D placement. */
  function Cell1(o: int, m: bool, x: int): int
  {
    o + Sign(m) * x
  }

  /** Where MyEnum's two bits land at a 1-D placement. */
  lemma MyEnumCoords(n: nat, o: int, m: bool)
    ensures LayoutOk(MyEnumLayout)
    ensures InfoAt(MyEnumLayout, 0, 0) == PatBitInfo(false, Loc([1]))
    ensures InfoAt(MyEnumLayout, 0, 1) == PatBitInfo(false, Loc([2]))
    ensures CoordOf(MyEnumLayout, Place1(n, o, m), 0, 0, 0) == [Cell1(o, m, 1)]
    ensures CoordOf(MyEnumLayout, Place1(n, o, m), 0, 0, 1) == [Cell1(o, m, 2)]
  {
    MyEnumLayoutOk();
    assert Deltas(MyEnumLayout.fields[0], 1)[0] == [0];
  }

  /** The placement is valid and the two writes go to cells o + s and o + 2s. */
  lemma MyEnumTargets(n: nat, o: int, m: bool)
    requires 0 <= Cell1(o, m, 1) < n && 0 <= Cell1(o, m, 2) < n
    ensures LayoutOk(MyEnumLayout) && Placeable(MyEnumLayout, Place1(n, o, m)) && DisjointCells(MyEnumLayout, Place1(n, o, m))
    ensures Targets(MyEnumLayout, Place1(n, o, m)) == [Target(0, 0, 0, Cell1(o, m, 1), false), Target(0, 0, 1, Cell1(o, m, 2), false)]
    ensures Product([n]) == n
  {
    var l, pl := MyEnumLayout, Place1(n, o, m);
    MyEnumCoords(n, o, m);
    var t1, t2 := Target(0, 0, 0, Cell1(o, m, 1), false), Target(0, 0, 1, Cell1(o, m, 2), false);
    assert TargetAt(l, pl, 0, 0, 0) == t1 by { Flatten1(Cell1(o, m, 1), n); }
    assert TargetAt(l, pl, 0, 0, 1) == t2 by { Flatten1(Cell1(o, m, 2), n); }
    assert PosTargets(l, pl, 0, 0, 1) == [t1];
    assert PosTargets(l, pl, 0, 0, 2) == [t1, t2];
    assert BitCount(l, 0) == 2 && ElemCount(l, 0) == 1;
    assert ElemTargets(l, pl, 0, 1) == [t1, t2] by {
      assert ElemTargets(l, pl, 0, 0) == [];
    }
    assert Targets(l, pl) == [t1, t2] by {
      assert FieldTargets(l, pl, 0) == [];
      assert FieldTargets(l, pl, 1) == ElemTargets(l, pl, 0, 1);
    }
    assert Placeable(l, pl) by {
      forall i, e, p | 0 <= i < |l.fields| && 0 <= e < ElemCount(l, i) && 0 <= p < BitCount(l, i) && InfoAt(l, i, p).pos.Loc?
        ensures InBounds(CoordOf(l, pl, i, e, p), pl.shape)
      {
        assert i == 0 && e == 0 && p < 2;
        Flatten1(Cell1(o, m, p + 1), n);
      }
    }
    assert DisjointCells(l, pl) by {
      var ts := Targets(l, pl);
      forall j, k | 0 <= j < k < |ts| ensures ts[j].cell != ts[k].cell {
        assert j == 0 && k == 1;
      }
    }
    Flatten1(Cell1(o, m, 1), n);
  }

  /** Encoding variant k writes its two bits, and nothing else changes. */
  lemma MyEnumEncoded(g: seq<bool>, n: nat, o: int, m: bool, k: nat)
    requires 0 <= Cell1(o, m, 1) < n && 0 <= Cell1(o, m, 2) < n && |g| == n && k < 4
    ensures LayoutOk(MyEnumLayout) && ValuesOk(MyEnumLayout, [[k]])
    ensures Encoded(g, MyEnumLayout, Place1(n, o, m), [[k]])
         == g[Cell1(o, m, 1) := MyEnumTable.variants[k].bits[0] == '1'][Cell1(o, m, 2) := MyEnumTable.variants[k].bits[1] == '1']
  {
    MyEnumWrites(n, o, m, k);
    ApplyTwoWrites(g, Write(Cell1(o, m, 1), MyEnumTable.variants[k].bits[0] == '1'), Write(Cell1(o, m, 2), MyEnumTable.variants[k].bits[1] == '1'));
  }

  /** Encoding variant k writes bit 0 of its pattern, then bit 1, to their cells. */
  lemma MyEnumWrites(n: nat, o: int, m: bool, k: nat)
    requires 0 <= Cell1(o, m, 1) < n && 0 <= Cell1(o, m, 2) < n && k < 4
    ensures LayoutOk(MyEnumLayout) && ValuesOk(MyEnumLayout, [[k]])
    ensures TargetsInRange(MyEnumLayout, Targets(MyEnumLayout, Place1(n, o, m)))
    ensures Writes(MyEnumLayout, [[k]], Targets(MyEnumLayout, Place1(n, o, m)))
         == [Write(Cell1(o, m, 1), MyEnumTable.variants[k].bits[0] == '1'), Write(Cell1(o, m, 2), MyEnumTable.variants[k].bits[1] == '1')]
  {
    MyEnumTargets(n, o, m);
    MyEnumTableOk();
    var v1, v2 := MyEnumTable.variants[k].bits[0] == '1', MyEnumTable.variants[k].bits[1] == '1';
    assert Encode(MyEnumTable, k)[0] == v1 && Encode(MyEnumTable, k)[1] == v2;
  }

  /** Two writes inside the grid, performed in order. */
  lemma ApplyTwoWrites(g: seq<bool>, w1: Write, w2: Write)
    requires w1.cell < |g| && w2.cell < |g|
    ensures ApplyWrites(g, [w1, w2]) == g[w1.cell := w1.value][w2.cell := w2.value]
  {
    assert [w1][..0] == [];
    assert ApplyWrites(g, [w1]) == g[w1.cell := w1.value];
    assert [w1, w2][..1] == [w1];
  }

  /** A grid whose two cells hold variant k's bits reads back variant k. */
  lemma MyEnumElem(g: seq<bool>, n: nat, o: int, m: bool, k: nat)
    requires 0 <= Cell1(o, m, 1) < n && 0 <= Cell1(o, m, 2) < n && |g| == n && k < 4
    requires g[Cell1(o, m, 1)] == (MyEnumTable.variants[k].bits[0] == '1')
    requires g[Cell1(o, m, 2)] == (MyEnumTable.variants[k].bits[1] == '1')
    ensures LayoutOk(MyEnumLayout) && Placeable(MyEnumLayout, Place1(n, o, m)) && Product([n]) == n
    ensures ElemValue(g, MyEnumLayout, Place1(n, o, m), 0, 0) == Ok(k)
  {
    MyEnumTargets(n, o, m);
    MyEnumCoords(n, o, m);
    MyEnumTableOk();
    Flatten1(Cell1(o, m, 1), n);
    Flatten1(Cell1(o, m, 2), n);
    var buf := ReadBuffer(g, MyEnumLayout, Place1(n, o, m), 0, 0);
    assert buf == [g[Cell1(o, m, 1)], g[Cell1(o, m, 2)]];
    assert Matches(MyEnumTable.variants[k].bits, buf);
    DecodeUniqueMatch(MyEnumTable, buf, k);
  }

  /** A grid whose two cells hold variant k's bits decodes to k. */
  lemma MyEnumDecoded(g: seq<bool>, n: nat, o: int, m: bool, k: nat)
    requires 0 <= Cell1(o, m, 1) < n && 0 <= Cell1(o, m, 2) < n && |g| == n && k < 4
    requires g[Cell1(o, m, 1)] == (MyEnumTable.variants[k].bits[0] == '1')
    requires g[Cell1(o, m, 2)] == (MyEnumTable.variants[k].bits[1] == '1')
    ensures LayoutOk(MyEnumLayout) && Placeable(MyEnumLayout, Place1(n, o, m)) && Product([n]) == n
    ensures Decoded(g, MyEnumLayout, Place1(n, o, m)) == Ok([[k]])
  {
    MyEnumElem(g, n, o, m, k);
    var l, pl := MyEnumLayout, Place1(n, o, m);
    assert ElemCount(l, 0) == 1;
    var rs := ElemResults(g, l, pl, 0);
    assert rs == [Ok(k)] && rs[..0] == [] && [] + [k] == [k];
    assert Collect(rs[..0]) == Ok([]);
    assert Collect(rs) == Ok([k]);
    assert DecodeElems(g, l, pl, 0) == Ok([k]);
    var fs := FieldResults(g, l, pl);
    assert fs == [Ok([k])] && fs[..0] == [] && [] + [[k]] == [[k]];
    assert Collect(fs[..0]) == Ok([]);
  }

  /** basic_bitfragment_enum_encode, in place at offset 0, the grid reused. */
  lemma MyEnumEncodePlain()
    ensures ValuesOk(MyEnumLayout, [[1]]) && ValuesOk(MyEnumLayout, [[2]])
    ensures Encoded([false, false, false], MyEnumLayout, Place1(3, 0, false), [[1]]) == [false, false, true]
    ensures Encoded([false, false, true], MyEnumLayout, Place1(3, 0, false), [[2]]) == [false, true, false]
  {
    MyEnumEncoded([false, false, false], 3, 0, false, 1);
    MyEnumEncoded([false, false, true], 3, 0, false, 2);
  }

  /** basic_bitfragment_enum_encode at offset 1 in a grid of five set cells. */
  lemma MyEnumEncodeOffset()
    ensures ValuesOk(MyEnumLayout, [[1]]) && ValuesOk(MyEnumLayout, [[2]])
    ensures Encoded([true, true, true, true, true], MyEnumLayout, Place1(5, 1, false), [[1]]) == [true, true, false, true, true]
    ensures Encoded([true, true, false, true, true], MyEnumLayout, Place1(5, 1, false), [[2]]) == [true, true, true, false, true]
  {
    MyEnumEncoded([true, true, true, true, true], 5, 1, false, 1);
    MyEnumEncoded([true, true, false, true, true], 5, 1, false, 2);
  }

  /** basic_bitfragment_enum_encode mirrored: bit "0" lands left of the offset. */
  lemma MyEnumEncodeMirrored()
    ensures ValuesOk(MyEnumLayout, [[1]]) && ValuesOk(MyEnumLayout, [[2]])
    ensures Encoded([false, false, false], MyEnumLayout, Place1(3, 2, true), [[1]]) == [true, false, false]
    ensures Encoded([true, true, true, true, true], MyEnumLayout, Place1(5, 3, true), [[2]]) == [true, false, true, true, true]
  {
    assert MyEnumTable.variants[1].bits == "01" && MyEnumTable.variants[2].bits == "10";
    MyEnumEncoded([false, false, false], 3, 2, true, 1);
    assert Cell1(2, true, 1) == 1 && Cell1(2, true, 2) == 0;
    assert [false, false, false][1 := false][0 := true] == [true, false, false];
    MyEnumEncoded([true, true, true, true, true], 5, 3, true, 2);
    assert Cell1(3, true, 1) == 2 && Cell1(3, true, 2) == 1;
    assert [true, true, true, true, true][2 := true][1 := false] == [true, false, true, true, true];
  }

  /** basic_bitfragment_enum_decode at offset 0. */
  lemma MyEnumDecodePlain()
    ensures LayoutOk(MyEnumLayout) && Placeable(MyEnumLayout, Place1(3, 0, false)) && Product([3]) == 3
    ensures Decoded([true, false, false], MyEnumLayout, Place1(3, 0, false)) == Ok([[0]])
    ensures Decoded([false, true, true], MyEnumLayout, Place1(3, 0, false)) == Ok([[3]])
  {
    MyEnumDecoded([true, false, false], 3, 0, false, 0);
    MyEnumDecoded([false, true, true], 3, 0, false, 3);
  }

  /** basic_bitfragment_enum_decode at offset 3 in a grid of six cells. */
  lemma MyEnumDecodeOffset()
    ensures LayoutOk(MyEnumLayout) && Placeable(MyEnumLayout, Place1(6, 3, false)) && Product([6]) == 6
    ensures Decoded([false, false, false, true, false, false], MyEnumLayout, Place1(6, 3, false)) == Ok([[0]])
    ensures Decoded([true, true, true, false, true, true], MyEnumLayout, Place1(6, 3, false)) == Ok([[3]])
  {
    MyEnumDecoded([false, false, false, true, false, false], 6, 3, false, 0);
    MyEnumDecoded([true, true, true, false, true, true], 6, 3, false, 3);
  }

  /** basic_bitfragment_enum_decode mirrored: bit "0" is read left of the offset. */
  lemma MyEnumDecodeMirrored()
    ensures LayoutOk(MyEnumLayout)
    ensures Placeable(MyEnumLayout, Place1(3, 2, true)) && Placeable(MyEnumLayout, Place1(6, 5, true))
    ensures Product([3]) == 3 && Product([6]) == 6
    ensures Decoded([true, false, false], MyEnumLayout, Place1(3, 2, true)) == Ok([[1]])
    ensures Decoded([true, true, true, false, true, true], MyEnumLayout, Place1(6, 5, true)) == Ok([[2]])
  {
    assert MyEnumTable.variants[1].bits == "01" && MyEnumTable.variants[2].bits == "10";
    assert Cell1(2, true, 1) == 1 && Cell1(2, true, 2) == 0;
    MyEnumDecoded([true, false, false], 3, 2, true, 1);
    assert Cell1(5, true, 1) == 4 && Cell1(5, true, 2) == 3;
    MyEnumDecoded([true, true, true, false, true, true], 6, 5, true, 2);
  }

  // ---------------------------------------------------------------------
  // MyStruct1: two pattern arrays in one fragment
  // ---------------------------------------------------------------------

  /**
   * `field_enum: [[[MyEnum; 2]; 1]; 3]` with `#[arr_off(|i| [i * 2])]`, six
   * elements in row-major order, and `field_bool: [bool; 1]` at bit 0.
   */
  const MyStruct1Layout := Layout(1, [
    FieldLayout("field_enum", MyEnumTable, MyEnumBits, Some([[0], [2], [4], [6], [8], [10]])),
    FieldLayout("field_bool", BoolTable, map["0" := PatBitInfo(false, Loc([0]))], Some([[0]]))])

  /** The two placements of the tests: 13 cells, at offset 0, or mirrored at offset 12. */
  function Struct1Place(m: bool): (pl: Placement)
    ensures pl == Place1(13, if m then 12 else 0, m)
  {
    Place1(13, if m then 12 else 0, m)
  }

  /** The cell of local position x at the placement: x, or 12 - x when mirrored. */
  function Cell13(m: bool, x: int): int
  {
    if m then 12 - x else x
  }

  /** Both fields of MyStruct1 are well formed and their tables unambiguous. */
  lemma MyStruct1Ok()
    ensures LayoutOk(MyStruct1Layout) && TablesUnambiguous(MyStruct1Layout)
  {
    var l := MyStruct1Layout;
    assert FieldOk(l.fields[0], 1) by {
      MyEnumTableOk();
      assert Deltas(l.fields[0], 1) == [[0], [2], [4], [6], [8], [10]];
    }
    assert FieldOk(l.fields[1], 1) by {
      BoolTableWellFormed();
      assert Deltas(l.fields[1], 1) == [[0]];
    }
    assert Unambiguous(l.fields[0].table) by {
      MyEnumTableOk();
    }
    assert Unambiguous(l.fields[1].table) by {
      BoolTableWellFormed();
    }
  }

  /** field_enum has six two-bit elements, field_bool one one-bit element. */
  lemma MyStruct1Counts()
    ensures LayoutOk(MyStruct1Layout)
    ensures ElemCount(MyStruct1Layout, 0) == 6 && ElemCount(MyStruct1Layout, 1) == 1
    ensures BitCount(MyStruct1Layout, 0) == 2 && BitCount(MyStruct1Layout, 1) == 1
    ensures InfoAt(MyStruct1Layout, 0, 0) == PatBitInfo(false, Loc([1]))
    ensures InfoAt(MyStruct1Layout, 0, 1) == PatBitInfo(false, Loc([2]))
    ensures InfoAt(MyStruct1Layout, 1, 0) == PatBitInfo(false, Loc([0]))
  {
    MyStruct1Ok();
    BoolTableWellFormed();
  }

  /** Bit p of field_enum element e sits at local position 2e+1+p, field_bool at 0. */
  lemma MyStruct1Locals()
    ensures LayoutOk(MyStruct1Layout)
    ensures ElemCount(MyStruct1Layout, 0) == 6 && ElemCount(MyStruct1Layout, 1) == 1
    ensures BitCount(MyStruct1Layout, 0) == 2 && BitCount(MyStruct1Layout, 1) == 1
    ensures forall e, p :: 0 <= e < 6 && 0 <= p < 2 ==>
      InfoAt(MyStruct1Layout, 0, p).pos.Loc? && LocalPos(MyStruct1Layout, 0, e, p) == [2 * e + 1 + p]
    ensures InfoAt(MyStruct1Layout, 1, 0).pos.Loc? && LocalPos(MyStruct1Layout, 1, 0, 0) == [0]
  {
    MyStruct1Counts();
    var l := MyStruct1Layout;
    forall e, p | 0 <= e < 6 && 0 <= p < 2 ensures LocalPos(l, 0, e, p) == [2 * e + 1 + p] {
      MyStruct1EnumLocal(e, p);
    }
    assert Deltas(l.fields[1], 1)[0] == [0];
  }

  /** Bit p of field_enum element e sits at local position 2e+1+p. */
  lemma MyStruct1EnumLocal(e: nat, p: nat)
    requires e < 6 && p < 2
    ensures LayoutOk(MyStruct1Layout) && ElemCount(MyStruct1Layout, 0) == 6 && BitCount(MyStruct1Layout, 0) == 2
    ensures InfoAt(MyStruct1Layout, 0, p).pos.Loc? && LocalPos(MyStruct1Layout, 0, e, p) == [2 * e + 1 + p]
  {
    MyStruct1Counts();
    var l := MyStruct1Layout;
    assert Deltas(l.fields[0], 1)[e] == [2 * e];
    assert InfoAt(l, 0, p).pos.coords == [1 + p];
  }

  /** Every bit of MyStruct1 is located, so no constant can disagree with a value. */
  lemma MyStruct1NoConstants(vals: seq<seq<nat>>)
    requires ValuesOk(MyStruct1Layout, vals)
    ensures LayoutOk(MyStruct1Layout) && ConstantsAgree(MyStruct1Layout, vals)
  {
    MyStruct1Counts();
    var l := MyStruct1Layout;
    forall i, p | 0 <= i < |l.fields| && 0 <= p < BitCount(l, i)
      ensures InfoAt(l, i, p).pos.Loc?
    {
      if i == 0 {
        assert p == 0 || p == 1;
      }
    }
  }

  lemma MyStruct1Injective()
    ensures LayoutOk(MyStruct1Layout) && LocalInjective(MyStruct1Layout)
  {
    MyStruct1Locals();
    var l := MyStruct1Layout;
    forall i, e, p, i2, e2, p2 |
      && 0 <= i < |l.fields| && 0 <= e < ElemCount(l, i) && 0 <= p < BitCount(l, i) && InfoAt(l, i, p).pos.Loc?
      && 0 <= i2 < |l.fields| && 0 <= e2 < ElemCount(l, i2) && 0 <= p2 < BitCount(l, i2) && InfoAt(l, i2, p2).pos.Loc?
      && LocalPos(l, i, e, p) == LocalPos(l, i2, e2, p2)
      ensures i == i2 && e == e2 && p == p2
    {
      var x := if i == 0 then 2 * e + 1 + p else 0;
      var x2 := if i2 == 0 then 2 * e2 + 1 + p2 else 0;
      assert LocalPos(l, i, e, p) == [x] && LocalPos(l, i2, e2, p2) == [x2];
      assert x == x2 by {
        assert [x][0] == [x2][0];
      }
    }
  }

  /** A local position resolves to its cell at either test placement. */
  lemma Struct1Coord(m: bool, x: int)
    ensures Resolve(Struct1Place(m).offset, Struct1Place(m).mirror, [x]) == [Cell13(m, x)]
  {
  }

  /** A bit at local position x lands on cell Cell13(m, x). */
  lemma Struct1CoordOf(m: bool, i: nat, e: nat, p: nat, x: int)
    requires LayoutOk(MyStruct1Layout) && i < 2 && e < ElemCount(MyStruct1Layout, i) && p < BitCount(MyStruct1Layout, i)
    requires InfoAt(MyStruct1Layout, i, p).pos.Loc? && LocalPos(MyStruct1Layout, i, e, p) == [x]
    ensures CoordOf(MyStruct1Layout, Struct1Place(m), i, e, p) == [Cell13(m, x)]
  {
    Struct1Coord(m, x);
  }

  /**
   * Element e of field_enum is MyEnum placed at cell Cell13(m, 2e), the
   * resolved array offset; its bit p then lands 1 + p further along, which
   * under mirroring means towards cell 0.
   */
  lemma Struct1ElementPlacement(m: bool, e: nat, p: nat)
    requires e < 6 && p < 2
    ensures LayoutOk(MyStruct1Layout) && e < ElemCount(MyStruct1Layout, 0) && p < BitCount(MyStruct1Layout, 0)
    ensures InfoAt(MyStruct1Layout, 0, p).pos.Loc?
    ensures Resolve(Struct1Place(m).offset, Struct1Place(m).mirror, Deltas(MyStruct1Layout.fields[0], 1)[e]) == [Cell13(m, 2 * e)]
    ensures CoordOf(MyStruct1Layout, Struct1Place(m), 0, e, p) == [Cell13(m, 2 * e) + Sign(m) * (1 + p)]
  {
    var l, pl := MyStruct1Layout, Struct1Place(m);
    MyStruct1EnumLocal(e, p);
    assert Deltas(l.fields[0], 1)[e] == [2 * e];
    assert InfoAt(l, 0, p).pos.coords == [1 + p];
    CoordOfElement(l, pl, 0, e, p);
  }

  /** Both test placements put every bit inside the 13 cells, each bit on its own cell. */
  lemma MyStruct1Placeable(m: bool)
    ensures LayoutOk(MyStruct1Layout) && PlacementFits(MyStruct1Layout, Struct1Place(m))
    ensures Placeable(MyStruct1Layout, Struct1Place(m)) && DisjointCells(MyStruct1Layout, Struct1Place(m))
    ensures Product([13]) == 13
  {
    var l, pl := MyStruct1Layout, Struct1Place(m);
    MyStruct1Locals();
    forall i, e, p | 0 <= i < |l.fields| && 0 <= e < ElemCount(l, i) && 0 <= p < BitCount(l, i) && InfoAt(l, i, p).pos.Loc?
      ensures InBounds(CoordOf(l, pl, i, e, p), pl.shape)
    {
      var x := LocalPos(l, i, e, p)[0];
      assert LocalPos(l, i, e, p) == [x] && 0 <= x < 13;
      Struct1Coord(m, x);
    }
    MyStruct1Injective();
    DisjointFromLocal(l, pl);
    Flatten1(0, 13);
  }

  /**
   * The bit a MyStruct1 value puts at local position x: position 0 holds
   * field_bool, position 2e+1+p holds bit p of element e of field_enum.
   */
  function Struct1Bit(vals: seq<seq<nat>>, x: int): bool
    requires ValuesOk(MyStruct1Layout, vals) && 0 <= x < 13
  {
    if x == 0 then vals[1][0] == 1
    else MyEnumTable.variants[vals[0][(x - 1) / 2]].bits[(x - 1) % 2] == '1'
  }

  /** The grid a MyStruct1 value encodes to at a test placement. */
  function Struct1Grid(vals: seq<seq<nat>>, m: bool): (g: seq<bool>)
    requires ValuesOk(MyStruct1Layout, vals)
    ensures |g| == 13
  {
    seq(13, c requires 0 <= c < 13 => Struct1Bit(vals, Cell13(m, c)))
  }

  /** Bit p of field_enum element e is written to the cell of local position 2e+1+p. */
  lemma Struct1EnumWritten(g: seq<bool>, m: bool, vals: seq<seq<nat>>, e: nat, p: nat)
    requires |g| == 13 && ValuesOk(MyStruct1Layout, vals) && e < 6 && p < 2
    ensures LayoutOk(MyStruct1Layout) && WellFormed(MyEnumTable) && vals[0][e] < 4
    ensures Encoded(g, MyStruct1Layout, Struct1Place(m), vals)[Cell13(m, 2 * e + 1 + p)] == Encode(MyEnumTable, vals[0][e])[p]
  {
    var l, pl := MyStruct1Layout, Struct1Place(m);
    MyStruct1Placeable(m);
    MyStruct1EnumLocal(e, p);
    var c := Cell13(m, 2 * e + 1 + p);
    Flatten1(c, 13);
    Struct1CoordOf(m, 0, e, p, 2 * e + 1 + p);
    EncodeWritesBit(g, l, pl, vals, 0, e, p);
    assert l.fields[0].table == MyEnumTable;
    assert InfoAt(l, 0, p).invert == false;
  }

  /** Bit p of field_enum element e lands at local position 2e+1+p. */
  lemma Struct1EnumCell(g: seq<bool>, m: bool, vals: seq<seq<nat>>, e: nat, p: nat)
    requires |g| == 13 && ValuesOk(MyStruct1Layout, vals) && e < 6 && p < 2
    ensures LayoutOk(MyStruct1Layout)
    ensures Encoded(g, MyStruct1Layout, Struct1Place(m), vals)[Cell13(m, 2 * e + 1 + p)]
         == (MyEnumTable.variants[vals[0][e]].bits[p] == '1')
  {
    Struct1EnumWritten(g, m, vals, e, p);
  }

  /** field_bool lands at local position 0. */
  lemma Struct1BoolCell(g: seq<bool>, m: bool, vals: seq<seq<nat>>)
    requires |g| == 13 && ValuesOk(MyStruct1Layout, vals)
    ensures LayoutOk(MyStruct1Layout)
    ensures Encoded(g, MyStruct1Layout, Struct1Place(m), vals)[Cell13(m, 0)] == (vals[1][0] == 1)
  {
    var l, pl := MyStruct1Layout, Struct1Place(m);
    MyStruct1Placeable(m);
    MyStruct1Locals();
    BoolTableWellFormed();
    Flatten1(Cell13(m, 0), 13);
    Struct1CoordOf(m, 1, 0, 0, 0);
    EncodeWritesBit(g, l, pl, vals, 1, 0, 0);
    assert InfoAt(l, 1, 0).invert == false;
    assert Encode(BoolTable, vals[1][0])[0] == (vals[1][0] == 1);
  }

  /** Every cell holds the bit of its local position. */
  lemma Struct1CellAt(g: seq<bool>, m: bool, vals: seq<seq<nat>>, c: int)
    requires |g| == 13 && ValuesOk(MyStruct1Layout, vals) && 0 <= c < 13
    ensures LayoutOk(MyStruct1Layout)
    ensures Encoded(g, MyStruct1Layout, Struct1Place(m), vals)[c] == Struct1Bit(vals, Cell13(m, c))
  {
    var x := Cell13(m, c);
    assert c == Cell13(m, x);
    if x == 0 {
      Struct1BoolCell(g, m, vals);
    } else {
      var e, p := (x - 1) / 2, (x - 1) % 2;
      assert 2 * e + 1 + p == x;
      Struct1EnumCell(g, m, vals, e, p);
    }
  }

  /**
   * The located bits cover all 13 cells, so encoding overwrites the whole
   * grid: the result is Struct1Grid whatever the grid held before.
   */
  lemma MyStruct1Encoding(g: seq<bool>, m: bool, vals: seq<seq<nat>>)
    requires |g| == 13 && ValuesOk(MyStruct1Layout, vals)
    ensures LayoutOk(MyStruct1Layout)
    ensures Encoded(g, MyStruct1Layout, Struct1Place(m), vals) == Struct1Grid(vals, m)
  {
    Struct1CellAt(g, m, vals, 0);
    forall c | 0 <= c < 13
      ensures Encoded(g, MyStruct1Layout, Struct1Place(m), vals)[c] == Struct1Grid(vals, m)[c]
    {
      Struct1CellAt(g, m, vals, c);
    }
  }

  /** The bit strings of MyEnum's four variants. */
  lemma MyEnumBitsAre()
    ensures MyEnumTable.variants[0].bits == "00" && MyEnumTable.variants[1].bits == "01"
    ensures MyEnumTable.variants[2].bits == "10" && MyEnumTable.variants[3].bits == "11"
  {
  }

  /** Any MyStruct1 value decodes back from its grid at either test placement. */
  lemma MyStruct1RoundTrip(m: bool, vals: seq<seq<nat>>)
    requires ValuesOk(MyStruct1Layout, vals)
    ensures LayoutOk(MyStruct1Layout) && Placeable(MyStruct1Layout, Struct1Place(m)) && Product([13]) == 13
    ensures Decoded(Struct1Grid(vals, m), MyStruct1Layout, Struct1Place(m)) == Ok(vals)
  {
    var g, l, pl := Struct1Grid(vals, m), MyStruct1Layout, Struct1Place(m);
    MyStruct1Placeable(m);
    MyStruct1Ok();
    MyStruct1NoConstants(vals);
    MyStruct1Encoding(g, m, vals);
    FragmentRoundTrip(g, l, pl, vals);
  }

  /** pattern_array_encode, first value: Choice1, Choice2, Choice3, Choice4, Choice1, Choice4; true. */
  const Struct1A: seq<seq<nat>> := [[0, 1, 2, 3, 0, 3], [1]]

  /** pattern_array_encode, second value: Choice2, Choice3, Choice4, Choice1, Choice1, Choice3; true. */
  const Struct1B: seq<seq<nat>> := [[1, 2, 3, 0, 0, 2], [1]]

  lemma Struct1GridAPlain()
    ensures ValuesOk(MyStruct1Layout, Struct1A)
    ensures Struct1Grid(Struct1A, false)
      == [true, false, false, false, true, true, false, true, true, false, false, true, true]
  {
    MyEnumBitsAre();
  }

  lemma Struct1GridAMirrored()
    ensures ValuesOk(MyStruct1Layout, Struct1A)
    ensures Struct1Grid(Struct1A, true)
      == [true, true, false, false, true, true, false, true, true, false, false, false, true]
  {
    MyEnumBitsAre();
  }

  lemma Struct1GridBPlain()
    ensures ValuesOk(MyStruct1Layout, Struct1B)
    ensures Struct1Grid(Struct1B, false)
      == [true, false, true, true, false, true, true, false, false, false, false, true, false]
  {
    MyEnumBitsAre();
  }

  lemma Struct1GridBMirrored()
    ensures ValuesOk(MyStruct1Layout, Struct1B)
    ensures Struct1Grid(Struct1B, true)
      == [false, true, false, false, false, false, true, true, false, true, true, false, true]
  {
    MyEnumBitsAre();
  }

  /** pattern_array_encode: the four encodes, each into the grid the previous one left. */
  lemma MyStruct1EncodeVectors()
    ensures LayoutOk(MyStruct1Layout) && ValuesOk(MyStruct1Layout, Struct1A) && ValuesOk(MyStruct1Layout, Struct1B)
    ensures Encoded(seq(13, _ => false), MyStruct1Layout, Struct1Place(false), Struct1A)
      == [true, false, false, false, true, true, false, true, true, false, false, true, true]
    ensures Encoded([true, false, false, false, true, true, false, true, true, false, false, true, true],
                    MyStruct1Layout, Struct1Place(false), Struct1B)
      == [true, false, true, true, false, true, true, false, false, false, false, true, false]
    ensures Encoded([true, false, true, true, false, true, true, false, false, false, false, true, false],
                    MyStruct1Layout, Struct1Place(true), Struct1A)
      == [true, true, false, false, true, true, false, true, true, false, false, false, true]
    ensures Encoded([true, true, false, false, true, true, false, true, true, false, false, false, true],
                    MyStruct1Layout, Struct1Place(true), Struct1B)
      == [false, true, false, false, false, false, true, true, false, true, true, false, true]
  {
    Struct1GridAPlain();
    Struct1GridAMirrored();
    Struct1GridBPlain();
    Struct1GridBMirrored();
    MyStruct1Encoding(seq(13, _ => false), false, Struct1A);
    MyStruct1Encoding([true, false, false, false, true, true, false, true, true, false, false, true, true], false, Struct1B);
    MyStruct1Encoding([true, false, true, true, false, true, true, false, false, false, false, true, false], true, Struct1A);
    MyStruct1Encoding([true, true, false, false, true, true, false, true, true, false, false, false, true], true, Struct1B);
  }

  /** pattern_array_decode: Choice4, Choice2, Choice3, Choice1, Choice2, Choice3; false. */
  const Struct1C: seq<seq<nat>> := [[3, 1, 2, 0, 1, 2], [0]]

  /** pattern_array_decode: Choice3, Choice2, Choice4, Choice1, Choice1, Choice3; false. */
  const Struct1D: seq<seq<nat>> := [[2, 1, 3, 0, 0, 2], [0]]

  lemma Struct1GridCPlain()
    ensures ValuesOk(MyStruct1Layout, Struct1C)
    ensures Struct1Grid(Struct1C, false)
      == [false, true, true, false, true, true, false, false, false, false, true, true, false]
  {
    MyEnumBitsAre();
  }

  lemma Struct1GridCMirrored()
    ensures ValuesOk(MyStruct1Layout, Struct1C)
    ensures Struct1Grid(Struct1C, true)
      == [false, true, true, false, false, false, false, true, true, false, true, true, false]
  {
    MyEnumBitsAre();
  }

  lemma Struct1GridDPlain()
    ensures ValuesOk(MyStruct1Layout, Struct1D)
    ensures Struct1Grid(Struct1D, false)
      == [false, true, false, false, true, true, true, false, false, false, false, true, false]
  {
    MyEnumBitsAre();
  }

  lemma Struct1GridDMirrored()
    ensures ValuesOk(MyStruct1Layout, Struct1D)
    ensures Struct1Grid(Struct1D, true)
      == [false, true, false, false, false, false, true, true, true, false, false, true, false]
  {
    MyEnumBitsAre();
  }

  /** pattern_array_decode: the four grids and the values they decode to. */
  lemma MyStruct1DecodeVectors()
    ensures LayoutOk(MyStruct1Layout) && Product([13]) == 13
    ensures Placeable(MyStruct1Layout, Struct1Place(false)) && Placeable(MyStruct1Layout, Struct1Place(true))
    ensures Decoded([false, true, true, false, true, true, false, false, false, false, true, true, false],
                    MyStruct1Layout, Struct1Place(false)) == Ok(Struct1C)
    ensures Decoded([false, true, false, false, true, true, true, false, false, false, false, true, false],
                    MyStruct1Layout, Struct1Place(false)) == Ok(Struct1D)
    ensures Decoded([false, true, true, false, false, false, false, true, true, false, true, true, false],
                    MyStruct1Layout, Struct1Place(true)) == Ok(Struct1C)
    ensures Decoded([false, true, false, false, false, false, true, true, true, false, false, true, false],
                    MyStruct1Layout, Struct1Place(true)) == Ok(Struct1D)
  {
    Struct1GridCPlain();
    Struct1GridCMirrored();
    Struct1GridDPlain();
    Struct1GridDMirrored();
    MyStruct1RoundTrip(false, Struct1C);
    MyStruct1RoundTrip(false, Struct1D);
    MyStruct1RoundTrip(true, Struct1C);
    MyStruct1RoundTrip(true, Struct1D);
  }
}
