/**
 * What the code generated by `#[bitfragment]` does: encode writes every
 * located bit of every field into the caller's grid, in place; decode reads
 * each field's bits (or constants) into a buffer and runs the pattern
 * decoder, fields in declaration order, the first error ending the decode.
 * A pattern field is one element; an array field (`#[arr_off]`) is a
 * sequence of elements, element e displaced by its array offset.
 */
module Fragment {
  import opened BitPattern
  import opened Schema
  import opened Coordinates

  /**
   * One field: its pattern table, the bit map of its selected
   * `#[pat_bits]`, and for an array field the offset of every element in
   * row-major order.
   */
  datatype FieldLayout = FieldLayout(name: string, table: PatternTable, bits: map<string, PatBitInfo>, arrOff: Option<seq<seq<int>>>)

  /** A layout: the number of grid dimensions and the fields in declaration order. */
  datatype Layout = Layout(dims: nat, fields: seq<FieldLayout>)

  /** Where an instance goes: the grid's extent per dimension, the offset, the mirroring. */
  datatype Placement = Placement(shape: seq<nat>, offset: seq<int>, mirror: seq<bool>)

  /** Displacement of each element: a plain pattern field is one element at the origin. */
  function Deltas(f: FieldLayout, dims: nat): seq<seq<int>>
  {
    match f.arrOff
    case None => [Zeros(dims)]
    case Some(offs) => offs
  }

  /** The bit map names exactly the pattern's bits, and every location has `dims` coordinates. */
  predicate FieldOk(f: FieldLayout, dims: nat)
  {
    && WellFormed(f.table)
    && (forall n :: n in f.bits ==> n in f.table.bitNames)
    && (forall n :: n in f.table.bitNames ==> n in f.bits)
    && (forall n :: n in f.bits && f.bits[n].pos.Loc? ==> |f.bits[n].pos.coords| == dims)
    && (forall e :: 0 <= e < |Deltas(f, dims)| ==> |Deltas(f, dims)[e]| == dims)
  }

  predicate LayoutOk(l: Layout)
  {
    forall i :: 0 <= i < |l.fields| ==> FieldOk(l.fields[i], l.dims)
  }

  predicate PlacementFits(l: Layout, pl: Placement)
  {
    |pl.shape| == l.dims && |pl.offset| == l.dims && |pl.mirror| == l.dims
  }

  /** Number of elements of field i. */
  function ElemCount(l: Layout, i: nat): nat
    requires i < |l.fields|
  {
    |Deltas(l.fields[i], l.dims)|
  }

  function BitCount(l: Layout, i: nat): nat
    requires i < |l.fields|
  {
    BitsCount(l.fields[i].table)
  }

  /** The position info of the bit at canonical position p of field i. */
  function InfoAt(l: Layout, i: nat, p: nat): PatBitInfo
    requires LayoutOk(l) && i < |l.fields| && p < BitCount(l, i)
  {
    assert FieldOk(l.fields[i], l.dims);
    l.fields[i].bits[l.fields[i].table.bitNames[p]]
  }

  /**
   * Grid coordinate of bit p of element e of field i: for each dimension d,
   * offset[d] + sign(mirror[d]) * (arr_off(e)[d] + loc[d]).
   */
  function CoordOf(l: Layout, pl: Placement, i: nat, e: nat, p: nat): (c: seq<int>)
    requires LayoutOk(l) && PlacementFits(l, pl) && i < |l.fields| && e < ElemCount(l, i) && p < BitCount(l, i)
    requires InfoAt(l, i, p).pos.Loc?
    ensures |c| == l.dims
  {
    assert FieldOk(l.fields[i], l.dims);
    Resolve(pl.offset, pl.mirror, VecAdd(Deltas(l.fields[i], l.dims)[e], InfoAt(l, i, p).pos.coords))
  }

  /**
   * Element e of an array field is its pattern placed at the resolved
   * position of arr_off(e), under the same mirroring; a plain field's one
   * element sits at the offset itself.
   */
  lemma CoordOfElement(l: Layout, pl: Placement, i: nat, e: nat, p: nat)
    requires LayoutOk(l) && PlacementFits(l, pl) && i < |l.fields| && e < ElemCount(l, i) && p < BitCount(l, i)
    requires InfoAt(l, i, p).pos.Loc?
    ensures FieldOk(l.fields[i], l.dims)
    ensures CoordOf(l, pl, i, e, p)
      == Resolve(Resolve(pl.offset, pl.mirror, Deltas(l.fields[i], l.dims)[e]), pl.mirror, InfoAt(l, i, p).pos.coords)
    ensures l.fields[i].arrOff.None? ==> CoordOf(l, pl, i, e, p) == Resolve(pl.offset, pl.mirror, InfoAt(l, i, p).pos.coords)
  {
    assert FieldOk(l.fields[i], l.dims);
    ResolveCompose(pl.offset, pl.mirror, Deltas(l.fields[i], l.dims)[e], InfoAt(l, i, p).pos.coords);
    if l.fields[i].arrOff.None? {
      var z := Zeros(l.dims);
      assert Resolve(pl.offset, pl.mirror, z) == pl.offset;
    }
  }

  /** Position of bit p of element e of field i relative to the instance: arr_off(e) + loc. */
  function LocalPos(l: Layout, i: nat, e: nat, p: nat): (c: seq<int>)
    requires LayoutOk(l) && i < |l.fields| && e < ElemCount(l, i) && p < BitCount(l, i)
    requires InfoAt(l, i, p).pos.Loc?
    ensures |c| == l.dims
  {
    assert FieldOk(l.fields[i], l.dims);
    VecAdd(Deltas(l.fields[i], l.dims)[e], InfoAt(l, i, p).pos.coords)
  }

  /** Distinct located bits have distinct local positions. */
  predicate LocalInjective(l: Layout)
    requires LayoutOk(l)
  {
    forall i, e, p, i2, e2, p2 ::
      && 0 <= i < |l.fields| && 0 <= e < ElemCount(l, i) && 0 <= p < BitCount(l, i) && InfoAt(l, i, p).pos.Loc?
      && 0 <= i2 < |l.fields| && 0 <= e2 < ElemCount(l, i2) && 0 <= p2 < BitCount(l, i2) && InfoAt(l, i2, p2).pos.Loc?
      && LocalPos(l, i, e, p) == LocalPos(l, i2, e2, p2)
      ==> i == i2 && e == e2 && p == p2
  }

  /** Flat index of a coordinate; one past the grid when it lies outside. */
  function CellIndex(shape: seq<nat>, c: seq<int>): nat
  {
    if InBounds(c, shape) then Flatten(c, shape) else Product(shape)
  }

  /** Every located bit of every element of every field lands inside the grid. */
  predicate Placeable(l: Layout, pl: Placement)
    requires LayoutOk(l) && PlacementFits(l, pl)
  {
    forall i, e, p :: 0 <= i < |l.fields| && 0 <= e < ElemCount(l, i) && 0 <= p < BitCount(l, i) && InfoAt(l, i, p).pos.Loc? ==>
      InBounds(CoordOf(l, pl, i, e, p), pl.shape)
  }

  /** A value of the layout: for each field, the variant index of each element. */
  predicate ValuesOk(l: Layout, vals: seq<seq<nat>>)
  {
    && |vals| == |l.fields|
    && forall i :: 0 <= i < |vals| ==>
         && |vals[i]| == ElemCount(l, i)
         && forall e :: 0 <= e < |vals[i]| ==> vals[i][e] < VariantCount(l.fields[i].table)
  }

  // ---------------------------------------------------------------------
  // Encode
  // ---------------------------------------------------------------------

  /** One cell assignment of the generated encode: bit p of element e of field i goes to cell. */
  datatype Target = Target(field: nat, elem: nat, pos: nat, cell: nat, invert: bool)

  /** The target of a located bit. */
  function TargetAt(l: Layout, pl: Placement, i: nat, e: nat, p: nat): Target
    requires LayoutOk(l) && PlacementFits(l, pl) && i < |l.fields| && e < ElemCount(l, i) && p < BitCount(l, i)
    requires InfoAt(l, i, p).pos.Loc?
  {
    Target(i, e, p, CellIndex(pl.shape, CoordOf(l, pl, i, e, p)), InfoAt(l, i, p).invert)
  }

  /** Targets of bits 0..n-1 of element e of field i; constants write nothing. */
  function PosTargets(l: Layout, pl: Placement, i: nat, e: nat, n: nat): seq<Target>
    requires LayoutOk(l) && PlacementFits(l, pl) && i < |l.fields| && e < ElemCount(l, i) && n <= BitCount(l, i)
  {
    if n == 0 then []
    else
      PosTargets(l, pl, i, e, n - 1)
      + (if InfoAt(l, i, n - 1).pos.Loc? then [TargetAt(l, pl, i, e, n - 1)] else [])
  }

  /** Targets of elements 0..m-1 of field i. */
  function ElemTargets(l: Layout, pl: Placement, i: nat, m: nat): seq<Target>
    requires LayoutOk(l) && PlacementFits(l, pl) && i < |l.fields| && m <= ElemCount(l, i)
  {
    if m == 0 then [] else ElemTargets(l, pl, i, m - 1) + PosTargets(l, pl, i, m - 1, BitCount(l, i))
  }

  /** Targets of fields 0..n-1. */
  function FieldTargets(l: Layout, pl: Placement, n: nat): seq<Target>
    requires LayoutOk(l) && PlacementFits(l, pl) && n <= |l.fields|
  {
    if n == 0 then [] else FieldTargets(l, pl, n - 1) + ElemTargets(l, pl, n - 1, ElemCount(l, n - 1))
  }

  /** All cell assignments of encode, in the order the model performs them. */
  function Targets(l: Layout, pl: Placement): seq<Target>
    requires LayoutOk(l) && PlacementFits(l, pl)
  {
    FieldTargets(l, pl, |l.fields|)
  }

  /** A target is the target of one located bit of the layout. */
  predicate IsTargetOf(l: Layout, pl: Placement, t: Target)
    requires LayoutOk(l) && PlacementFits(l, pl)
  {
    && t.field < |l.fields| && t.elem < ElemCount(l, t.field) && t.pos < BitCount(l, t.field)
    && InfoAt(l, t.field, t.pos).pos.Loc?
    && t == TargetAt(l, pl, t.field, t.elem, t.pos)
  }

  /** Every target of bits 0..n-1 of element e is the target of one of those located bits. */
  lemma {:induction false} PosTargetsMembers(l: Layout, pl: Placement, i: nat, e: nat, n: nat)
    requires LayoutOk(l) && PlacementFits(l, pl) && i < |l.fields| && e < ElemCount(l, i) && n <= BitCount(l, i)
    ensures forall t :: t in PosTargets(l, pl, i, e, n) ==> IsTargetOf(l, pl, t)
  {
    if n > 0 {
      PosTargetsMembers(l, pl, i, e, n - 1);
    }
  }

  /** The targets of bits 0..n-1 of element e belong to that element, at positions below n. */
  lemma {:induction false} PosTargetsIndices(l: Layout, pl: Placement, i: nat, e: nat, n: nat)
    requires LayoutOk(l) && PlacementFits(l, pl) && i < |l.fields| && e < ElemCount(l, i) && n <= BitCount(l, i)
    ensures forall t :: t in PosTargets(l, pl, i, e, n) ==> t.field == i && t.elem == e && t.pos < n
  {
    if n > 0 {
      PosTargetsIndices(l, pl, i, e, n - 1);
    }
  }

  /** Every located bit among bits 0..n-1 of element e has its target. */
  lemma {:induction false} PosTargetsCover(l: Layout, pl: Placement, i: nat, e: nat, n: nat)
    requires LayoutOk(l) && PlacementFits(l, pl) && i < |l.fields| && e < ElemCount(l, i) && n <= BitCount(l, i)
    ensures forall p :: 0 <= p < n && InfoAt(l, i, p).pos.Loc? ==> TargetAt(l, pl, i, e, p) in PosTargets(l, pl, i, e, n)
  {
    if n > 0 {
      PosTargetsCover(l, pl, i, e, n - 1);
    }
  }

  lemma {:induction false} ElemTargetsMembers(l: Layout, pl: Placement, i: nat, m: nat)
    requires LayoutOk(l) && PlacementFits(l, pl) && i < |l.fields| && m <= ElemCount(l, i)
    ensures forall t :: t in ElemTargets(l, pl, i, m) ==> IsTargetOf(l, pl, t)
  {
    if m > 0 {
      ElemTargetsMembers(l, pl, i, m - 1);
      PosTargetsMembers(l, pl, i, m - 1, BitCount(l, i));
    }
  }

  lemma {:induction false} ElemTargetsIndices(l: Layout, pl: Placement, i: nat, m: nat)
    requires LayoutOk(l) && PlacementFits(l, pl) && i < |l.fields| && m <= ElemCount(l, i)
    ensures forall t :: t in ElemTargets(l, pl, i, m) ==> t.field == i && t.elem < m
  {
    if m > 0 {
      ElemTargetsIndices(l, pl, i, m - 1);
      PosTargetsIndices(l, pl, i, m - 1, BitCount(l, i));
    }
  }

  lemma {:induction false} ElemTargetsCover(l: Layout, pl: Placement, i: nat, m: nat)
    requires LayoutOk(l) && PlacementFits(l, pl) && i < |l.fields| && m <= ElemCount(l, i)
    ensures forall e, p :: 0 <= e < m && 0 <= p < BitCount(l, i) && InfoAt(l, i, p).pos.Loc? ==>
      TargetAt(l, pl, i, e, p) in ElemTargets(l, pl, i, m)
  {
    if m > 0 {
      ElemTargetsCover(l, pl, i, m - 1);
      PosTargetsCover(l, pl, i, m - 1, BitCount(l, i));
    }
  }

  lemma {:induction false} FieldTargetsMembers(l: Layout, pl: Placement, n: nat)
    requires LayoutOk(l) && PlacementFits(l, pl) && n <= |l.fields|
    ensures forall t :: t in FieldTargets(l, pl, n) ==> IsTargetOf(l, pl, t)
  {
    if n > 0 {
      FieldTargetsMembers(l, pl, n - 1);
      ElemTargetsMembers(l, pl, n - 1, ElemCount(l, n - 1));
    }
  }

  lemma {:induction false} FieldTargetsIndices(l: Layout, pl: Placement, n: nat)
    requires LayoutOk(l) && PlacementFits(l, pl) && n <= |l.fields|
    ensures forall t :: t in FieldTargets(l, pl, n) ==> t.field < n
  {
    if n > 0 {
      FieldTargetsIndices(l, pl, n - 1);
      ElemTargetsIndices(l, pl, n - 1, ElemCount(l, n - 1));
    }
  }

  lemma {:induction false} FieldTargetsCover(l: Layout, pl: Placement, n: nat)
    requires LayoutOk(l) && PlacementFits(l, pl) && n <= |l.fields|
    ensures forall i, e, p :: 0 <= i < n && 0 <= e < ElemCount(l, i) && 0 <= p < BitCount(l, i) && InfoAt(l, i, p).pos.Loc? ==>
      TargetAt(l, pl, i, e, p) in FieldTargets(l, pl, n)
  {
    if n > 0 {
      FieldTargetsCover(l, pl, n - 1);
      ElemTargetsCover(l, pl, n - 1, ElemCount(l, n - 1));
    }
  }

  /**
   * The targets are exactly the located bits: every target is the cell of a
   * `Loc` bit of some element of some field, and every such bit has one.
   */
  lemma TargetsShape(l: Layout, pl: Placement)
    requires LayoutOk(l) && PlacementFits(l, pl)
    ensures forall t :: t in Targets(l, pl) ==> IsTargetOf(l, pl, t)
    ensures forall i, e, p :: 0 <= i < |l.fields| && 0 <= e < ElemCount(l, i) && 0 <= p < BitCount(l, i) && InfoAt(l, i, p).pos.Loc? ==>
      TargetAt(l, pl, i, e, p) in Targets(l, pl)
  {
    FieldTargetsMembers(l, pl, |l.fields|);
    FieldTargetsCover(l, pl, |l.fields|);
  }

  /** The value encode writes for a target: the encoded bit, negated when inverted. */
  function TargetValue(l: Layout, vals: seq<seq<nat>>, t: Target): bool
    requires LayoutOk(l) && ValuesOk(l, vals)
    requires t.field < |l.fields| && t.elem < ElemCount(l, t.field) && t.pos < BitCount(l, t.field)
  {
    assert FieldOk(l.fields[t.field], l.dims);
    t.invert != Encode(l.fields[t.field].table, vals[t.field][t.elem])[t.pos]
  }

  predicate TargetsInRange(l: Layout, ts: seq<Target>)
  {
    forall j :: 0 <= j < |ts| ==>
      ts[j].field < |l.fields| && ts[j].elem < ElemCount(l, ts[j].field) && ts[j].pos < BitCount(l, ts[j].field)
  }

  /** A grid write: cell and value. */
  datatype Write = Write(cell: nat, value: bool)

  function Writes(l: Layout, vals: seq<seq<nat>>, ts: seq<Target>): (ws: seq<Write>)
    requires LayoutOk(l) && ValuesOk(l, vals) && TargetsInRange(l, ts)
    ensures |ws| == |ts| && forall j :: 0 <= j < |ts| ==> ws[j].cell == ts[j].cell
  {
    seq(|ts|, j requires 0 <= j < |ts| => Write(ts[j].cell, TargetValue(l, vals, ts[j])))
  }

  /** The grid after performing the writes in order; a write outside the grid is dropped. */
  function ApplyWrites(g: seq<bool>, ws: seq<Write>): (r: seq<bool>)
    ensures |r| == |g|
  {
    if |ws| == 0 then g
    else
      var h := ApplyWrites(g, ws[..|ws| - 1]);
      var w := ws[|ws| - 1];
      if w.cell < |h| then h[w.cell := w.value] else h
  }

  /** Pairwise distinct cells. */
  predicate DistinctCells(ws: seq<Write>)
  {
    forall j, k :: 0 <= j < k < |ws| ==> ws[j].cell != ws[k].cell
  }

  /** A cell no write touches keeps its value. */
  lemma {:induction false} ApplyWritesFrame(g: seq<bool>, ws: seq<Write>, c: nat)
    requires c < |g| && forall j :: 0 <= j < |ws| ==> ws[j].cell != c
    ensures ApplyWrites(g, ws)[c] == g[c]
    decreases |ws|
  {
    if |ws| > 0 {
      ApplyWritesFrame(g, ws[..|ws| - 1], c);
    }
  }

  /** With distinct cells, a written cell holds the value written to it. */
  lemma {:induction false} ApplyWritesAt(g: seq<bool>, ws: seq<Write>, j: nat)
    requires j < |ws| && ws[j].cell < |g| && DistinctCells(ws)
    ensures ApplyWrites(g, ws)[ws[j].cell] == ws[j].value
    decreases |ws|
  {
    if j < |ws| - 1 {
      ApplyWritesAt(g, ws[..|ws| - 1], j);
    }
  }

  lemma {:induction false} ApplyWritesAppend(g: seq<bool>, a: seq<Write>, b: seq<Write>)
    ensures ApplyWrites(g, a + b) == ApplyWrites(ApplyWrites(g, a), b)
    decreases |b|
  {
    if |b| == 0 {
      assert a + b == a;
    } else {
      assert (a + b)[..|a + b| - 1] == a + b[..|b| - 1];
      ApplyWritesAppend(g, a, b[..|b| - 1]);
    }
  }

  lemma {:induction false} WritesAppend(l: Layout, vals: seq<seq<nat>>, a: seq<Target>, b: seq<Target>)
    requires LayoutOk(l) && ValuesOk(l, vals) && TargetsInRange(l, a) && TargetsInRange(l, b)
    ensures TargetsInRange(l, a + b)
    ensures Writes(l, vals, a + b) == Writes(l, vals, a) + Writes(l, vals, b)
  {
    assert TargetsInRange(l, a + b) by {
      forall j | 0 <= j < |a + b|
        ensures (a + b)[j].field < |l.fields| && (a + b)[j].elem < ElemCount(l, (a + b)[j].field)
             && (a + b)[j].pos < BitCount(l, (a + b)[j].field)
      {
        if j >= |a| {
          assert (a + b)[j] == b[j - |a|];
        }
      }
    }
  }

  /** The targets are all in range, so the writes of a layout are defined. */
  lemma TargetsDefined(l: Layout, pl: Placement)
    requires LayoutOk(l) && PlacementFits(l, pl)
    ensures TargetsInRange(l, Targets(l, pl))
  {
    TargetsShape(l, pl);
    forall j | 0 <= j < |Targets(l, pl)|
      ensures Targets(l, pl)[j].field < |l.fields| && Targets(l, pl)[j].elem < ElemCount(l, Targets(l, pl)[j].field)
           && Targets(l, pl)[j].pos < BitCount(l, Targets(l, pl)[j].field)
    {
      assert Targets(l, pl)[j] in Targets(l, pl);
    }
  }

  /** The grid after encoding `vals` into `g` (the specification of `EncodeFragment`). */
  function Encoded(g: seq<bool>, l: Layout, pl: Placement, vals: seq<seq<nat>>): (r: seq<bool>)
    requires LayoutOk(l) && PlacementFits(l, pl) && ValuesOk(l, vals)
    ensures |r| == |g|
  {
    TargetsDefined(l, pl);
    ApplyWrites(g, Writes(l, vals, Targets(l, pl)))
  }

  /** No two located bits of the layout share a cell at this placement. */
  predicate DisjointCells(l: Layout, pl: Placement)
    requires LayoutOk(l) && PlacementFits(l, pl)
  {
    var ts := Targets(l, pl);
    forall j, k :: 0 <= j < k < |ts| ==> ts[j].cell != ts[k].cell
  }

  // ---------------------------------------------------------------------
  // Decode
  // ---------------------------------------------------------------------

  /**
   * The buffer entry for bit p of element e of field i: the grid cell of a
   * located bit, or the constant of a `Bool` entry, negated when inverted.
   */
  function ReadBit(g: seq<bool>, l: Layout, pl: Placement, i: nat, e: nat, p: nat): bool
    requires LayoutOk(l) && PlacementFits(l, pl) && Placeable(l, pl) && |g| == Product(pl.shape)
    requires i < |l.fields| && e < ElemCount(l, i) && p < BitCount(l, i)
  {
    var info := InfoAt(l, i, p);
    match info.pos
    case Loc(_) => info.invert != g[Flatten(CoordOf(l, pl, i, e, p), pl.shape)]
    case Bool(b) => info.invert != b
  }

  /** The decode buffer of element e of field i, in canonical position order. */
  function ReadBuffer(g: seq<bool>, l: Layout, pl: Placement, i: nat, e: nat): (buf: seq<bool>)
    requires LayoutOk(l) && PlacementFits(l, pl) && Placeable(l, pl) && |g| == Product(pl.shape)
    requires i < |l.fields| && e < ElemCount(l, i)
    ensures |buf| == BitCount(l, i)
  {
    seq(BitCount(l, i), p requires 0 <= p < BitCount(l, i) => ReadBit(g, l, pl, i, e, p))
  }

  /** Pattern decode of the buffer of element e of field i. */
  function ElemValue(g: seq<bool>, l: Layout, pl: Placement, i: nat, e: nat): Result<nat, DecodeError>
    requires LayoutOk(l) && PlacementFits(l, pl) && Placeable(l, pl) && |g| == Product(pl.shape)
    requires i < |l.fields| && e < ElemCount(l, i)
  {
    Decode(l.fields[i].table, ReadBuffer(g, l, pl, i, e))
  }

  /** The values of a sequence of results in order, or the first error among them. */
  function Collect<T>(rs: seq<Result<T, DecodeError>>): Result<seq<T>, DecodeError>
  {
    if |rs| == 0 then Ok([])
    else
      match Collect(rs[..|rs| - 1])
      case Err(err) => Err(err)
      case Ok(xs) =>
        match rs[|rs| - 1]
        case Err(err) => Err(err)
        case Ok(x) => Ok(xs + [x])
  }

  /**
   * Collecting succeeds iff every result is a value, and then the j-th
   * collected value is the j-th result's.
   */
  lemma {:induction false} CollectMeaning<T>(rs: seq<Result<T, DecodeError>>)
    ensures Collect(rs).Ok? <==> forall j :: 0 <= j < |rs| ==> rs[j].Ok?
    ensures Collect(rs).Ok? ==> |Collect(rs).value| == |rs| && forall j :: 0 <= j < |rs| ==> rs[j] == Ok(Collect(rs).value[j])
  {
    if |rs| > 0 {
      var front := rs[..|rs| - 1];
      CollectMeaning(front);
      assert forall j :: 0 <= j < |rs| - 1 ==> front[j] == rs[j];
      if Collect(front).Ok? && rs[|rs| - 1].Ok? {
        var xs := Collect(front).value + [rs[|rs| - 1].value];
        assert Collect(rs) == Ok(xs);
        assert forall j :: 0 <= j < |rs| - 1 ==> xs[j] == Collect(front).value[j];
      } else if Collect(front).Err? {
        var j :| 0 <= j < |rs| - 1 && !front[j].Ok?;
        assert !rs[j].Ok?;
      }
    }
  }

  /** Collecting one more result extends the collected prefix, or keeps its error. */
  lemma CollectStep<T>(rs: seq<Result<T, DecodeError>>, m: nat)
    requires m < |rs|
    ensures Collect(rs[..m + 1]) ==
      match Collect(rs[..m])
      case Err(err) => Err(err)
      case Ok(xs) =>
        match rs[m]
        case Err(err) => Err(err)
        case Ok(x) => Ok(xs + [x])
  {
    assert rs[..m + 1][..m] == rs[..m];
  }

  /** Once a prefix fails, collecting more results keeps that error. */
  lemma {:induction false} CollectErrSticks<T>(rs: seq<Result<T, DecodeError>>, m: nat)
    requires m <= |rs| && Collect(rs[..m]).Err?
    ensures Collect(rs) == Collect(rs[..m])
    decreases |rs| - m
  {
    if m < |rs| {
      CollectStep(rs, m);
      CollectErrSticks(rs, m + 1);
    } else {
      assert rs[..m] == rs;
    }
  }

  /** The results of decoding each element of field i. */
  function ElemResults(g: seq<bool>, l: Layout, pl: Placement, i: nat): (rs: seq<Result<nat, DecodeError>>)
    requires LayoutOk(l) && PlacementFits(l, pl) && Placeable(l, pl) && |g| == Product(pl.shape)
    requires i < |l.fields|
    ensures |rs| == ElemCount(l, i)
  {
    seq(ElemCount(l, i), e requires 0 <= e < ElemCount(l, i) => ElemValue(g, l, pl, i, e))
  }

  /** Decode the elements of field i in order; the first failure is the result. */
  function DecodeElems(g: seq<bool>, l: Layout, pl: Placement, i: nat): Result<seq<nat>, DecodeError>
    requires LayoutOk(l) && PlacementFits(l, pl) && Placeable(l, pl) && |g| == Product(pl.shape)
    requires i < |l.fields|
  {
    Collect(ElemResults(g, l, pl, i))
  }

  /** The results of decoding each field. */
  function FieldResults(g: seq<bool>, l: Layout, pl: Placement): (rs: seq<Result<seq<nat>, DecodeError>>)
    requires LayoutOk(l) && PlacementFits(l, pl) && Placeable(l, pl) && |g| == Product(pl.shape)
    ensures |rs| == |l.fields|
  {
    seq(|l.fields|, i requires 0 <= i < |l.fields| => DecodeElems(g, l, pl, i))
  }

  /** The value decoded from grid g (the specification of `DecodeFragment`): fields in declaration order. */
  function Decoded(g: seq<bool>, l: Layout, pl: Placement): Result<seq<seq<nat>>, DecodeError>
    requires LayoutOk(l) && PlacementFits(l, pl) && Placeable(l, pl) && |g| == Product(pl.shape)
  {
    Collect(FieldResults(g, l, pl))
  }

  /**
   * Decoding a field succeeds iff each element's buffer matches a variant,
   * and then element e's value is that variant.
   */
  lemma DecodeElemsMeaning(g: seq<bool>, l: Layout, pl: Placement, i: nat)
    requires LayoutOk(l) && PlacementFits(l, pl) && Placeable(l, pl) && |g| == Product(pl.shape)
    requires i < |l.fields|
    ensures DecodeElems(g, l, pl, i).Ok? ==>
      && |DecodeElems(g, l, pl, i).value| == ElemCount(l, i)
      && forall e :: 0 <= e < ElemCount(l, i) ==> ElemValue(g, l, pl, i, e) == Ok(DecodeElems(g, l, pl, i).value[e])
    ensures (forall e :: 0 <= e < ElemCount(l, i) ==> ElemValue(g, l, pl, i, e).Ok?) <==> DecodeElems(g, l, pl, i).Ok?
  {
    CollectMeaning(ElemResults(g, l, pl, i));
  }

  /**
   * Decode succeeds iff every element of every field matches some variant of
   * its pattern; then each element's value is what the pattern decoder
   * returns for that element's buffer.
   */
  lemma DecodeFieldsMeaning(g: seq<bool>, l: Layout, pl: Placement)
    requires LayoutOk(l) && PlacementFits(l, pl) && Placeable(l, pl) && |g| == Product(pl.shape)
    ensures Decoded(g, l, pl).Ok? ==>
      && |Decoded(g, l, pl).value| == |l.fields|
      && forall i :: 0 <= i < |l.fields| ==> |Decoded(g, l, pl).value[i]| == ElemCount(l, i)
    ensures Decoded(g, l, pl).Ok? ==>
      forall i, e :: 0 <= i < |l.fields| && 0 <= e < ElemCount(l, i) ==>
        ElemValue(g, l, pl, i, e) == Ok(Decoded(g, l, pl).value[i][e])
    ensures (forall i, e :: 0 <= i < |l.fields| && 0 <= e < ElemCount(l, i) ==> ElemValue(g, l, pl, i, e).Ok?) <==>
      Decoded(g, l, pl).Ok?
  {
    var rs := FieldResults(g, l, pl);
    CollectMeaning(rs);
    forall i | 0 <= i < |l.fields| {
      DecodeElemsMeaning(g, l, pl, i);
    }
    if Decoded(g, l, pl).Ok? {
      var vs := Decoded(g, l, pl).value;
      forall i, e | 0 <= i < |l.fields| && 0 <= e < ElemCount(l, i)
        ensures ElemValue(g, l, pl, i, e) == Ok(vs[i][e])
      {
        assert rs[i] == DecodeElems(g, l, pl, i) == Ok(vs[i]);
      }
    }
    if forall i, e :: 0 <= i < |l.fields| && 0 <= e < ElemCount(l, i) ==> ElemValue(g, l, pl, i, e).Ok? {
      forall i | 0 <= i < |l.fields| ensures rs[i].Ok? {
        assert forall e :: 0 <= e < ElemCount(l, i) ==> ElemValue(g, l, pl, i, e).Ok?;
      }
    }
  }

  /** A successful decode is a value of the layout. */
  lemma DecodedIsValue(g: seq<bool>, l: Layout, pl: Placement)
    requires LayoutOk(l) && PlacementFits(l, pl) && Placeable(l, pl) && |g| == Product(pl.shape)
    requires Decoded(g, l, pl).Ok?
    ensures ValuesOk(l, Decoded(g, l, pl).value)
  {
    DecodeFieldsMeaning(g, l, pl);
  }

  // ---------------------------------------------------------------------
  // What encode does to the grid, and the round trip
  // ---------------------------------------------------------------------

  /**
   * Encode sets the cell of every located bit to the encoded bit of its
   * element, negated when the entry is inverted (`!encoded_arr[pos]`).
   */
  lemma EncodeWritesBit(g: seq<bool>, l: Layout, pl: Placement, vals: seq<seq<nat>>, i: nat, e: nat, p: nat)
    requires LayoutOk(l) && PlacementFits(l, pl) && Placeable(l, pl) && |g| == Product(pl.shape)
    requires DisjointCells(l, pl) && ValuesOk(l, vals)
    requires i < |l.fields| && e < ElemCount(l, i) && p < BitCount(l, i) && InfoAt(l, i, p).pos.Loc?
    ensures FieldOk(l.fields[i], l.dims)
    ensures Encoded(g, l, pl, vals)[Flatten(CoordOf(l, pl, i, e, p), pl.shape)]
         == (InfoAt(l, i, p).invert != Encode(l.fields[i].table, vals[i][e])[p])
  {
    assert FieldOk(l.fields[i], l.dims);
    TargetsDefined(l, pl);
    TargetsShape(l, pl);
    var ts := Targets(l, pl);
    var ws := Writes(l, vals, ts);
    var tg := TargetAt(l, pl, i, e, p);
    assert tg in ts;
    var j :| 0 <= j < |ts| && ts[j] == tg;
    ApplyWritesAt(g, ws, j);
  }

  /** Encode leaves every cell that no located bit resolves to as it was. */
  lemma EncodeFrame(g: seq<bool>, l: Layout, pl: Placement, vals: seq<seq<nat>>, c: nat)
    requires LayoutOk(l) && PlacementFits(l, pl) && ValuesOk(l, vals)
    requires c < |g|
    requires forall i, e, p :: 0 <= i < |l.fields| && 0 <= e < ElemCount(l, i) && 0 <= p < BitCount(l, i) && InfoAt(l, i, p).pos.Loc? ==>
      CellIndex(pl.shape, CoordOf(l, pl, i, e, p)) != c
    ensures Encoded(g, l, pl, vals)[c] == g[c]
  {
    TargetsDefined(l, pl);
    TargetsShape(l, pl);
    var ts := Targets(l, pl);
    forall j | 0 <= j < |ts| ensures ts[j].cell != c {
      assert ts[j] in ts;
    }
    ApplyWritesFrame(g, Writes(l, vals, ts), c);
  }

  /**
   * When the located bits cover the whole grid, the encoded grid does not
   * depend on what the grid held before.
   */
  lemma EncodeOverwritesAll(g1: seq<bool>, g2: seq<bool>, l: Layout, pl: Placement, vals: seq<seq<nat>>)
    requires LayoutOk(l) && PlacementFits(l, pl) && Placeable(l, pl) && DisjointCells(l, pl) && ValuesOk(l, vals)
    requires |g1| == |g2| == Product(pl.shape)
    requires forall c :: 0 <= c < |g1| ==> c in TargetCells(Targets(l, pl))
    ensures Encoded(g1, l, pl, vals) == Encoded(g2, l, pl, vals)
  {
    TargetsDefined(l, pl);
    var ts := Targets(l, pl);
    var ws := Writes(l, vals, ts);
    forall c | 0 <= c < |g1| ensures Encoded(g1, l, pl, vals)[c] == Encoded(g2, l, pl, vals)[c] {
      assert c in TargetCells(ts);
      var j :| 0 <= j < |ts| && ts[j].cell == c;
      ApplyWritesAt(g1, ws, j);
      ApplyWritesAt(g2, ws, j);
    }
  }

  /** The cells encode writes. */
  function TargetCells(ts: seq<Target>): set<nat>
  {
    set j | 0 <= j < |ts| :: ts[j].cell
  }

  /** Constants of the bit map agree with the variant of every element. */
  predicate ConstantsAgree(l: Layout, vals: seq<seq<nat>>)
    requires LayoutOk(l) && ValuesOk(l, vals)
  {
    forall i, e, p :: 0 <= i < |l.fields| && 0 <= e < ElemCount(l, i) && 0 <= p < BitCount(l, i) && InfoAt(l, i, p).pos.Bool? ==>
      ConstantFits(l, vals, i, e, p)
  }

  /** The constant read for bit p is what variant vals[i][e] requires there (or it is a wildcard). */
  predicate ConstantFits(l: Layout, vals: seq<seq<nat>>, i: nat, e: nat, p: nat)
    requires LayoutOk(l) && ValuesOk(l, vals) && i < |l.fields| && e < ElemCount(l, i) && p < BitCount(l, i)
    requires InfoAt(l, i, p).pos.Bool?
  {
    assert FieldOk(l.fields[i], l.dims);
    var c := l.fields[i].table.variants[vals[i][e]].bits[p];
    IsWildcard(c) || (InfoAt(l, i, p).invert != InfoAt(l, i, p).pos.value) == (c == '1')
  }

  /** Every pattern of the layout is unambiguous. */
  predicate TablesUnambiguous(l: Layout)
  {
    forall i :: 0 <= i < |l.fields| ==> Unambiguous(l.fields[i].table)
  }

  lemma ElemRoundTrip(g: seq<bool>, l: Layout, pl: Placement, vals: seq<seq<nat>>, i: nat, e: nat)
    requires LayoutOk(l) && PlacementFits(l, pl) && Placeable(l, pl) && |g| == Product(pl.shape)
    requires DisjointCells(l, pl) && TablesUnambiguous(l) && ValuesOk(l, vals) && ConstantsAgree(l, vals)
    requires i < |l.fields| && e < ElemCount(l, i)
    ensures ElemValue(Encoded(g, l, pl, vals), l, pl, i, e) == Ok(vals[i][e])
  {
    assert FieldOk(l.fields[i], l.dims);
    var t, k := l.fields[i].table, vals[i][e];
    var h := Encoded(g, l, pl, vals);
    var buf := ReadBuffer(h, l, pl, i, e);
    forall p | 0 <= p < |t.variants[k].bits|
      ensures IsWildcard(t.variants[k].bits[p]) || buf[p] == (t.variants[k].bits[p] == '1')
    {
      if InfoAt(l, i, p).pos.Loc? {
        EncodeWritesBit(g, l, pl, vals, i, e, p);
      } else {
        assert ConstantFits(l, vals, i, e, p);
      }
    }
    DecodeUniqueMatch(t, buf, k);
  }

  /**
   * Round trip: in a grid of the right size, decoding what was just encoded
   * gives the value back, provided no two located bits share a cell, every
   * pattern is unambiguous and the constant entries agree with the value.
   */
  lemma FragmentRoundTrip(g: seq<bool>, l: Layout, pl: Placement, vals: seq<seq<nat>>)
    requires LayoutOk(l) && PlacementFits(l, pl) && Placeable(l, pl) && |g| == Product(pl.shape)
    requires DisjointCells(l, pl) && TablesUnambiguous(l) && ValuesOk(l, vals) && ConstantsAgree(l, vals)
    ensures Decoded(Encoded(g, l, pl, vals), l, pl) == Ok(vals)
  {
    var h := Encoded(g, l, pl, vals);
    forall i, e | 0 <= i < |l.fields| && 0 <= e < ElemCount(l, i)
      ensures ElemValue(h, l, pl, i, e) == Ok(vals[i][e])
    {
      ElemRoundTrip(g, l, pl, vals, i, e);
    }
    DecodeFieldsMeaning(h, l, pl);
    assert Decoded(h, l, pl).Ok?;
    var r := Decoded(h, l, pl).value;
    forall i | 0 <= i < |l.fields| ensures r[i] == vals[i] {
      assert forall e :: 0 <= e < ElemCount(l, i) ==> r[i][e] == vals[i][e];
    }
    assert r == vals;
  }

  // ---------------------------------------------------------------------
  // Decode reads only the located cells
  // ---------------------------------------------------------------------

  lemma DecodeElemsCongruent(g1: seq<bool>, g2: seq<bool>, l: Layout, pl: Placement, i: nat)
    requires LayoutOk(l) && PlacementFits(l, pl) && Placeable(l, pl) && |g1| == |g2| == Product(pl.shape)
    requires i < |l.fields|
    requires forall e :: 0 <= e < ElemCount(l, i) ==> ElemValue(g1, l, pl, i, e) == ElemValue(g2, l, pl, i, e)
    ensures DecodeElems(g1, l, pl, i) == DecodeElems(g2, l, pl, i)
  {
    assert ElemResults(g1, l, pl, i) == ElemResults(g2, l, pl, i);
  }

  /** Two grids that agree on the cells of the located bits decode alike. */
  lemma DecodeLocal(g1: seq<bool>, g2: seq<bool>, l: Layout, pl: Placement)
    requires LayoutOk(l) && PlacementFits(l, pl) && Placeable(l, pl) && |g1| == |g2| == Product(pl.shape)
    requires forall i, e, p :: 0 <= i < |l.fields| && 0 <= e < ElemCount(l, i) && 0 <= p < BitCount(l, i) && InfoAt(l, i, p).pos.Loc? ==>
      g1[Flatten(CoordOf(l, pl, i, e, p), pl.shape)] == g2[Flatten(CoordOf(l, pl, i, e, p), pl.shape)]
    ensures Decoded(g1, l, pl) == Decoded(g2, l, pl)
  {
    forall i, e | 0 <= i < |l.fields| && 0 <= e < ElemCount(l, i)
      ensures ElemValue(g1, l, pl, i, e) == ElemValue(g2, l, pl, i, e)
    {
      assert ReadBuffer(g1, l, pl, i, e) == ReadBuffer(g2, l, pl, i, e);
    }
    forall i | 0 <= i < |l.fields| ensures DecodeElems(g1, l, pl, i) == DecodeElems(g2, l, pl, i) {
      DecodeElemsCongruent(g1, g2, l, pl, i);
    }
    assert FieldResults(g1, l, pl) == FieldResults(g2, l, pl);
  }

  // ---------------------------------------------------------------------
  // The generated code, on the caller's grid
  // ---------------------------------------------------------------------

  lemma PosTargetsStep(l: Layout, pl: Placement, vals: seq<seq<nat>>, i: nat, e: nat, p: nat)
    requires LayoutOk(l) && PlacementFits(l, pl) && ValuesOk(l, vals) && i < |l.fields| && e < ElemCount(l, i) && p < BitCount(l, i)
    ensures TargetsInRange(l, PosTargets(l, pl, i, e, p)) && TargetsInRange(l, PosTargets(l, pl, i, e, p + 1))
    ensures InfoAt(l, i, p).pos.Loc? ==>
      Writes(l, vals, PosTargets(l, pl, i, e, p + 1))
        == Writes(l, vals, PosTargets(l, pl, i, e, p)) + [Write(TargetAt(l, pl, i, e, p).cell, TargetValue(l, vals, TargetAt(l, pl, i, e, p)))]
    ensures InfoAt(l, i, p).pos.Bool? ==> PosTargets(l, pl, i, e, p + 1) == PosTargets(l, pl, i, e, p)
  {
    PosTargetsMembers(l, pl, i, e, p);
    PosTargetsMembers(l, pl, i, e, p + 1);
    var a := PosTargets(l, pl, i, e, p);
    forall j | 0 <= j < |a| ensures a[j].field < |l.fields| && a[j].elem < ElemCount(l, a[j].field) && a[j].pos < BitCount(l, a[j].field) {
      assert a[j] in a;
    }
    var b := PosTargets(l, pl, i, e, p + 1);
    forall j | 0 <= j < |b| ensures b[j].field < |l.fields| && b[j].elem < ElemCount(l, b[j].field) && b[j].pos < BitCount(l, b[j].field) {
      assert b[j] in b;
    }
  }

  /** Performing the writes of a + b is performing those of a, then those of b. */
  lemma ApplyTargetsAppend(g: seq<bool>, l: Layout, vals: seq<seq<nat>>, a: seq<Target>, b: seq<Target>)
    requires LayoutOk(l) && ValuesOk(l, vals) && TargetsInRange(l, a) && TargetsInRange(l, b)
    ensures TargetsInRange(l, a + b)
    ensures ApplyWrites(g, Writes(l, vals, a + b)) == ApplyWrites(ApplyWrites(g, Writes(l, vals, a)), Writes(l, vals, b))
  {
    WritesAppend(l, vals, a, b);
    ApplyWritesAppend(g, Writes(l, vals, a), Writes(l, vals, b));
  }

  /** What the encoder needs: a well-formed layout placed inside a grid of n cells, and in-range values. */
  predicate EncodeReady(l: Layout, pl: Placement, vals: seq<seq<nat>>, n: nat)
  {
    LayoutOk(l) && PlacementFits(l, pl) && Placeable(l, pl) && ValuesOk(l, vals) && n == Product(pl.shape)
  }

  /** A constant bit of `EncodeElement` writes nothing. */
  lemma EncodeBitSkip(g: seq<bool>, h: seq<bool>, l: Layout, pl: Placement, vals: seq<seq<nat>>, i: nat, e: nat, p: nat)
    requires LayoutOk(l) && PlacementFits(l, pl) && ValuesOk(l, vals)
    requires i < |l.fields| && e < ElemCount(l, i) && p < BitCount(l, i) && InfoAt(l, i, p).pos.Bool?
    requires TargetsInRange(l, PosTargets(l, pl, i, e, p)) && h == ApplyWrites(g, Writes(l, vals, PosTargets(l, pl, i, e, p)))
    ensures TargetsInRange(l, PosTargets(l, pl, i, e, p + 1)) && h == ApplyWrites(g, Writes(l, vals, PosTargets(l, pl, i, e, p + 1)))
  {
    PosTargetsStep(l, pl, vals, i, e, p);
  }

  /** A located bit of `EncodeElement` writes its encoded value, inverted when asked, to its cell. */
  lemma EncodeBitWrite(g: seq<bool>, h: seq<bool>, l: Layout, pl: Placement, vals: seq<seq<nat>>, i: nat, e: nat, p: nat)
    requires LayoutOk(l) && PlacementFits(l, pl) && Placeable(l, pl) && ValuesOk(l, vals) && |g| == Product(pl.shape)
    requires i < |l.fields| && e < ElemCount(l, i) && p < BitCount(l, i) && InfoAt(l, i, p).pos.Loc?
    requires TargetsInRange(l, PosTargets(l, pl, i, e, p)) && h == ApplyWrites(g, Writes(l, vals, PosTargets(l, pl, i, e, p)))
    ensures TargetsInRange(l, PosTargets(l, pl, i, e, p + 1))
    ensures FieldOk(l.fields[i], l.dims) && InBounds(CoordOf(l, pl, i, e, p), pl.shape)
    ensures h[Flatten(CoordOf(l, pl, i, e, p), pl.shape) := InfoAt(l, i, p).invert != Encode(l.fields[i].table, vals[i][e])[p]]
        == ApplyWrites(g, Writes(l, vals, PosTargets(l, pl, i, e, p + 1)))
  {
    assert FieldOk(l.fields[i], l.dims);
    PosTargetsStep(l, pl, vals, i, e, p);
    var t := TargetAt(l, pl, i, e, p);
    assert InBounds(CoordOf(l, pl, i, e, p), pl.shape);
    assert t.cell == Flatten(CoordOf(l, pl, i, e, p), pl.shape) < |h|;
    var ws := Writes(l, vals, PosTargets(l, pl, i, e, p));
    var w := Write(t.cell, TargetValue(l, vals, t));
    assert w.value == (InfoAt(l, i, p).invert != Encode(l.fields[i].table, vals[i][e])[p]);
    assert (ws + [w])[..|ws|] == ws;
    assert ApplyWrites(g, ws + [w]) == h[t.cell := w.value];
  }

  /** Encode one element: every located bit of the encoded vector goes to its cell. */
  method EncodeElement(l: Layout, pl: Placement, vals: seq<seq<nat>>, grid: array<bool>, i: nat, e: nat)
    requires EncodeReady(l, pl, vals, grid.Length)
    requires i < |l.fields| && e < ElemCount(l, i)
    modifies grid
    ensures TargetsInRange(l, PosTargets(l, pl, i, e, BitCount(l, i)))
    ensures grid[..] == ApplyWrites(old(grid[..]), Writes(l, vals, PosTargets(l, pl, i, e, BitCount(l, i))))
  {
    assert FieldOk(l.fields[i], l.dims);
    var encoded := Encode(l.fields[i].table, vals[i][e]);
    ghost var g := grid[..];
    var p := 0;
    while p < BitCount(l, i)
      invariant p <= BitCount(l, i)
      invariant TargetsInRange(l, PosTargets(l, pl, i, e, p))
      invariant grid[..] == ApplyWrites(g, Writes(l, vals, PosTargets(l, pl, i, e, p)))
    {
      var info := InfoAt(l, i, p);
      if info.pos.Loc? {
        EncodeBitWrite(g, grid[..], l, pl, vals, i, e, p);
        grid[Flatten(CoordOf(l, pl, i, e, p), pl.shape)] := info.invert != encoded[p];
      } else {
        EncodeBitSkip(g, grid[..], l, pl, vals, i, e, p);
      }
      p := p + 1;
    }
  }

  /**
   * Encode all elements of field i, in element order: the grid goes from
   * `g` after the writes of fields 0..i-1 to `g` after those of fields 0..i.
   */
  method EncodeField(l: Layout, pl: Placement, vals: seq<seq<nat>>, grid: array<bool>, i: nat, ghost g: seq<bool>)
    requires EncodeReady(l, pl, vals, grid.Length)
    requires i < |l.fields| && EncodedPrefix(g, grid[..], l, pl, vals, i)
    modifies grid
    ensures EncodedPrefix(g, grid[..], l, pl, vals, i + 1)
  {
    var e := 0;
    while e < ElemCount(l, i)
      invariant e <= ElemCount(l, i)
      invariant TargetsInRange(l, ElemTargets(l, pl, i, e))
      invariant grid[..] == ApplyWrites(old(grid[..]), Writes(l, vals, ElemTargets(l, pl, i, e)))
    {
      EncodeElement(l, pl, vals, grid, i, e);
      ghost var a, b := ElemTargets(l, pl, i, e), PosTargets(l, pl, i, e, BitCount(l, i));
      assert ElemTargets(l, pl, i, e + 1) == a + b;
      ApplyTargetsAppend(old(grid[..]), l, vals, a, b);
      e := e + 1;
    }
    assert e == ElemCount(l, i);
    EncodeFieldStep(g, old(grid[..]), grid[..], l, pl, vals, i);
  }

  /**
   * The generated `encode`: every field in declaration order writes its
   * located bits into the grid; nothing else in the grid changes.
   */
  method EncodeFragment(l: Layout, pl: Placement, vals: seq<seq<nat>>, grid: array<bool>)
    requires EncodeReady(l, pl, vals, grid.Length)
    modifies grid
    ensures grid[..] == Encoded(old(grid[..]), l, pl, vals)
  {
    ghost var g := grid[..];
    var i := 0;
    EncodedPrefixStart(g, l, pl, vals);
    while i < |l.fields|
      invariant i <= |l.fields|
      invariant EncodedPrefix(g, grid[..], l, pl, vals, i)
    {
      EncodeField(l, pl, vals, grid, i, g);
      i := i + 1;
    }
    assert i == |l.fields|;
    assert EncodedPrefix(g, grid[..], l, pl, vals, |l.fields|);
    EncodedPrefixDone(g, grid[..], l, pl, vals);
  }

  /** `h` is `g` after the writes of fields 0..n-1. */
  ghost predicate EncodedPrefix(g: seq<bool>, h: seq<bool>, l: Layout, pl: Placement, vals: seq<seq<nat>>, n: nat)
    requires LayoutOk(l) && PlacementFits(l, pl) && ValuesOk(l, vals) && n <= |l.fields|
  {
    TargetsInRange(l, FieldTargets(l, pl, n)) && h == ApplyWrites(g, Writes(l, vals, FieldTargets(l, pl, n)))
  }

  /** Before any field is written the grid is unchanged. */
  lemma EncodedPrefixStart(g: seq<bool>, l: Layout, pl: Placement, vals: seq<seq<nat>>)
    requires LayoutOk(l) && PlacementFits(l, pl) && ValuesOk(l, vals)
    ensures EncodedPrefix(g, g, l, pl, vals, 0)
  {
  }

  /** After every field is written the grid is the encoded grid. */
  lemma EncodedPrefixDone(g: seq<bool>, h: seq<bool>, l: Layout, pl: Placement, vals: seq<seq<nat>>)
    requires LayoutOk(l) && PlacementFits(l, pl) && ValuesOk(l, vals)
    requires EncodedPrefix(g, h, l, pl, vals, |l.fields|)
    ensures h == Encoded(g, l, pl, vals)
  {
  }

  /** One step of `EncodeFragment`: field i's writes extend the writes of fields 0..i-1. */
  lemma EncodeFieldStep(g: seq<bool>, h: seq<bool>, h2: seq<bool>, l: Layout, pl: Placement, vals: seq<seq<nat>>, i: nat)
    requires LayoutOk(l) && PlacementFits(l, pl) && ValuesOk(l, vals) && i < |l.fields|
    requires EncodedPrefix(g, h, l, pl, vals, i)
    requires TargetsInRange(l, ElemTargets(l, pl, i, ElemCount(l, i)))
    requires h2 == ApplyWrites(h, Writes(l, vals, ElemTargets(l, pl, i, ElemCount(l, i))))
    ensures EncodedPrefix(g, h2, l, pl, vals, i + 1)
  {
    var a, b := FieldTargets(l, pl, i), ElemTargets(l, pl, i, ElemCount(l, i));
    assert FieldTargets(l, pl, i + 1) == a + b;
    ApplyTargetsAppend(g, l, vals, a, b);
  }

  /** Fill the decode buffer of element e of field i (`decode_arr`), position by position. */
  method ReadElement(l: Layout, pl: Placement, grid: array<bool>, i: nat, e: nat) returns (buf: seq<bool>)
    requires LayoutOk(l) && PlacementFits(l, pl) && Placeable(l, pl) && grid.Length == Product(pl.shape)
    requires i < |l.fields| && e < ElemCount(l, i)
    ensures buf == ReadBuffer(grid[..], l, pl, i, e)
  {
    var decodeArr := new bool[BitCount(l, i)];
    var p := 0;
    while p < BitCount(l, i)
      invariant p <= BitCount(l, i)
      invariant forall q :: 0 <= q < p ==> decodeArr[q] == ReadBit(grid[..], l, pl, i, e, q)
    {
      var info := InfoAt(l, i, p);
      match info.pos {
        case Loc(_) =>
          decodeArr[p] := info.invert != grid[Flatten(CoordOf(l, pl, i, e, p), pl.shape)];
        case Bool(b) =>
          decodeArr[p] := info.invert != b;
      }
      p := p + 1;
    }
    buf := decodeArr[..];
  }

  /** Decode the elements of field i in order; the first error is returned. */
  method DecodeField(l: Layout, pl: Placement, grid: array<bool>, i: nat) returns (r: Result<seq<nat>, DecodeError>)
    requires LayoutOk(l) && PlacementFits(l, pl) && Placeable(l, pl) && grid.Length == Product(pl.shape)
    requires i < |l.fields|
    ensures r == DecodeElems(grid[..], l, pl, i)
  {
    ghost var rs := ElemResults(grid[..], l, pl, i);
    var ks: seq<nat> := [];
    var e := 0;
    while e < ElemCount(l, i)
      invariant e <= ElemCount(l, i)
      invariant Collect(rs[..e]) == Ok(ks)
    {
      var buf := ReadElement(l, pl, grid, i, e);
      var d := Decode(l.fields[i].table, buf);
      assert rs[e] == d;
      CollectStep(rs, e);
      if d.Err? {
        CollectErrSticks(rs, e + 1);
        return Err(d.error);
      }
      ks := ks + [d.value];
      e := e + 1;
    }
    assert rs[..e] == rs;
    r := Ok(ks);
  }

  /**
   * The generated `decode`: fields in declaration order, each decoded from
   * the grid; the first error is returned.
   */
  method DecodeFragment(l: Layout, pl: Placement, grid: array<bool>) returns (r: Result<seq<seq<nat>>, DecodeError>)
    requires LayoutOk(l) && PlacementFits(l, pl) && Placeable(l, pl) && grid.Length == Product(pl.shape)
    ensures r == Decoded(grid[..], l, pl)
  {
    ghost var rs := FieldResults(grid[..], l, pl);
    var vs: seq<seq<nat>> := [];
    var i := 0;
    while i < |l.fields|
      invariant i <= |l.fields|
      invariant Collect(rs[..i]) == Ok(vs)
    {
      var d := DecodeField(l, pl, grid, i);
      assert rs[i] == d;
      CollectStep(rs, i);
      if d.Err? {
        CollectErrSticks(rs, i + 1);
        return Err(d.error);
      }
      vs := vs + [d.value];
      i := i + 1;
    }
    assert rs[..i] == rs;
    r := Ok(vs);
  }

  // ---------------------------------------------------------------------
  // Disjointness from the layout alone
  // ---------------------------------------------------------------------

  /** Targets are produced in (field, element, position) order. */
  predicate Before(a: Target, b: Target)
  {
    a.field < b.field || (a.field == b.field && (a.elem < b.elem || (a.elem == b.elem && a.pos < b.pos)))
  }

  predicate SortedTargets(ts: seq<Target>)
  {
    forall j, k :: 0 <= j < k < |ts| ==> Before(ts[j], ts[k])
  }

  lemma SortedAppend(a: seq<Target>, b: seq<Target>)
    requires SortedTargets(a) && SortedTargets(b)
    requires forall x, y :: x in a && y in b ==> Before(x, y)
    ensures SortedTargets(a + b)
  {
    forall j, k | 0 <= j < k < |a + b| ensures Before((a + b)[j], (a + b)[k]) {
      if k < |a| {
        assert (a + b)[j] == a[j] && (a + b)[k] == a[k];
      } else if j >= |a| {
        assert (a + b)[j] == b[j - |a|] && (a + b)[k] == b[k - |a|];
      } else {
        assert (a + b)[j] in a && (a + b)[k] in b;
      }
    }
  }

  lemma {:induction false} PosTargetsSorted(l: Layout, pl: Placement, i: nat, e: nat, n: nat)
    requires LayoutOk(l) && PlacementFits(l, pl) && i < |l.fields| && e < ElemCount(l, i) && n <= BitCount(l, i)
    ensures SortedTargets(PosTargets(l, pl, i, e, n))
  {
    if n > 0 {
      var a := PosTargets(l, pl, i, e, n - 1);
      var b := if InfoAt(l, i, n - 1).pos.Loc? then [TargetAt(l, pl, i, e, n - 1)] else [];
      assert SortedTargets(a) by { PosTargetsSorted(l, pl, i, e, n - 1); }
      assert forall x, y :: x in a && y in b ==> Before(x, y) by { PosTargetsIndices(l, pl, i, e, n - 1); }
      SortedAppend(a, b);
    }
  }

  lemma {:induction false} ElemTargetsSorted(l: Layout, pl: Placement, i: nat, m: nat)
    requires LayoutOk(l) && PlacementFits(l, pl) && i < |l.fields| && m <= ElemCount(l, i)
    ensures SortedTargets(ElemTargets(l, pl, i, m))
  {
    if m > 0 {
      var a, b := ElemTargets(l, pl, i, m - 1), PosTargets(l, pl, i, m - 1, BitCount(l, i));
      assert SortedTargets(a) by { ElemTargetsSorted(l, pl, i, m - 1); }
      assert SortedTargets(b) by { PosTargetsSorted(l, pl, i, m - 1, BitCount(l, i)); }
      assert forall x, y :: x in a && y in b ==> Before(x, y) by {
        ElemTargetsIndices(l, pl, i, m - 1);
        PosTargetsIndices(l, pl, i, m - 1, BitCount(l, i));
      }
      SortedAppend(a, b);
    }
  }

  lemma {:induction false} FieldTargetsSorted(l: Layout, pl: Placement, n: nat)
    requires LayoutOk(l) && PlacementFits(l, pl) && n <= |l.fields|
    ensures SortedTargets(FieldTargets(l, pl, n))
  {
    if n > 0 {
      var a, b := FieldTargets(l, pl, n - 1), ElemTargets(l, pl, n - 1, ElemCount(l, n - 1));
      assert SortedTargets(a) by { FieldTargetsSorted(l, pl, n - 1); }
      assert SortedTargets(b) by { ElemTargetsSorted(l, pl, n - 1, ElemCount(l, n - 1)); }
      assert forall x, y :: x in a && y in b ==> Before(x, y) by {
        FieldTargetsIndices(l, pl, n - 1);
        ElemTargetsIndices(l, pl, n - 1, ElemCount(l, n - 1));
      }
      SortedAppend(a, b);
    }
  }

  /** Two distinct located bits of a placeable, locally injective layout occupy distinct cells. */
  lemma CellsDiffer(l: Layout, pl: Placement, a: Target, b: Target)
    requires LayoutOk(l) && PlacementFits(l, pl) && Placeable(l, pl) && LocalInjective(l)
    requires IsTargetOf(l, pl, a) && IsTargetOf(l, pl, b)
    requires a.field != b.field || a.elem != b.elem || a.pos != b.pos
    ensures a.cell != b.cell
  {
    var la, lb := LocalPos(l, a.field, a.elem, a.pos), LocalPos(l, b.field, b.elem, b.pos);
    var ca, cb := CoordOf(l, pl, a.field, a.elem, a.pos), CoordOf(l, pl, b.field, b.elem, b.pos);
    assert ca == Resolve(pl.offset, pl.mirror, la) && cb == Resolve(pl.offset, pl.mirror, lb);
    assert la != lb;
    assert ca != cb by {
      if ca == cb {
        ResolveInjective(pl.offset, pl.mirror, la, lb);
      }
    }
    assert Flatten(ca, pl.shape) != Flatten(cb, pl.shape) by {
      if Flatten(ca, pl.shape) == Flatten(cb, pl.shape) {
        FlattenInjective(ca, cb, pl.shape);
      }
    }
  }

  /**
   * Disjointness needs no computation over placements: when distinct
   * located bits have distinct local positions, they occupy distinct cells
   * at every placement that fits the grid.
   */
  lemma DisjointFromLocal(l: Layout, pl: Placement)
    requires LayoutOk(l) && PlacementFits(l, pl) && Placeable(l, pl) && LocalInjective(l)
    ensures DisjointCells(l, pl)
  {
    var ts := Targets(l, pl);
    TargetsShape(l, pl);
    FieldTargetsSorted(l, pl, |l.fields|);
    forall j, k | 0 <= j < k < |ts| ensures ts[j].cell != ts[k].cell {
      assert ts[j] in ts && ts[k] in ts;
      assert Before(ts[j], ts[k]);
      CellsDiffer(l, pl, ts[j], ts[k]);
    }
  }
}
