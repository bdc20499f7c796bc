/**
 * Schema resolution of the `#[bitfragment]` attribute macro: position
 * expressions of `#[pat_bits]`, the attribute list of one field, the
 * fragment-level settings and the gathering of fields into the resolved
 * schema from which encode/decode are generated.  Tokens are modelled as an
 * abstract expression tree and attribute list; a type is modelled by its
 * token text.
 */
module Schema {
  import opened BitPattern

  /** Largest `isize` / `usize` of a 64-bit target. */
  const ISIZE_MAX: int := 0x7FFF_FFFF_FFFF_FFFF
  const USIZE_MAX: int := 0xFFFF_FFFF_FFFF_FFFF

  /**
   * Errors that end the macro at once: a `?` on a failed literal parse, an
   * `abort!`, or a panic of the code generator.
   */
  datatype MacroError =
    | LitOutOfRange
    | EmptyPatBits
    | MissingDimensions
    | NotStructOrEnum
    | UnitStruct
    | MissingPatBits(field: string)

  /** A position expression as written in `#[pat_bits(name = expr, ...)]`. */
  datatype PosExpr =
    | BoolLit(b: bool)
    | IntLit(value: nat)
    | Tuple(elems: seq<PosExpr>)
    | Not(operand: PosExpr)
    | Paren(inner: PosExpr)
    | OtherExpr

  /** Where a pattern bit lives: a grid location or a constant. */
  datatype PatBitPos = Loc(coords: seq<int>) | Bool(value: bool)

  datatype PatBitInfo = PatBitInfo(invert: bool, pos: PatBitPos)

  // ---------------------------------------------------------------------
  // parse_pat_bits_expr
  // ---------------------------------------------------------------------

  /**
   * The meaning of a position expression: the recoverable-error flag and the
   * bit info, or a hard error when an integer literal does not fit `isize`.
   */
  function PatBitsOf(e: PosExpr): Result<(bool, PatBitInfo), MacroError>
  {
    match e
    case BoolLit(b) => Ok((false, PatBitInfo(false, Bool(b))))
    case IntLit(n) =>
      if n <= ISIZE_MAX then Ok((false, PatBitInfo(false, Loc([n])))) else Err(LitOutOfRange)
    case Tuple(es) =>
      (match TupleOffs(es)
       case Err(x) => Err(x)
       case Ok((bad, offs)) => Ok((bad, PatBitInfo(false, Loc(offs)))))
    case Not(x) =>
      (match PatBitsOf(x)
       case Err(err) => Err(err)
       case Ok((bad, info)) => Ok((bad, PatBitInfo(!info.invert, info.pos))))
    case Paren(x) => PatBitsOf(x)
    case OtherExpr => Ok((true, PatBitInfo(false, Bool(false))))
  }

  /** The tuple loop: integer elements are collected, any other element is flagged. */
  function TupleOffs(es: seq<PosExpr>): Result<(bool, seq<int>), MacroError>
  {
    if |es| == 0 then Ok((false, []))
    else
      match TupleOffs(es[..|es| - 1])
      case Err(x) => Err(x)
      case Ok((bad, offs)) =>
        match es[|es| - 1]
        case IntLit(n) => if n <= ISIZE_MAX then Ok((bad, offs + [n])) else Err(LitOutOfRange)
        case _ => Ok((true, offs))
  }

  /** Some integer literal the parser reads does not fit `isize`. */
  predicate HasOverflow(e: PosExpr)
  {
    match e
    case BoolLit(_) => false
    case IntLit(n) => n > ISIZE_MAX
    case Tuple(es) => exists i :: 0 <= i < |es| && es[i].IntLit? && es[i].value > ISIZE_MAX
    case Not(x) => HasOverflow(x)
    case Paren(x) => HasOverflow(x)
    case OtherExpr => false
  }

  /** The expression, or a tuple element, is not one of the accepted forms. */
  predicate HasInvalidForm(e: PosExpr)
  {
    match e
    case BoolLit(_) => false
    case IntLit(_) => false
    case Tuple(es) => exists i :: 0 <= i < |es| && !es[i].IntLit?
    case Not(x) => HasInvalidForm(x)
    case Paren(x) => HasInvalidForm(x)
    case OtherExpr => true
  }

  /** Number of `!` operators above the innermost non-`!`, non-paren form. */
  function Inversions(e: PosExpr): nat
  {
    match e
    case Not(x) => 1 + Inversions(x)
    case Paren(x) => Inversions(x)
    case _ => 0
  }

  /** The integer elements of a tuple, in order. */
  function IntsOf(es: seq<PosExpr>): seq<int>
  {
    if |es| == 0 then []
    else (if es[0].IntLit? then [es[0].value as int] else []) + IntsOf(es[1..])
  }

  /** The position an expression denotes once `!` and parentheses are peeled off. */
  function BasePos(e: PosExpr): PatBitPos
  {
    match e
    case BoolLit(b) => Bool(b)
    case IntLit(n) => Loc([n])
    case Tuple(es) => Loc(IntsOf(es))
    case Not(x) => BasePos(x)
    case Paren(x) => BasePos(x)
    case OtherExpr => Bool(false)
  }

  lemma {:induction false} IntsOfSnoc(es: seq<PosExpr>, x: PosExpr)
    ensures IntsOf(es + [x]) == IntsOf(es) + (if x.IntLit? then [x.value as int] else [])
    decreases |es|
  {
    if |es| > 0 {
      assert (es + [x])[1..] == es[1..] + [x];
      IntsOfSnoc(es[1..], x);
    } else {
      assert IntsOf([x][1..]) == [];
    }
  }

  /** The tuple loop fails iff some element overflows; otherwise it flags the non-integers and keeps the integers. */
  lemma {:induction false} TupleOffsMeaning(es: seq<PosExpr>)
    ensures TupleOffs(es).Err? <==> exists i :: 0 <= i < |es| && es[i].IntLit? && es[i].value > ISIZE_MAX
    ensures TupleOffs(es).Err? ==> TupleOffs(es).error == LitOutOfRange
    ensures TupleOffs(es).Ok? ==>
      && TupleOffs(es).value.0 == (exists i :: 0 <= i < |es| && !es[i].IntLit?)
      && TupleOffs(es).value.1 == IntsOf(es)
    decreases |es|
  {
    if |es| > 0 {
      var init, last := es[..|es| - 1], es[|es| - 1];
      assert es == init + [last];
      TupleOffsMeaning(init);
      IntsOfSnoc(init, last);
      forall i | 0 <= i < |init| ensures init[i] == es[i] { }
    }
  }

  /**
   * What `parse_pat_bits_expr` computes: a hard error iff an integer literal
   * overflows `isize`; otherwise the error flag is set iff some form is
   * invalid, the bit is inverted iff an odd number of `!` wrap it, and the
   * position is the one denoted by the innermost form.
   */
  lemma {:induction false} PatBitsMeaning(e: PosExpr)
    ensures PatBitsOf(e).Err? <==> HasOverflow(e)
    ensures PatBitsOf(e).Ok? ==>
      && PatBitsOf(e).value.0 == HasInvalidForm(e)
      && PatBitsOf(e).value.1.invert == (Inversions(e) % 2 == 1)
      && PatBitsOf(e).value.1.pos == BasePos(e)
  {
    match e
    case BoolLit(_) =>
    case IntLit(_) =>
    case Tuple(es) => TupleOffsMeaning(es);
    case Not(x) => PatBitsMeaning(x);
    case Paren(x) => PatBitsMeaning(x);
    case OtherExpr =>
  }

  /** `!!e` resolves exactly as `e`, and parentheses are transparent. */
  lemma DoubleNegation(e: PosExpr)
    ensures PatBitsOf(Not(Not(e))) == PatBitsOf(e)
    ensures PatBitsOf(Paren(e)) == PatBitsOf(e)
  {
  }

  /** A tuple of in-range integer literals is the location with those coordinates, without error. */
  lemma {:induction false} TupleOfInts(xs: seq<nat>)
    requires forall i :: 0 <= i < |xs| ==> xs[i] <= ISIZE_MAX
    ensures PatBitsOf(Tuple(seq(|xs|, i requires 0 <= i < |xs| => IntLit(xs[i])))) == Ok((false, PatBitInfo(false, Loc(xs))))
    decreases |xs|
  {
    var es := seq(|xs|, i requires 0 <= i < |xs| => IntLit(xs[i]));
    TupleOffsMeaning(es);
    IntsOfLits(xs);
  }

  lemma {:induction false} IntsOfLits(xs: seq<nat>)
    ensures IntsOf(seq(|xs|, i requires 0 <= i < |xs| => IntLit(xs[i]))) == xs
    decreases |xs|
  {
    if |xs| > 0 {
      var es := seq(|xs|, i requires 0 <= i < |xs| => IntLit(xs[i]));
      assert es[1..] == seq(|xs[1..]|, i requires 0 <= i < |xs[1..]| => IntLit(xs[1..][i]));
      IntsOfLits(xs[1..]);
      assert xs == [xs[0]] + xs[1..];
    }
  }

  /**
   * `parse_pat_bits_expr`: structural recursion, with a loop collecting the
   * integer elements of a tuple.
   */
  method ParsePatBitsExpr(e: PosExpr) returns (r: Result<(bool, PatBitInfo), MacroError>)
    ensures r == PatBitsOf(e)
  {
    var errorsOccurred := false;
    match e {
      case BoolLit(b) =>
        r := Ok((errorsOccurred, PatBitInfo(false, Bool(b))));
      case IntLit(n) =>
        if n > ISIZE_MAX {
          return Err(LitOutOfRange);
        }
        r := Ok((errorsOccurred, PatBitInfo(false, Loc([n]))));
      case Tuple(es) =>
        var offs: seq<int> := [];
        var i := 0;
        while i < |es|
          invariant 0 <= i <= |es|
          invariant TupleOffs(es[..i]) == Ok((errorsOccurred, offs))
        {
          assert es[..i + 1][..i] == es[..i];
          if es[i].IntLit? {
            if es[i].value > ISIZE_MAX {
              assert es[i].IntLit? && es[i].value > ISIZE_MAX;
              TupleOffsMeaning(es);
              return Err(LitOutOfRange);
            }
            offs := offs + [es[i].value];
          } else {
            errorsOccurred := true;
          }
          i := i + 1;
        }
        assert es[..i] == es;
        r := Ok((errorsOccurred, PatBitInfo(false, Loc(offs))));
      case Not(x) =>
        var inner := ParsePatBitsExpr(x);
        if inner.Err? {
          return Err(inner.error);
        }
        var (innerErrors, innerInfo) := inner.value;
        if innerErrors {
          errorsOccurred := true;
        }
        r := Ok((errorsOccurred, PatBitInfo(!innerInfo.invert, innerInfo.pos)));
      case Paren(x) =>
        var inner := ParsePatBitsExpr(x);
        if inner.Err? {
          return Err(inner.error);
        }
        var (innerErrors, innerInfo) := inner.value;
        if innerErrors {
          errorsOccurred := true;
        }
        r := Ok((errorsOccurred, innerInfo));
      case OtherExpr =>
        errorsOccurred := true;
        r := Ok((errorsOccurred, PatBitInfo(false, Bool(false))));
    }
  }

  // ---------------------------------------------------------------------
  // parse_attrs: the argument loop of one #[pat_bits]
  // ---------------------------------------------------------------------

  /**
   * One argument of `#[pat_bits]`.  A bit named by an identifier and one
   * named by a string literal are handled alike, so one case covers both.
   */
  datatype PatBitsArg =
    | FragVariant(ty: string)
    | PatVariant(ty: string)
    | BitPos(name: string, expr: PosExpr)

  /** State of the argument loop: error flag, frag_variant, pat_variant, bit map. */
  datatype ArgsState = ArgsState(errors: bool, fragVar: Option<string>, patVar: Option<string>, bits: map<string, PatBitInfo>)

  const NoArgs := ArgsState(false, None, None, map[])

  /** A location whose number of coordinates differs from the fragment's dimensions. */
  predicate DimMismatch(info: PatBitInfo, idxDims: nat)
  {
    info.pos.Loc? && |info.pos.coords| != idxDims
  }

  function ArgStep(s: ArgsState, a: PatBitsArg, idxDims: nat): Result<ArgsState, MacroError>
  {
    match a
    case FragVariant(t) => Ok(s.(errors := s.errors || s.fragVar.Some?, fragVar := Some(t)))
    case PatVariant(t) => Ok(s.(errors := s.errors || s.patVar.Some?, patVar := Some(t)))
    case BitPos(name, e) =>
      match PatBitsOf(e)
      case Err(x) => Err(x)
      case Ok((bad, info)) =>
        Ok(s.(errors := s.errors || name in s.bits || bad || DimMismatch(info, idxDims),
              bits := s.bits[name := info]))
  }

  /** The argument loop, processing the arguments in order. */
  function ArgsFold(args: seq<PatBitsArg>, idxDims: nat): Result<ArgsState, MacroError>
  {
    if |args| == 0 then Ok(NoArgs)
    else
      match ArgsFold(args[..|args| - 1], idxDims)
      case Err(x) => Err(x)
      case Ok(s) => ArgStep(s, args[|args| - 1], idxDims)
  }

  /** Two arguments that may not both appear in one `#[pat_bits]`. */
  predicate Clash(a: PatBitsArg, b: PatBitsArg)
  {
    || (a.FragVariant? && b.FragVariant?)
    || (a.PatVariant? && b.PatVariant?)
    || (a.BitPos? && b.BitPos? && a.name == b.name)
  }

  /** A bit position that parses without error and has the fragment's dimension. */
  predicate CleanEntry(e: PosExpr, idxDims: nat)
  {
    PatBitsOf(e).Ok? && !PatBitsOf(e).value.0 && !DimMismatch(PatBitsOf(e).value.1, idxDims)
  }

  /** Arguments the loop accepts without raising the error flag. */
  predicate CleanArgs(args: seq<PatBitsArg>, idxDims: nat)
  {
    && (forall i :: 0 <= i < |args| && args[i].BitPos? ==> CleanEntry(args[i].expr, idxDims))
    && (forall i, j :: 0 <= i < j < |args| ==> !Clash(args[i], args[j]))
  }

  /** Some bit position of the list hits a hard error. */
  predicate ArgsOverflow(args: seq<PatBitsArg>)
  {
    exists i :: 0 <= i < |args| && args[i].BitPos? && PatBitsOf(args[i].expr).Err?
  }

  /** The loop fails iff some position overflows `isize`, and then with that error. */
  lemma {:induction false} ArgsFoldFails(args: seq<PatBitsArg>, idxDims: nat)
    ensures ArgsFold(args, idxDims).Err? <==> ArgsOverflow(args)
    ensures ArgsFold(args, idxDims).Err? ==> ArgsFold(args, idxDims).error == LitOutOfRange
    decreases |args|
  {
    if |args| > 0 {
      var init, last := args[..|args| - 1], args[|args| - 1];
      ArgsFoldFails(init, idxDims);
      forall i | 0 <= i < |init| ensures init[i] == args[i] { }
      if last.BitPos? {
        PatBitsErrorIsParseError(last.expr);
      }
    }
  }

  /**
   * What a successful loop leaves behind: frag_variant / pat_variant are set
   * iff given, and the map's keys are exactly the bit names given.
   */
  lemma {:induction false} ArgsFoldKeys(args: seq<PatBitsArg>, idxDims: nat)
    requires ArgsFold(args, idxDims).Ok?
    ensures var s := ArgsFold(args, idxDims).value;
      && (s.fragVar.Some? <==> exists i :: 0 <= i < |args| && args[i].FragVariant?)
      && (s.patVar.Some? <==> exists i :: 0 <= i < |args| && args[i].PatVariant?)
      && (forall name :: name in s.bits <==> exists i :: 0 <= i < |args| && args[i].BitPos? && args[i].name == name)
    decreases |args|
  {
    if |args| > 0 {
      var init := args[..|args| - 1];
      ArgsFoldKeys(init, idxDims);
      forall i | 0 <= i < |init| ensures init[i] == args[i] { }
    }
  }

  /** Each bit name maps to the position given by its last entry. */
  lemma {:induction false} ArgsFoldLastWins(args: seq<PatBitsArg>, idxDims: nat, i: nat)
    requires ArgsFold(args, idxDims).Ok?
    requires i < |args| && args[i].BitPos? && LastEntry(args, i)
    ensures PatBitsOf(args[i].expr).Ok?
    ensures var s := ArgsFold(args, idxDims).value;
      args[i].name in s.bits && s.bits[args[i].name] == PatBitsOf(args[i].expr).value.1
    decreases |args|
  {
    var init, last := args[..|args| - 1], args[|args| - 1];
    if i < |init| {
      assert init[i] == args[i];
      assert LastEntry(init, i) by {
        forall j | i < j < |init| ensures !(init[j].BitPos? && init[j].name == init[i].name) {
          assert init[j] == args[j];
        }
      }
      ArgsFoldLastWins(init, idxDims, i);
      assert !(last.BitPos? && last.name == args[i].name);
    }
  }

  /** No later bit entry names the same bit as entry i. */
  predicate LastEntry(args: seq<PatBitsArg>, i: nat)
    requires i < |args| && args[i].BitPos?
  {
    forall j :: i < j < |args| ==> !(args[j].BitPos? && args[j].name == args[i].name)
  }

  /**
   * The error flag of one `#[pat_bits]` stays clear exactly when no bit is
   * named twice, no frag_variant or pat_variant is repeated, and every
   * position is valid and has the fragment's number of dimensions (a
   * constant `true`/`false` has no dimension to check).
   */
  lemma {:induction false} ArgsCleanIff(args: seq<PatBitsArg>, idxDims: nat)
    ensures (ArgsFold(args, idxDims).Ok? && !ArgsFold(args, idxDims).value.errors) <==> CleanArgs(args, idxDims)
    decreases |args|
  {
    if |args| > 0 {
      var init, last := args[..|args| - 1], args[|args| - 1];
      ArgsCleanIff(init, idxDims);
      forall i | 0 <= i < |init| ensures init[i] == args[i] { }
      if CleanArgs(args, idxDims) {
        assert CleanArgs(init, idxDims);
        ArgsFoldKeys(init, idxDims);
        assert forall i :: 0 <= i < |init| ==> !Clash(init[i], last);
      }
      if ArgsFold(args, idxDims).Ok? && !ArgsFold(args, idxDims).value.errors {
        ArgsFoldKeys(init, idxDims);
        var s := ArgsFold(init, idxDims).value;

        forall i, j | 0 <= i < j < |args| ensures !Clash(args[i], args[j]) {
          if j == |args| - 1 {
            assert init[i] == args[i];
            assert args[i].FragVariant? ==> s.fragVar.Some?;
            assert args[i].PatVariant? ==> s.patVar.Some?;
            assert args[i].BitPos? ==> args[i].name in s.bits;
          }
        }
      }
    }
  }

  /** A bit named twice in one `#[pat_bits]` raises the error flag. */
  lemma DuplicateBitFlagged(args: seq<PatBitsArg>, idxDims: nat, i: nat, j: nat)
    requires i < j < |args| && args[i].BitPos? && args[j].BitPos? && args[i].name == args[j].name
    requires ArgsFold(args, idxDims).Ok?
    ensures ArgsFold(args, idxDims).value.errors
  {
    ArgsCleanIff(args, idxDims);
    assert Clash(args[i], args[j]);
  }

  /** A location of the wrong dimension raises the error flag; a constant never does. */
  lemma DimensionChecked(args: seq<PatBitsArg>, idxDims: nat, i: nat)
    requires i < |args| && args[i].BitPos? && PatBitsOf(args[i].expr).Ok?
    requires DimMismatch(PatBitsOf(args[i].expr).value.1, idxDims)
    requires ArgsFold(args, idxDims).Ok?
    ensures ArgsFold(args, idxDims).value.errors
    ensures PatBitsOf(args[i].expr).value.1.pos.Loc?
  {
    ArgsCleanIff(args, idxDims);
  }

  /** The argument loop over the parsed `#[pat_bits]` arguments. */
  method ParsePatBitsArgs(args: seq<PatBitsArg>, idxDims: nat) returns (r: Result<ArgsState, MacroError>)
    ensures r == ArgsFold(args, idxDims)
  {
    var errorsOccurred := false;
    var maybeFragVar: Option<string> := None;
    var maybePatVar: Option<string> := None;
    var maybePatbits: map<string, PatBitInfo> := map[];
    var i := 0;
    while i < |args|
      invariant 0 <= i <= |args|
      invariant ArgsFold(args[..i], idxDims) == Ok(ArgsState(errorsOccurred, maybeFragVar, maybePatVar, maybePatbits))
    {
      assert args[..i + 1][..i] == args[..i];
      match args[i] {
        case FragVariant(t) =>
          if maybeFragVar.Some? {
            errorsOccurred := true;
          }
          maybeFragVar := Some(t);
        case PatVariant(t) =>
          if maybePatVar.Some? {
            errorsOccurred := true;
          }
          maybePatVar := Some(t);
        case BitPos(name, e) =>
          if name in maybePatbits {
            errorsOccurred := true;
          }
          var parsed := ParsePatBitsExpr(e);
          if parsed.Err? {
            assert args[i].BitPos? && PatBitsOf(args[i].expr).Err?;
            ArgsFoldFails(args, idxDims);
            PatBitsErrorIsParseError(e);
            return Err(parsed.error);
          }
          var (bitInfoError, bitInfo) := parsed.value;
          if bitInfoError {
            errorsOccurred := true;
          }
          if bitInfo.pos.Loc? && |bitInfo.pos.coords| != idxDims {
            errorsOccurred := true;
          }
          maybePatbits := maybePatbits[name := bitInfo];
      }
      i := i + 1;
    }
    assert args[..i] == args;
    r := Ok(ArgsState(errorsOccurred, maybeFragVar, maybePatVar, maybePatbits));
  }

  lemma {:induction false} PatBitsErrorIsParseError(e: PosExpr)
    ensures PatBitsOf(e).Err? ==> PatBitsOf(e).error == LitOutOfRange
  {
    match e
    case Tuple(es) => TupleOffsMeaning(es);
    case Not(x) => PatBitsErrorIsParseError(x);
    case Paren(x) => PatBitsErrorIsParseError(x);
    case _ =>
  }

  // ---------------------------------------------------------------------
  // parse_attrs: the attribute list of one field
  // ---------------------------------------------------------------------

  /**
   * An attribute of a field (or of the enum): a doc line, a `#[pat_bits]`
   * with its arguments, or anything else, which is ignored.
   */
  datatype Attribute = Doc(text: string) | PatBits(args: seq<PatBitsArg>) | OtherAttr

  datatype ParsedAttrs = ParsedAttrs(errors: bool, docs: string, patbits: Option<map<string, PatBitInfo>>, patvar: Option<string>)

  const NoAttrs := ParsedAttrs(false, "", None, None)

  /** Characters with the Unicode White_Space property, which `str::trim` removes. */
  predicate IsWhitespace(c: char)
  {
    var n := c as int;
    || (0x09 <= n <= 0x0D) || n == 0x20 || n == 0x85 || n == 0xA0 || n == 0x1680
    || (0x2000 <= n <= 0x200A) || n == 0x2028 || n == 0x2029 || n == 0x202F
    || n == 0x205F || n == 0x3000
  }

  predicate AllWhitespace(s: string)
  {
    forall i :: 0 <= i < |s| ==> IsWhitespace(s[i])
  }

  function LeadingWhitespace(s: string): (n: nat)
    ensures n <= |s| && AllWhitespace(s[..n]) && (n < |s| ==> !IsWhitespace(s[n]))
  {
    if |s| == 0 || !IsWhitespace(s[0]) then 0
    else
      var n := 1 + LeadingWhitespace(s[1..]);
      assert forall i :: 1 <= i < n ==> s[..n][i] == s[1..][..n - 1][i - 1];
      n
  }

  function TrailingWhitespace(s: string): (n: nat)
    ensures n <= |s| && AllWhitespace(s[|s| - n..]) && (n < |s| ==> !IsWhitespace(s[|s| - n - 1]))
  {
    if |s| == 0 || !IsWhitespace(s[|s| - 1]) then 0
    else
      var init := s[..|s| - 1];
      var n := 1 + TrailingWhitespace(init);
      assert s[|s| - n..] == init[|init| - (n - 1)..] + [s[|s| - 1]];
      n
  }

  /** `str::trim`: the slice of `s` left after removing leading and trailing whitespace. */
  function Trim(s: string): (r: string)
  {
    var l := LeadingWhitespace(s);
    if l == |s| then [] else s[l..][..|s[l..]| - TrailingWhitespace(s[l..])]
  }

  /** `r` sits at offset `i` of `s` with only whitespace before and after it. */
  predicate PaddedAt(s: string, i: int, r: string)
  {
    0 <= i <= |s| - |r| && s[i..i + |r|] == r && AllWhitespace(s[..i]) && AllWhitespace(s[i + |r|..])
  }

  /** The trimmed string is a slice of `s` with only whitespace around it. */
  lemma TrimSlice(s: string)
    ensures exists i :: PaddedAt(s, i, Trim(s))
  {
    var l := LeadingWhitespace(s);
    if l == |s| {
      assert PaddedAt(s, 0, Trim(s)) by {
        assert s[..0] == [] && s[0..] == s[..l];
      }
    } else {
      var rest := s[l..];
      var t := TrailingWhitespace(rest);
      var r := rest[..|rest| - t];
      assert Trim(s) == r;
      assert PaddedAt(s, l, r) by {
        assert s[l..l + |r|] == r;
        assert s[l + |r|..] == rest[|rest| - t..];
      }
    }
  }

  /** The trimmed string neither starts nor ends with whitespace. */
  lemma TrimEnds(s: string)
    ensures var r := Trim(s);
      |r| > 0 ==> !IsWhitespace(r[0]) && !IsWhitespace(r[|r| - 1])
  {
    var l := LeadingWhitespace(s);
    if l < |s| {
      var rest := s[l..];
      var t := TrailingWhitespace(rest);
      assert t < |rest| by {
        assert !IsWhitespace(rest[0]);
      }
      var r := rest[..|rest| - t];
      assert Trim(s) == r;
      assert r[0] == s[l];
      assert r[|r| - 1] == rest[|rest| - t - 1];
    }
  }

  /** `docs.push_str(" ")` when docs is not empty, then the trimmed line. */
  function AppendDoc(docs: string, line: string): string
  {
    (if |docs| != 0 then docs + " " else docs) + Trim(line)
  }

  /**
   * A `#[pat_bits]` applies to the layout being generated iff neither names a
   * variant, or both do and the names are equal.
   */
  predicate Selected(fragVar: Option<string>, encodeVariant: Option<string>)
  {
    || (fragVar.None? && encodeVariant.None?)
    || (fragVar.Some? && encodeVariant.Some? && fragVar.value == encodeVariant.value)
  }

  /** Selection is equality of the two optional variant names. */
  lemma SelectedIffEqual(fragVar: Option<string>, encodeVariant: Option<string>)
    ensures Selected(fragVar, encodeVariant) <==> fragVar == encodeVariant
  {
  }

  /**
   * One attribute of `parse_attrs`. A `#[pat_bits]` is parsed with
   * `parse_separated_nonempty`, so an empty argument list is a parse error.
   */
  function AttrStep(p: ParsedAttrs, a: Attribute, encodeVariant: Option<string>, idxDims: nat): Result<ParsedAttrs, MacroError>
  {
    match a
    case Doc(text) => Ok(p.(docs := AppendDoc(p.docs, text)))
    case OtherAttr => Ok(p)
    case PatBits(args) =>
      if |args| == 0 then Err(EmptyPatBits)
      else
        match ArgsFold(args, idxDims)
        case Err(x) => Err(x)
        case Ok(s) =>
          if Selected(s.fragVar, encodeVariant) then
            Ok(ParsedAttrs(p.errors || s.errors || p.patbits.Some?, p.docs, Some(s.bits), s.patVar))
          else
            Ok(p.(errors := p.errors || s.errors))
  }

  /** `parse_attrs`: the attributes processed in order. */
  function AttrsFold(attrs: seq<Attribute>, encodeVariant: Option<string>, idxDims: nat): Result<ParsedAttrs, MacroError>
  {
    if |attrs| == 0 then Ok(NoAttrs)
    else
      match AttrsFold(attrs[..|attrs| - 1], encodeVariant, idxDims)
      case Err(x) => Err(x)
      case Ok(p) => AttrStep(p, attrs[|attrs| - 1], encodeVariant, idxDims)
  }

  /** The attribute is a well-formed `#[pat_bits]` selected for the layout being generated. */
  predicate SelectedAttr(a: Attribute, encodeVariant: Option<string>, idxDims: nat)
  {
    && a.PatBits?
    && |a.args| > 0
    && ArgsFold(a.args, idxDims).Ok?
    && Selected(ArgsFold(a.args, idxDims).value.fragVar, encodeVariant)
  }

  /** Processing more attributes never clears the error flag or a selection. */
  lemma {:induction false} AttrsFoldPrefix(attrs: seq<Attribute>, encodeVariant: Option<string>, idxDims: nat, k: nat)
    requires k <= |attrs| && AttrsFold(attrs, encodeVariant, idxDims).Ok?
    ensures AttrsFold(attrs[..k], encodeVariant, idxDims).Ok?
    ensures AttrsFold(attrs[..k], encodeVariant, idxDims).value.errors ==> AttrsFold(attrs, encodeVariant, idxDims).value.errors
    ensures AttrsFold(attrs[..k], encodeVariant, idxDims).value.patbits.Some? ==> AttrsFold(attrs, encodeVariant, idxDims).value.patbits.Some?
    decreases |attrs|
  {
    if k < |attrs| {
      var init := attrs[..|attrs| - 1];
      assert init[..k] == attrs[..k];
      AttrsFoldPrefix(init, encodeVariant, idxDims, k);
    } else {
      assert attrs[..k] == attrs;
    }
  }

  /** `parse_attrs` keeps a bit map iff some `#[pat_bits]` is selected. */
  lemma {:induction false} AttrsSelection(attrs: seq<Attribute>, encodeVariant: Option<string>, idxDims: nat)
    requires AttrsFold(attrs, encodeVariant, idxDims).Ok?
    ensures AttrsFold(attrs, encodeVariant, idxDims).value.patbits.Some? <==>
      exists i :: 0 <= i < |attrs| && SelectedAttr(attrs[i], encodeVariant, idxDims)
    decreases |attrs|
  {
    if |attrs| > 0 {
      var n := |attrs| - 1;
      var init, a := attrs[..n], attrs[n];
      assert AttrsFold(init, encodeVariant, idxDims).Ok?;
      var p, q := AttrsFold(init, encodeVariant, idxDims).value, AttrsFold(attrs, encodeVariant, idxDims).value;
      assert q.patbits.Some? <==> p.patbits.Some? || SelectedAttr(attrs[n], encodeVariant, idxDims) by {
        assert AttrsFold(attrs, encodeVariant, idxDims) == AttrStep(p, a, encodeVariant, idxDims);
        StepSelection(p, a, encodeVariant, idxDims);
      }
      assert p.patbits.Some? <==> exists i :: 0 <= i < n && SelectedAttr(attrs[i], encodeVariant, idxDims) by {
        AttrsSelection(init, encodeVariant, idxDims);
        forall i | 0 <= i < n ensures SelectedAttr(init[i], encodeVariant, idxDims) == SelectedAttr(attrs[i], encodeVariant, idxDims) {
          assert init[i] == attrs[i];
        }
      }
      if q.patbits.Some? {
        if SelectedAttr(attrs[n], encodeVariant, idxDims) {
          assert 0 <= n < |attrs| && SelectedAttr(attrs[n], encodeVariant, idxDims);
        } else {
          var k :| 0 <= k < n && SelectedAttr(attrs[k], encodeVariant, idxDims);
          assert 0 <= k < |attrs| && SelectedAttr(attrs[k], encodeVariant, idxDims);
        }
      } else {
        forall i | 0 <= i < |attrs| ensures !SelectedAttr(attrs[i], encodeVariant, idxDims) {
          if i == n {
            assert !SelectedAttr(attrs[n], encodeVariant, idxDims);
          }
        }
      }
    }
  }

  /** The last attribute's step: a selected one installs its map and variant, any other keeps them. */
  lemma AttrsFoldLast(attrs: seq<Attribute>, encodeVariant: Option<string>, idxDims: nat)
    requires |attrs| > 0 && AttrsFold(attrs, encodeVariant, idxDims).Ok?
    ensures AttrsFold(attrs[..|attrs| - 1], encodeVariant, idxDims).Ok?
    ensures var a, p, r := attrs[|attrs| - 1], AttrsFold(attrs[..|attrs| - 1], encodeVariant, idxDims).value, AttrsFold(attrs, encodeVariant, idxDims).value;
      && (SelectedAttr(a, encodeVariant, idxDims) ==>
            r.patbits == Some(ArgsFold(a.args, idxDims).value.bits) && r.patvar == ArgsFold(a.args, idxDims).value.patVar)
      && (!SelectedAttr(a, encodeVariant, idxDims) ==> r.patbits == p.patbits && r.patvar == p.patvar)
  {
    var n := |attrs| - 1;
    assert AttrsFold(attrs[..n], encodeVariant, idxDims).Ok?;
    StepSelection(AttrsFold(attrs[..n], encodeVariant, idxDims).value, attrs[n], encodeVariant, idxDims);
  }

  /** The bit map and pat_variant kept are those of the last selected `#[pat_bits]`. */
  lemma {:induction false} AttrsLastSelected(attrs: seq<Attribute>, encodeVariant: Option<string>, idxDims: nat, i: nat)
    requires AttrsFold(attrs, encodeVariant, idxDims).Ok?
    requires i < |attrs| && SelectedAttr(attrs[i], encodeVariant, idxDims)
    requires forall j :: i < j < |attrs| ==> !SelectedAttr(attrs[j], encodeVariant, idxDims)
    ensures AttrsFold(attrs, encodeVariant, idxDims).value.patbits == Some(ArgsFold(attrs[i].args, idxDims).value.bits)
    ensures AttrsFold(attrs, encodeVariant, idxDims).value.patvar == ArgsFold(attrs[i].args, idxDims).value.patVar
    decreases |attrs|
  {
    var n := |attrs| - 1;
    var init := attrs[..n];
    AttrsFoldLast(attrs, encodeVariant, idxDims);
    if i < n {
      assert init[i] == attrs[i];
      forall j | i < j < n ensures !SelectedAttr(init[j], encodeVariant, idxDims) {
        assert init[j] == attrs[j];
      }
      AttrsLastSelected(init, encodeVariant, idxDims, i);
    }
  }

  /** One attribute step: it keeps a bit map iff it had one or the attribute is selected. */
  lemma StepSelection(p: ParsedAttrs, a: Attribute, encodeVariant: Option<string>, idxDims: nat)
    requires AttrStep(p, a, encodeVariant, idxDims).Ok?
    ensures var sel := SelectedAttr(a, encodeVariant, idxDims);
      && (AttrStep(p, a, encodeVariant, idxDims).value.patbits.Some? <==> p.patbits.Some? || sel)
      && (p.errors ==> AttrStep(p, a, encodeVariant, idxDims).value.errors)
      && (sel && p.patbits.Some? ==> AttrStep(p, a, encodeVariant, idxDims).value.errors)
      && (sel ==>
            && AttrStep(p, a, encodeVariant, idxDims).value.patbits == Some(ArgsFold(a.args, idxDims).value.bits)
            && AttrStep(p, a, encodeVariant, idxDims).value.patvar == ArgsFold(a.args, idxDims).value.patVar)
      && (!sel ==>
            && AttrStep(p, a, encodeVariant, idxDims).value.patbits == p.patbits
            && AttrStep(p, a, encodeVariant, idxDims).value.patvar == p.patvar)
  {
  }

  /** Two `#[pat_bits]` selected for the same layout raise the error flag. */
  lemma TwoSelectedFlagged(attrs: seq<Attribute>, encodeVariant: Option<string>, idxDims: nat, i: nat, j: nat)
    requires i < j < |attrs| && AttrsFold(attrs, encodeVariant, idxDims).Ok?
    requires SelectedAttr(attrs[i], encodeVariant, idxDims) && SelectedAttr(attrs[j], encodeVariant, idxDims)
    ensures AttrsFold(attrs, encodeVariant, idxDims).value.errors
  {
    AttrsFoldPrefix(attrs, encodeVariant, idxDims, j + 1);
    var upto := attrs[..j + 1];
    var before := attrs[..j];
    assert upto[..j] == before && upto[j] == attrs[j];
    assert AttrsFold(upto, encodeVariant, idxDims) == AttrStep(AttrsFold(before, encodeVariant, idxDims).value, attrs[j], encodeVariant, idxDims);
    AttrsSelection(before, encodeVariant, idxDims);
    assert before[i] == attrs[i];
    assert SelectedAttr(before[i], encodeVariant, idxDims);
    StepSelection(AttrsFold(before, encodeVariant, idxDims).value, attrs[j], encodeVariant, idxDims);
  }

  /** An error flagged inside any `#[pat_bits]`, selected or not, is an error of the field. */
  lemma ArgErrorsPropagate(attrs: seq<Attribute>, encodeVariant: Option<string>, idxDims: nat, i: nat)
    requires i < |attrs| && AttrsFold(attrs, encodeVariant, idxDims).Ok?
    requires attrs[i].PatBits? && ArgsFold(attrs[i].args, idxDims).Ok? && ArgsFold(attrs[i].args, idxDims).value.errors
    ensures AttrsFold(attrs, encodeVariant, idxDims).value.errors
  {
    AttrsFoldPrefix(attrs, encodeVariant, idxDims, i + 1);
    assert attrs[..i + 1][..i] == attrs[..i];
  }

  // ---------------------------------------------------------------------
  // The doc string of a field
  // ---------------------------------------------------------------------

  /** The trimmed doc lines, in order. */
  function DocLines(attrs: seq<Attribute>): seq<string>
  {
    if |attrs| == 0 then []
    else DocLines(attrs[..|attrs| - 1]) + (if attrs[|attrs| - 1].Doc? then [Trim(attrs[|attrs| - 1].text)] else [])
  }

  /** Lines joined with one space between neighbours. */
  function SpaceJoin(lines: seq<string>): string
  {
    if |lines| == 0 then ""
    else if |lines| == 1 then lines[0]
    else SpaceJoin(lines[..|lines| - 1]) + " " + lines[|lines| - 1]
  }

  /** The lines from the first non-empty one on. */
  function DropLeadingEmpty(lines: seq<string>): (r: seq<string>)
    ensures |r| > 0 ==> r[0] != ""
  {
    if |lines| == 0 then []
    else if lines[0] == "" then DropLeadingEmpty(lines[1..])
    else lines
  }

  lemma {:induction false} DropLeadingEmptySnoc(lines: seq<string>, x: string)
    ensures DropLeadingEmpty(lines + [x]) ==
      if DropLeadingEmpty(lines) == [] then DropLeadingEmpty([x]) else DropLeadingEmpty(lines) + [x]
    decreases |lines|
  {
    if |lines| > 0 {
      assert (lines + [x])[0] == lines[0];
      assert (lines + [x])[1..] == lines[1..] + [x];
      DropLeadingEmptySnoc(lines[1..], x);
    }
  }

  lemma {:induction false} SpaceJoinNonEmpty(lines: seq<string>)
    requires |lines| > 0 && lines[0] != ""
    ensures SpaceJoin(lines) != ""
    decreases |lines|
  {
    if |lines| > 1 {
      SpaceJoinNonEmpty(lines[..|lines| - 1]);
    }
  }

  /**
   * The doc string of a field: its doc lines, trimmed, joined by single
   * spaces, where the separator is only added once the string is non-empty;
   * so leading blank lines vanish and an inner blank line gives two spaces.
   */
  lemma {:induction false} DocsJoined(attrs: seq<Attribute>, encodeVariant: Option<string>, idxDims: nat)
    requires AttrsFold(attrs, encodeVariant, idxDims).Ok?
    ensures AttrsFold(attrs, encodeVariant, idxDims).value.docs == SpaceJoin(DropLeadingEmpty(DocLines(attrs)))
    decreases |attrs|
  {
    if |attrs| > 0 {
      var init, last := attrs[..|attrs| - 1], attrs[|attrs| - 1];
      DocsJoined(init, encodeVariant, idxDims);
      if last.Doc? {
        var ls := DocLines(init);
        var t := Trim(last.text);
        assert DocLines(attrs) == ls + [t];
        DropLeadingEmptySnoc(ls, t);
        assert [t][1..] == [];
        if DropLeadingEmpty(ls) != [] {
          SpaceJoinNonEmpty(DropLeadingEmpty(ls));
          var d := DropLeadingEmpty(ls) + [t];
          assert d[..|d| - 1] == DropLeadingEmpty(ls);
          assert SpaceJoin(d) == SpaceJoin(DropLeadingEmpty(ls)) + " " + t;
        } else {
          assert DropLeadingEmpty(ls + [t]) == DropLeadingEmpty([t]);
        }
      } else {
        assert DocLines(attrs) == DocLines(init);
      }
    }
  }

  /**
   * `parse_attrs`: the attribute loop, with the argument loop of each
   * `#[pat_bits]` in ParsePatBitsArgs.  Attribute removal is not modelled.
   */
  method ParseAttrs(attrs: seq<Attribute>, encodeVariant: Option<string>, idxDims: nat) returns (r: Result<ParsedAttrs, MacroError>)
    ensures r == AttrsFold(attrs, encodeVariant, idxDims)
  {
    var errorsOccurred := false;
    var docs := "";
    var patbits: Option<map<string, PatBitInfo>> := None;
    var patvar: Option<string> := None;
    var i := 0;
    while i < |attrs|
      invariant 0 <= i <= |attrs|
      invariant AttrsFold(attrs[..i], encodeVariant, idxDims) == Ok(ParsedAttrs(errorsOccurred, docs, patbits, patvar))
    {
      ghost var before := ParsedAttrs(errorsOccurred, docs, patbits, patvar);
      assert attrs[..i + 1][..i] == attrs[..i];
      assert AttrsFold(attrs[..i + 1], encodeVariant, idxDims) == AttrStep(before, attrs[i], encodeVariant, idxDims);
      match attrs[i] {
        case Doc(text) =>
          if |docs| != 0 {
            docs := docs + " ";
          }
          docs := docs + Trim(text);
        case OtherAttr =>
        case PatBits(args) =>
          if |args| == 0 {
            AttrsFoldFails(attrs, encodeVariant, idxDims, i);
            return Err(EmptyPatBits);
          }
          var parsed := ParsePatBitsArgs(args, idxDims);
          if parsed.Err? {
            AttrsFoldFails(attrs, encodeVariant, idxDims, i);
            return Err(parsed.error);
          }
          var st := parsed.value;
          if st.errors {
            errorsOccurred := true;
          }
          if Selected(st.fragVar, encodeVariant) {
            if patbits.Some? {
              errorsOccurred := true;
            }
            patbits := Some(st.bits);
            patvar := st.patVar;
          }
      }
      assert AttrStep(before, attrs[i], encodeVariant, idxDims) == Ok(ParsedAttrs(errorsOccurred, docs, patbits, patvar));
      i := i + 1;
    }
    assert attrs[..i] == attrs;
    r := Ok(ParsedAttrs(errorsOccurred, docs, patbits, patvar));
  }

  /** A hard error at attribute i is the result of the whole fold. */
  lemma {:induction false} AttrsFoldFails(attrs: seq<Attribute>, encodeVariant: Option<string>, idxDims: nat, i: nat)
    requires i < |attrs| && AttrsFold(attrs[..i], encodeVariant, idxDims).Ok?
    requires AttrStep(AttrsFold(attrs[..i], encodeVariant, idxDims).value, attrs[i], encodeVariant, idxDims).Err?
    ensures AttrsFold(attrs, encodeVariant, idxDims) == AttrStep(AttrsFold(attrs[..i], encodeVariant, idxDims).value, attrs[i], encodeVariant, idxDims)
    decreases |attrs|
  {
    if i + 1 < |attrs| {
      var init := attrs[..|attrs| - 1];
      assert init[..i] == attrs[..i] && init[i] == attrs[i];
      AttrsFoldFails(init, encodeVariant, idxDims, i);
    } else {
      assert attrs[..|attrs| - 1] == attrs[..i];
    }
  }

  // ---------------------------------------------------------------------
  // #[bitfragment(...)] settings
  // ---------------------------------------------------------------------

  /** One setting of `#[bitfragment(errtype = T, variant = V, dimensions = N)]`. */
  datatype FragmentSetting = ErrTypeArg(ty: string) | VariantArg(ty: string) | DimensionsArg(lit: nat)

  datatype Settings = Settings(errors: bool, errType: Option<string>, variant: Option<string>, dims: Option<nat>)

  const NoSettings := Settings(false, None, None, None)

  function SettingStep(st: Settings, a: FragmentSetting): Settings
  {
    match a
    case ErrTypeArg(t) => st.(errors := st.errors || st.errType.Some?, errType := Some(t))
    case VariantArg(t) => st.(errors := st.errors || st.variant.Some?, variant := Some(t))
    case DimensionsArg(n) => st.(errors := st.errors || st.dims.Some?, dims := Some(n))
  }

  /** The settings loop, in order. */
  function SettingsFold(args: seq<FragmentSetting>): Settings
  {
    if |args| == 0 then NoSettings else SettingStep(SettingsFold(args[..|args| - 1]), args[|args| - 1])
  }

  predicate SameKind(a: FragmentSetting, b: FragmentSetting)
  {
    (a.ErrTypeArg? && b.ErrTypeArg?) || (a.VariantArg? && b.VariantArg?) || (a.DimensionsArg? && b.DimensionsArg?)
  }

  /** The last setting's step: errors stay, and one more is flagged when its kind was already set. */
  lemma SettingsFoldLast(args: seq<FragmentSetting>)
    requires |args| > 0
    ensures var st, last := SettingsFold(args[..|args| - 1]), args[|args| - 1];
      && SettingsFold(args).errors == (st.errors || (last.ErrTypeArg? && st.errType.Some?) || (last.VariantArg? && st.variant.Some?) || (last.DimensionsArg? && st.dims.Some?))
      && SettingsFold(args).errType == (if last.ErrTypeArg? then Some(last.ty) else st.errType)
      && SettingsFold(args).variant == (if last.VariantArg? then Some(last.ty) else st.variant)
      && SettingsFold(args).dims == (if last.DimensionsArg? then Some(last.lit) else st.dims)
  {
  }

  /** Each setting is present iff it was given. */
  lemma {:induction false} SettingsPresence(args: seq<FragmentSetting>)
    ensures SettingsFold(args).dims.Some? <==> exists i :: 0 <= i < |args| && args[i].DimensionsArg?
    ensures SettingsFold(args).errType.Some? <==> exists i :: 0 <= i < |args| && args[i].ErrTypeArg?
    ensures SettingsFold(args).variant.Some? <==> exists i :: 0 <= i < |args| && args[i].VariantArg?
    decreases |args|
  {
    if |args| > 0 {
      var n := |args| - 1;
      var init := args[..n];
      SettingsPresence(init);
      SettingsFoldLast(args);
      assert forall i :: 0 <= i < n ==> init[i] == args[i];
    }
  }

  /** Each setting holds the last value given for it. */
  lemma {:induction false} SettingsLastValue(args: seq<FragmentSetting>, i: nat)
    requires i < |args|
    ensures args[i].DimensionsArg? && (forall j :: i < j < |args| ==> !args[j].DimensionsArg?) ==> SettingsFold(args).dims == Some(args[i].lit)
    ensures args[i].ErrTypeArg? && (forall j :: i < j < |args| ==> !args[j].ErrTypeArg?) ==> SettingsFold(args).errType == Some(args[i].ty)
    ensures args[i].VariantArg? && (forall j :: i < j < |args| ==> !args[j].VariantArg?) ==> SettingsFold(args).variant == Some(args[i].ty)
    decreases |args|
  {
    var n := |args| - 1;
    var init := args[..n];
    SettingsFoldLast(args);
    if i < n {
      assert init[i] == args[i];
      assert forall j :: i < j < n ==> init[j] == args[j];
      SettingsLastValue(init, i);
    }
  }

  /** The settings loop flags an error iff some kind of setting is repeated. */
  lemma {:induction false} SettingsErrors(args: seq<FragmentSetting>)
    ensures SettingsFold(args).errors <==> exists i, j :: 0 <= i < j < |args| && SameKind(args[i], args[j])
    decreases |args|
  {
    if |args| > 0 {
      var n := |args| - 1;
      var init, last := args[..n], args[n];
      SettingsErrors(init);
      SettingsPresence(init);
      SettingsFoldLast(args);
      assert forall i :: 0 <= i < n ==> init[i] == args[i];
      var st := SettingsFold(init);
      var repeated := (last.ErrTypeArg? && st.errType.Some?) || (last.VariantArg? && st.variant.Some?) || (last.DimensionsArg? && st.dims.Some?);
      assert repeated <==> exists i :: 0 <= i < n && SameKind(args[i], last) by {
        if repeated {
          var i :| 0 <= i < n && SameKind(init[i], last);
          assert SameKind(args[i], last);
        }
        if exists i :: 0 <= i < n && SameKind(args[i], last) {
          var i :| 0 <= i < n && SameKind(args[i], last);
          assert init[i] == args[i];
        }
      }
      if SettingsFold(args).errors {
        if st.errors {
          var i, j :| 0 <= i < j < n && SameKind(init[i], init[j]);
          assert 0 <= i < j < |args| && SameKind(args[i], args[j]);
        } else {
          var i :| 0 <= i < n && SameKind(args[i], last);
          assert 0 <= i < n < |args| && SameKind(args[i], args[n]);
        }
      } else {
        forall i, j | 0 <= i < j < |args| ensures !SameKind(args[i], args[j]) {
          if j < n {
            assert init[i] == args[i] && init[j] == args[j];
          }
        }
      }
    }
  }

  /** The settings loop of `bitfragment`. */
  method ProcessSettings(args: seq<FragmentSetting>) returns (st: Settings)
    ensures st == SettingsFold(args)
  {
    var errtype: Option<string> := None;
    var encodeVariant: Option<string> := None;
    var idxDims: Option<nat> := None;
    var errorsOccurred := false;
    var i := 0;
    while i < |args|
      invariant 0 <= i <= |args|
      invariant SettingsFold(args[..i]) == Settings(errorsOccurred, errtype, encodeVariant, idxDims)
    {
      assert args[..i + 1][..i] == args[..i];
      match args[i] {
        case ErrTypeArg(t) =>
          if errtype.Some? {
            errorsOccurred := true;
          }
          errtype := Some(t);
        case VariantArg(t) =>
          if encodeVariant.Some? {
            errorsOccurred := true;
          }
          encodeVariant := Some(t);
        case DimensionsArg(n) =>
          if idxDims.Some? {
            errorsOccurred := true;
          }
          idxDims := Some(n);
      }
      i := i + 1;
    }
    assert args[..i] == args;
    st := Settings(errorsOccurred, errtype, encodeVariant, idxDims);
  }

  // ---------------------------------------------------------------------
  // Gathering fields: the resolved schema
  // ---------------------------------------------------------------------

  datatype NamedField = NamedField(ident: string, attrs: seq<Attribute>)

  datatype Fields = Named(named: seq<NamedField>) | Unnamed(unnamed: seq<seq<Attribute>>) | UnitFields

  /** The item the macro is attached to. */
  datatype Item = EnumItem(ident: string, attrs: seq<Attribute>) | StructItem(ident: string, fields: Fields) | OtherItem

  datatype FieldMode = Enum | NamedStruct | UnnamedStruct

  datatype FieldType = Pattern | Fragment | PatternArray | FragmentArray

  datatype FieldInfo = FieldInfo(name: string, docs: string, kind: FieldType, patbits: Option<map<string, PatBitInfo>>, patvar: Option<string>)

  /** `usize` for one dimension, `[usize; N]` otherwise. */
  datatype IndexingType = Scalar | IndexArray(dims: nat)

  /** A field whose selected `#[pat_bits]` was found. */
  datatype ResolvedField = ResolvedField(name: string, docs: string, kind: FieldType, bits: map<string, PatBitInfo>, patvar: Option<string>)

  /** What the generated `impl BitFragment<variant>` is made from. */
  datatype ResolvedSchema = ResolvedSchema(
    ident: string, mode: FieldMode, variant: Option<string>, errType: Option<string>,
    idxDims: nat, indexing: IndexingType, fields: seq<ResolvedField>)

  /** The macro's output: an impl, the input alone (recoverable errors), or a hard failure. */
  datatype Expansion = Generated(schema: ResolvedSchema) | Unchanged | Failed(error: MacroError)

  function Digit(d: nat): char
    requires d < 10
  {
    "0123456789"[d]
  }

  /** `usize::to_string`: the decimal digits of n, most significant first. */
  function NatToString(n: nat): (s: string)
    ensures |s| > 0 && forall i :: 0 <= i < |s| ==> '0' <= s[i] <= '9'
  {
    if n < 10 then [Digit(n)] else NatToString(n / 10) + [Digit(n % 10)]
  }

  /** The value of a string of decimal digits. */
  function DecimalValue(s: string): nat
    requires forall i :: 0 <= i < |s| ==> '0' <= s[i] <= '9'
  {
    if |s| == 0 then 0 else 10 * DecimalValue(s[..|s| - 1]) + (s[|s| - 1] as int - '0' as int)
  }

  /** The name of an unnamed field reads back as its index, so distinct fields get distinct names. */
  lemma {:induction false} DecimalRoundTrip(n: nat)
    ensures DecimalValue(NatToString(n)) == n
  {
    if n >= 10 {
      var s := NatToString(n);
      assert s[..|s| - 1] == NatToString(n / 10);
      DecimalRoundTrip(n / 10);
    }
  }

  /** Declared names and attributes of the fields of a struct. */
  function FieldEntries(fs: Fields): seq<(string, seq<Attribute>)>
  {
    match fs
    case Named(named) => seq(|named|, i requires 0 <= i < |named| => (named[i].ident, named[i].attrs))
    case Unnamed(unnamed) => seq(|unnamed|, i requires 0 <= i < |unnamed| => (NatToString(i), unnamed[i]))
    case UnitFields => []
  }

  /** The field table built from one field's parsed attributes; the field type is always Pattern. */
  function InfoOf(name: string, p: ParsedAttrs): FieldInfo
  {
    FieldInfo(name, p.docs, Pattern, p.patbits, p.patvar)
  }

  /** The field loop: each field's attributes parsed in order, errors accumulated. */
  function GatherFields(entries: seq<(string, seq<Attribute>)>, encodeVariant: Option<string>, idxDims: nat): Result<(bool, seq<FieldInfo>), MacroError>
  {
    if |entries| == 0 then Ok((false, []))
    else
      match GatherFields(entries[..|entries| - 1], encodeVariant, idxDims)
      case Err(x) => Err(x)
      case Ok((errs, infos)) =>
        var (name, attrs) := entries[|entries| - 1];
        match AttrsFold(attrs, encodeVariant, idxDims)
        case Err(x) => Err(x)
        case Ok(p) => Ok((errs || p.errors, infos + [InfoOf(name, p)]))
  }

  /** Code generation unwraps each field's bit map in order; the first missing one panics. */
  function ResolveFields(infos: seq<FieldInfo>): Result<seq<ResolvedField>, MacroError>
  {
    if |infos| == 0 then Ok([])
    else if infos[0].patbits.None? then Err(MissingPatBits(infos[0].name))
    else
      match ResolveFields(infos[1..])
      case Err(x) => Err(x)
      case Ok(rest) => Ok([Resolved(infos[0])] + rest)
  }

  function Resolved(f: FieldInfo): ResolvedField
    requires f.patbits.Some?
  {
    ResolvedField(f.name, f.docs, f.kind, f.patbits.value, f.patvar)
  }

  function IndexingTypeOf(idxDims: nat): IndexingType
  {
    if idxDims == 1 then Scalar else IndexArray(idxDims)
  }

  /** After the fields are gathered: bail out on errors, otherwise generate. */
  function Finish(st: Settings, idxDims: nat, ident: string, mode: FieldMode, errs: bool, infos: seq<FieldInfo>): Expansion
  {
    if st.errors || errs then Unchanged
    else
      match ResolveFields(infos)
      case Err(x) => Failed(x)
      case Ok(fields) => Generated(ResolvedSchema(ident, mode, st.variant, st.errType, idxDims, IndexingTypeOf(idxDims), fields))
  }

  /** The whole macro: settings, then the item's attributes, then generation. */
  function Expand(args: seq<FragmentSetting>, item: Item): Expansion
  {
    var st := SettingsFold(args);
    if st.dims.None? then Failed(MissingDimensions)
    else if st.dims.value > USIZE_MAX then Failed(LitOutOfRange)
    else
      var d := st.dims.value;
      match item
      case OtherItem => Failed(NotStructOrEnum)
      case EnumItem(ident, attrs) =>
        (match AttrsFold(attrs, st.variant, d)
         case Err(x) => Failed(x)
         case Ok(p) => Finish(st, d, ident, Enum, p.errors, [InfoOf(ident, p)]))
      case StructItem(ident, fs) =>
        if fs.UnitFields? then Failed(UnitStruct)
        else
          match GatherFields(FieldEntries(fs), st.variant, d)
          case Err(x) => Failed(x)
          case Ok((errs, infos)) => Finish(st, d, ident, if fs.Named? then NamedStruct else UnnamedStruct, errs, infos)
  }

  /** Number of fields of the item: one for an enum. */
  function ItemFieldCount(item: Item): nat
  {
    match item
    case EnumItem(_, _) => 1
    case StructItem(_, fs) => |FieldEntries(fs)|
    case OtherItem => 0
  }

  /** Declared name and attributes of field i of the item. */
  function ItemField(item: Item, i: nat): (string, seq<Attribute>)
    requires i < ItemFieldCount(item)
  {
    match item
    case EnumItem(ident, attrs) => (ident, attrs)
    case StructItem(_, fs) => FieldEntries(fs)[i]
  }

  /** `fieldname(i)` of the generated impl. */
  function FieldName(s: ResolvedSchema, i: nat): string
    requires i < |s.fields|
  {
    s.fields[i].name
  }

  /** `fielddesc(i)` of the generated impl. */
  function FieldDesc(s: ResolvedSchema, i: nat): string
    requires i < |s.fields|
  {
    s.fields[i].docs
  }

  /** `fieldtype(i)` of the generated impl. */
  function FieldTypeAt(s: ResolvedSchema, i: nat): FieldType
    requires i < |s.fields|
  {
    s.fields[i].kind
  }

  lemma {:induction false} GatherFieldsMeaning(entries: seq<(string, seq<Attribute>)>, encodeVariant: Option<string>, idxDims: nat)
    requires GatherFields(entries, encodeVariant, idxDims).Ok?
    ensures var (errs, infos) := GatherFields(entries, encodeVariant, idxDims).value;
      && |infos| == |entries|
      && forall i :: 0 <= i < |entries| ==>
           && AttrsFold(entries[i].1, encodeVariant, idxDims).Ok?
           && infos[i] == InfoOf(entries[i].0, AttrsFold(entries[i].1, encodeVariant, idxDims).value)
           && (AttrsFold(entries[i].1, encodeVariant, idxDims).value.errors ==> errs)
    decreases |entries|
  {
    if |entries| > 0 {
      var init := entries[..|entries| - 1];
      GatherFieldsMeaning(init, encodeVariant, idxDims);
      forall i | 0 <= i < |init| ensures init[i] == entries[i] { }
    }
  }

  lemma {:induction false} ResolveFieldsMeaning(infos: seq<FieldInfo>)
    ensures ResolveFields(infos).Ok? <==> forall i :: 0 <= i < |infos| ==> infos[i].patbits.Some?
    ensures ResolveFields(infos).Ok? ==>
      && |ResolveFields(infos).value| == |infos|
      && forall i :: 0 <= i < |infos| ==> infos[i].patbits.Some? && ResolveFields(infos).value[i] == Resolved(infos[i])
    ensures forall i :: 0 <= i < |infos| && infos[i].patbits.None? && (forall k :: 0 <= k < i ==> infos[k].patbits.Some?) ==>
      ResolveFields(infos) == Err(MissingPatBits(infos[i].name))
    decreases |infos|
  {
    if |infos| > 0 {
      ResolveFieldsMeaning(infos[1..]);
      forall i | 1 <= i < |infos| ensures infos[1..][i - 1] == infos[i] { }
    }
  }

  /**
   * The generated impl's field tables: FIELD_COUNT is the number of fields
   * (one for an enum); fieldname(i) is the declared name, the enum's name,
   * or the decimal index of an unnamed field; fielddesc(i) is the field's
   * joined doc string; fieldtype(i) is Pattern; the bit map is the field's
   * selected `#[pat_bits]`.
   */
  lemma ExpandFieldTables(args: seq<FragmentSetting>, item: Item)
    requires Expand(args, item).Generated?
    ensures var s := Expand(args, item).schema;
      && |s.fields| == ItemFieldCount(item)
      && forall i :: 0 <= i < |s.fields| ==>
           var (name, attrs) := ItemField(item, i);
           && FieldName(s, i) == name
           && AttrsFold(attrs, s.variant, s.idxDims).Ok?
           && FieldDesc(s, i) == SpaceJoin(DropLeadingEmpty(DocLines(attrs)))
           && FieldTypeAt(s, i) == Pattern
           && Some(s.fields[i].bits) == AttrsFold(attrs, s.variant, s.idxDims).value.patbits
  {
    var st := SettingsFold(args);
    var d := st.dims.value;
    match item
    case EnumItem(ident, attrs) =>
      var p := AttrsFold(attrs, st.variant, d).value;
      ResolveFieldsMeaning([InfoOf(ident, p)]);
      DocsJoined(attrs, st.variant, d);
    case StructItem(ident, fs) =>
      var entries := FieldEntries(fs);
      GatherFieldsMeaning(entries, st.variant, d);
      var infos := GatherFields(entries, st.variant, d).value.1;
      ResolveFieldsMeaning(infos);
      forall i | 0 <= i < |entries| ensures AttrsFold(entries[i].1, st.variant, d).Ok? &&
          AttrsFold(entries[i].1, st.variant, d).value.docs == SpaceJoin(DropLeadingEmpty(DocLines(entries[i].1))) {
        DocsJoined(entries[i].1, st.variant, d);
      }
  }

  /** An unnamed struct's field i is named by the decimal digits of i. */
  lemma UnnamedFieldNames(args: seq<FragmentSetting>, ident: string, unnamed: seq<seq<Attribute>>, i: nat)
    requires Expand(args, StructItem(ident, Unnamed(unnamed))).Generated?
    requires i < |unnamed|
    ensures var s := Expand(args, StructItem(ident, Unnamed(unnamed))).schema;
      i < |s.fields| && FieldName(s, i) == NatToString(i) && DecimalValue(FieldName(s, i)) == i
  {
    ExpandFieldTables(args, StructItem(ident, Unnamed(unnamed)));
    DecimalRoundTrip(i);
  }

  /**
   * Settings as the generated impl sees them: generation happens only with
   * no setting repeated and no field flagged; IDX_DIMS is the dimensions
   * given, the indexing type is a scalar iff it is 1, and every field's
   * bit map was selected for the requested variant.
   */
  lemma ExpandSettings(args: seq<FragmentSetting>, item: Item)
    requires Expand(args, item).Generated?
    ensures var s := Expand(args, item).schema;
      && !SettingsFold(args).errors
      && SettingsFold(args).dims == Some(s.idxDims)
      && s.variant == SettingsFold(args).variant
      && (s.indexing == Scalar <==> s.idxDims == 1)
      && (s.indexing.IndexArray? ==> s.indexing.dims == s.idxDims)
      && forall i :: 0 <= i < ItemFieldCount(item) ==>
           AttrsFold(ItemField(item, i).1, s.variant, s.idxDims).Ok? && !AttrsFold(ItemField(item, i).1, s.variant, s.idxDims).value.errors
  {
    var st := SettingsFold(args);
    var d := st.dims.value;
    match item
    case EnumItem(ident, attrs) =>
    case StructItem(ident, fs) =>
      GatherFieldsMeaning(FieldEntries(fs), st.variant, d);
  }

  /** Without a `dimensions` setting the macro aborts. */
  lemma MissingDimensionsAborts(args: seq<FragmentSetting>, item: Item)
    requires forall i :: 0 <= i < |args| ==> !args[i].DimensionsArg?
    ensures Expand(args, item) == Failed(MissingDimensions)
  {
    SettingsPresence(args);
  }

  /** A repeated setting stops generation: the input comes back unchanged, or the macro fails. */
  lemma RepeatedSettingBlocks(args: seq<FragmentSetting>, item: Item, i: nat, j: nat)
    requires i < j < |args| && SameKind(args[i], args[j])
    ensures !Expand(args, item).Generated?
  {
    SettingsErrors(args);
    if Expand(args, item).Generated? {
      ExpandSettings(args, item);
    }
  }

  /**
   * `bitfragment`: the settings loop, the attribute parsing of the enum or of
   * each struct field, then code generation, which unwraps every field's bit
   * map in declaration order.
   */
  method Bitfragment(args: seq<FragmentSetting>, item: Item) returns (out: Expansion)
    ensures out == Expand(args, item)
  {
    var st := ProcessSettings(args);
    if st.dims.None? {
      return Failed(MissingDimensions);
    }
    if st.dims.value > USIZE_MAX {
      return Failed(LitOutOfRange);
    }
    var idxDims := st.dims.value;
    var errorsOccurred := st.errors;
    var ident: string;
    var mode: FieldMode;
    var infos: seq<FieldInfo>;
    match item {
      case OtherItem =>
        return Failed(NotStructOrEnum);
      case EnumItem(id, attrs) =>
        var parsed := ParseAttrs(attrs, st.variant, idxDims);
        if parsed.Err? {
          return Failed(parsed.error);
        }
        if parsed.value.errors {
          errorsOccurred := true;
        }
        ident, mode := id, Enum;
        infos := [InfoOf(id, parsed.value)];
      case StructItem(id, fs) =>
        if fs.UnitFields? {
          return Failed(UnitStruct);
        }
        ident, mode := id, if fs.Named? then NamedStruct else UnnamedStruct;
        var gathered := ParseFields(FieldEntries(fs), st.variant, idxDims);
        if gathered.Err? {
          return Failed(gathered.error);
        }
        errorsOccurred := errorsOccurred || gathered.value.0;
        infos := gathered.value.1;
    }
    if errorsOccurred {
      return Unchanged;
    }
    var fields := ResolveAll(infos);
    if fields.Err? {
      return Failed(fields.error);
    }
    out := Generated(ResolvedSchema(ident, mode, st.variant, st.errType, idxDims, IndexingTypeOf(idxDims), fields.value));
  }

  /** The struct-field loop: every field's attributes in declaration order; a hard error ends it. */
  method ParseFields(entries: seq<(string, seq<Attribute>)>, encodeVariant: Option<string>, idxDims: nat)
    returns (r: Result<(bool, seq<FieldInfo>), MacroError>)
    ensures r == GatherFields(entries, encodeVariant, idxDims)
  {
    var fieldErrors := false;
    var infos: seq<FieldInfo> := [];
    var i := 0;
    while i < |entries|
      invariant 0 <= i <= |entries|
      invariant GatherFields(entries[..i], encodeVariant, idxDims) == Ok((fieldErrors, infos))
    {
      assert entries[..i + 1][..i] == entries[..i];
      var parsed := ParseAttrs(entries[i].1, encodeVariant, idxDims);
      if parsed.Err? {
        GatherFieldsFails(entries, encodeVariant, idxDims, i);
        return Err(parsed.error);
      }
      if parsed.value.errors {
        fieldErrors := true;
      }
      infos := infos + [InfoOf(entries[i].0, parsed.value)];
      i := i + 1;
    }
    assert entries[..i] == entries;
    r := Ok((fieldErrors, infos));
  }

  /** Code generation's field loop: unwrap every field's bit map, the first missing one panicking. */
  method ResolveAll(infos: seq<FieldInfo>) returns (r: Result<seq<ResolvedField>, MacroError>)
    ensures r == ResolveFields(infos)
  {
    ResolveFieldsMeaning(infos);
    var fields: seq<ResolvedField> := [];
    var k := 0;
    while k < |infos|
      invariant 0 <= k <= |infos|
      invariant |fields| == k
      invariant forall j :: 0 <= j < k ==> infos[j].patbits.Some? && fields[j] == Resolved(infos[j])
    {
      if infos[k].patbits.None? {
        assert forall j :: 0 <= j < k ==> infos[j].patbits.Some?;
        return Err(MissingPatBits(infos[k].name));
      }
      fields := fields + [Resolved(infos[k])];
      k := k + 1;
    }
    assert ResolveFields(infos).Ok?;
    assert ResolveFields(infos).value == fields;
    r := Ok(fields);
  }

  /** A hard error while parsing field i's attributes is the result of the field loop. */
  lemma {:induction false} GatherFieldsFails(entries: seq<(string, seq<Attribute>)>, encodeVariant: Option<string>, idxDims: nat, i: nat)
    requires i < |entries| && GatherFields(entries[..i], encodeVariant, idxDims).Ok?
    requires AttrsFold(entries[i].1, encodeVariant, idxDims).Err?
    ensures GatherFields(entries, encodeVariant, idxDims) == Err(AttrsFold(entries[i].1, encodeVariant, idxDims).error)
    decreases |entries|
  {
    if i + 1 < |entries| {
      var init := entries[..|entries| - 1];
      assert init[..i] == entries[..i] && init[i] == entries[i];
      GatherFieldsFails(init, encodeVariant, idxDims, i);
    } else {
      assert entries[..|entries| - 1] == entries[..i];
    }
  }
}
