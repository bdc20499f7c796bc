/**
 * `docs_as_ascii_table`: a pattern's variant table rendered as fixed-width
 * text.  One header line (the bit names in position order), one separator
 * line, then one line per variant: bit-string, name padded on the right to
 * the longest name, description.
 */
module PatternDocs {
  import opened BitPattern

  /** `n` copies of the character `c`. */
  function Repeat(c: char, n: nat): (r: string)
    ensures |r| == n && forall i :: 0 <= i < n ==> r[i] == c
  {
    seq(n, _ => c)
  }

  /** The longest length in `ss`, 0 for an empty list. */
  function MaxLen(ss: seq<string>): (m: nat)
    ensures forall i :: 0 <= i < |ss| ==> |ss[i]| <= m
    ensures |ss| == 0 ==> m == 0
    ensures |ss| > 0 ==> exists i :: 0 <= i < |ss| && |ss[i]| == m
  {
    if |ss| == 0 then 0
    else
      var m' := MaxLen(ss[..|ss| - 1]);
      if |ss[|ss| - 1]| > m' then |ss[|ss| - 1]| else m'
  }

  function Names(t: PatternTable): (r: seq<string>)
    ensures |r| == VariantCount(t) && forall i :: 0 <= i < |r| ==> r[i] == t.variants[i].name
  {
    seq(|t.variants|, i requires 0 <= i < |t.variants| => t.variants[i].name)
  }

  function Descs(t: PatternTable): (r: seq<string>)
    ensures |r| == VariantCount(t) && forall i :: 0 <= i < |r| ==> r[i] == t.variants[i].desc
  {
    seq(|t.variants|, i requires 0 <= i < |t.variants| => t.variants[i].desc)
  }

  /** The strings of `ss` one after another. */
  function Concat(ss: seq<string>): string
  {
    if |ss| == 0 then [] else Concat(ss[..|ss| - 1]) + ss[|ss| - 1]
  }

  /** Header: bit names, " | ", max_name_len spaces, " |\n". */
  function Header(t: PatternTable): string
  {
    Concat(t.bitNames) + " | " + Repeat(' ', MaxLen(Names(t))) + " |\n"
  }

  /** Separator: BITS_COUNT dashes, "-+-", name dashes, "-+-", description dashes, "\n". */
  function Separator(t: PatternTable): string
  {
    Repeat('-', BitsCount(t)) + "-+-" + Repeat('-', MaxLen(Names(t))) + "-+-" + Repeat('-', MaxLen(Descs(t))) + "\n"
  }

  /** The data line of variant i, its name padded with spaces to `width`. */
  function Row(v: Variant, width: nat): string
  {
    v.bits + " | " + v.name + Repeat(' ', Padding(|v.name|, width)) + " | " + v.desc + "\n"
  }

  /** The data lines of the first n variants, in index order. */
  function Rows(t: PatternTable, n: nat): string
    requires n <= VariantCount(t)
  {
    if n == 0 then [] else Rows(t, n - 1) + Row(t.variants[n - 1], MaxLen(Names(t)))
  }

  /** The whole rendered table. */
  function AsciiTable(t: PatternTable): string
  {
    Header(t) + Separator(t) + Rows(t, VariantCount(t))
  }

  /** Spaces after a name of length `len` in a column of `width`: `len..width`. */
  function Padding(len: nat, width: nat): nat
  {
    if len <= width then width - len else 0
  }

  /**
   * The renderer as the source runs it: two loops find the column widths,
   * then the text is appended piece by piece.
   */
  method DocsAsAsciiTable(t: PatternTable) returns (ret: string)
    ensures ret == AsciiTable(t)
  {
    var maxNameLen := MaxLenOf(Names(t));
    var maxDescLen := MaxLenOf(Descs(t));
    ret := AppendHeader("", t.bitNames, maxNameLen);
    assert ret == Header(t) by {
      assert "" + Header(t) == Header(t);
    }
    ret := AppendSeparator(ret, BitsCount(t), maxNameLen, maxDescLen);
    assert ret == Header(t) + Separator(t);
    ret := AppendRows(ret, t, maxNameLen);
  }

  /** The data loop: one line per variant, in index order. */
  method AppendRows(s: string, t: PatternTable, width: nat) returns (r: string)
    requires width == MaxLen(Names(t))
    ensures r == s + Rows(t, VariantCount(t))
  {
    r := s;
    var i := 0;
    while i < VariantCount(t)
      invariant i <= VariantCount(t)
      invariant r == s + Rows(t, i)
    {
      r := AppendRow(r, t.variants[i], width);
      assert r == s + Rows(t, i + 1) by {
        AppendAssoc(s, Rows(t, i), Row(t.variants[i], width));
      }
      i := i + 1;
    }
  }

  lemma AppendAssoc(a: string, b: string, c: string)
    ensures (a + b) + c == a + (b + c)
  {
  }

  method AppendHeader(s: string, names: seq<string>, width: nat) returns (r: string)
    ensures r == s + (Concat(names) + " | " + Repeat(' ', width) + " |\n")
  {
    r := AppendAll(s, names);
    r := r + " | ";
    r := AppendRepeat(r, ' ', width);
    r := r + " |\n";
  }

  method AppendSeparator(s: string, bits: nat, nameWidth: nat, descWidth: nat) returns (r: string)
    ensures r == s + (Repeat('-', bits) + "-+-" + Repeat('-', nameWidth) + "-+-" + Repeat('-', descWidth) + "\n")
  {
    r := AppendRepeat(s, '-', bits);
    r := r + "-+-";
    r := AppendRepeat(r, '-', nameWidth);
    r := r + "-+-";
    r := AppendRepeat(r, '-', descWidth);
    r := r + "\n";
  }

  /** One of the two width loops: the longest string, 0 when there is none. */
  method MaxLenOf(ss: seq<string>) returns (m: nat)
    ensures m == MaxLen(ss)
  {
    m := 0;
    var i := 0;
    while i < |ss|
      invariant i <= |ss|
      invariant m == MaxLen(ss[..i])
    {
      assert ss[..i + 1][..i] == ss[..i];
      if |ss[i]| > m {
        m := |ss[i]|;
      }
      i := i + 1;
    }
    assert ss[..i] == ss;
  }

  /** The header loop: every bit name, in position order. */
  method AppendAll(s: string, names: seq<string>) returns (r: string)
    ensures r == s + Concat(names)
  {
    r := s;
    var x := 0;
    while x < |names|
      invariant x <= |names|
      invariant r == s + Concat(names[..x])
    {
      assert names[..x + 1][..x] == names[..x];
      r := r + names[x];
      x := x + 1;
    }
    assert names[..x] == names;
  }

  /** One data line: bits, " | ", padded name, " | ", description, newline. */
  method AppendRow(s: string, v: Variant, width: nat) returns (r: string)
    ensures r == s + Row(v, width)
  {
    r := s + v.bits;
    r := r + " | ";
    r := r + v.name;
    r := AppendRepeat(r, ' ', Padding(|v.name|, width));
    r := r + " | ";
    r := r + v.desc;
    r := r + "\n";
  }

  /** `for _ in 0..n { ret.push_str(c) }`. */
  method AppendRepeat(s: string, c: char, n: nat) returns (r: string)
    ensures r == s + Repeat(c, n)
  {
    r := s;
    var k := 0;
    while k < n
      invariant k <= n
      invariant r == s + Repeat(c, k)
    {
      r := r + [c];
      k := k + 1;
    }
  }

  // ---------------------------------------------------------------------
  // Properties of the rendering
  // ---------------------------------------------------------------------

  /** Number of newline characters in a string. */
  function Newlines(s: string): nat
  {
    if |s| == 0 then 0 else Newlines(s[..|s| - 1]) + (if s[|s| - 1] == '\n' then 1 else 0)
  }

  lemma {:induction false} NewlinesAppend(a: string, b: string)
    ensures Newlines(a + b) == Newlines(a) + Newlines(b)
    decreases |b|
  {
    if |b| == 0 {
      assert a + b == a;
    } else {
      assert (a + b)[..|a + b| - 1] == a + b[..|b| - 1];
      NewlinesAppend(a, b[..|b| - 1]);
    }
  }

  lemma {:induction false} NoNewlines(s: string)
    requires '\n' !in s
    ensures Newlines(s) == 0
    decreases |s|
  {
    if |s| > 0 {
      assert s[..|s| - 1] + [s[|s| - 1]] == s;
      NoNewlines(s[..|s| - 1]);
    }
  }

  lemma {:induction false} ConcatNoNewlines(ss: seq<string>)
    requires forall i :: 0 <= i < |ss| ==> '\n' !in ss[i]
    ensures '\n' !in Concat(ss)
    decreases |ss|
  {
    if |ss| > 0 {
      ConcatNoNewlines(ss[..|ss| - 1]);
    }
  }

  /** Names, descriptions, bit-strings and bit names hold no line break. */
  predicate SingleLineText(t: PatternTable)
  {
    && (forall i :: 0 <= i < |t.bitNames| ==> '\n' !in t.bitNames[i])
    && (forall k :: 0 <= k < |t.variants| ==>
          '\n' !in t.variants[k].name && '\n' !in t.variants[k].desc && '\n' !in t.variants[k].bits)
  }

  lemma {:induction false} RowsNewlines(t: PatternTable, n: nat)
    requires SingleLineText(t) && n <= VariantCount(t)
    ensures Newlines(Rows(t, n)) == n
    decreases n
  {
    if n > 0 {
      RowsNewlines(t, n - 1);
      var v, w := t.variants[n - 1], MaxLen(Names(t));
      var pad := Repeat(' ', Padding(|v.name|, w));
      var front := v.bits + " | " + v.name + pad + " | " + v.desc;
      NoNewlines(front);
      NewlinesAppend(front, "\n");
      assert Row(v, w) == front + "\n";
      NewlinesAppend(Rows(t, n - 1), Row(v, w));
    }
  }

  /** The rendered table has exactly VARIANT_COUNT + 2 lines. */
  lemma {:induction false} TableLineCount(t: PatternTable)
    requires SingleLineText(t)
    ensures Newlines(AsciiTable(t)) == VariantCount(t) + 2
  {
    ConcatNoNewlines(t.bitNames);
    var hFront := Concat(t.bitNames) + " | " + Repeat(' ', MaxLen(Names(t))) + " |";
    NoNewlines(hFront);
    NewlinesAppend(hFront, "\n");
    assert Header(t) == hFront + "\n";
    var sFront := Repeat('-', BitsCount(t)) + "-+-" + Repeat('-', MaxLen(Names(t))) + "-+-" + Repeat('-', MaxLen(Descs(t)));
    NoNewlines(sFront);
    NewlinesAppend(sFront, "\n");
    assert Separator(t) == sFront + "\n";
    RowsNewlines(t, VariantCount(t));
    NewlinesAppend(Header(t), Separator(t));
    NewlinesAppend(Header(t) + Separator(t), Rows(t, VariantCount(t)));
  }

  /**
   * Columns line up: every data line has the same length up to its
   * description, because each name is padded to the longest name.
   */
  lemma RowAligned(t: PatternTable, i: nat)
    requires WellFormed(t) && i < VariantCount(t)
    ensures |Row(t.variants[i], MaxLen(Names(t)))| == BitsCount(t) + 3 + MaxLen(Names(t)) + 3 + |t.variants[i].desc| + 1
  {
    assert |t.variants[i].name| <= MaxLen(Names(t)) by { assert Names(t)[i] == t.variants[i].name; }
  }

  lemma BoolColumnWidths()
    ensures MaxLen(Names(BoolTable)) == 5 && MaxLen(Descs(BoolTable)) == 5
  {
    assert Names(BoolTable) == ["false", "true"];
    assert Descs(BoolTable) == ["false", "true"];
    assert ["false", "true"][..1] == ["false"];
    assert ["false"][..0] == [];
  }

  lemma BoolHeader()
    ensures Header(BoolTable) == "0 |       |\n"
  {
    BoolColumnWidths();
    assert Concat(BoolTable.bitNames) == "0" by {
      assert BoolTable.bitNames[..0] == [];
    }
  }

  lemma BoolSeparator()
    ensures Separator(BoolTable) == "--+-------+------\n"
  {
    BoolColumnWidths();
  }

  lemma BoolRows()
    ensures Rows(BoolTable, 2) == "0 | false | false\n" + "1 | true  | true\n"
  {
    BoolColumnWidths();
    BoolRowText();
    assert Rows(BoolTable, 1) == "0 | false | false\n" by {
      assert Rows(BoolTable, 1) == [] + Row(BoolTable.variants[0], 5);
    }
    assert Rows(BoolTable, 2) == Rows(BoolTable, 1) + Row(BoolTable.variants[1], 5);
  }

  /** The two data lines, each name padded to five characters. */
  lemma BoolRowText()
    ensures Row(BoolTable.variants[0], 5) == "0 | false | false\n"
    ensures Row(BoolTable.variants[1], 5) == "1 | true  | true\n"
  {
    assert Repeat(' ', Padding(5, 5)) == [];
    assert Repeat(' ', Padding(4, 5)) == " ";
  }

  /** The reference rendering of the bool pattern. */
  lemma BoolTableRendering()
    ensures AsciiTable(BoolTable) ==
      "0 |       |\n" +
      "--+-------+------\n" +
      "0 | false | false\n" +
      "1 | true  | true\n"
  {
    BoolHeader();
    BoolSeparator();
    BoolRows();
    assert VariantCount(BoolTable) == 2;
    AppendAssoc(Header(BoolTable) + Separator(BoolTable), "0 | false | false\n", "1 | true  | true\n");
  }
}
