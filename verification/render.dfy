/** The diagram renderer: the bit rulers, the border lines between rows,
    and the rows of centred field labels, drawn from the placed records the
    layout pass produces. */
module Render {
  import opened Results
  import opened Text
  import opened Fields
  import opened Layout

  // ---------------------------------------------------------------------
  // Glyphs
  // ---------------------------------------------------------------------

  /** The character between two cells of a row. */
  function Separator(o: Options): char
  {
    if o.charset == Unicode then '│' else o.sepChar
  }

  /** The character that opens a border line drawn inside the diagram. */
  function StartGlyph(o: Options): char
  {
    if o.charset == Unicode then '├' else o.startChar
  }

  /** The character that closes a border line drawn inside the diagram. */
  function EndGlyph(o: Options): char
  {
    if o.charset == Unicode then '┤' else o.endChar
  }

  // ---------------------------------------------------------------------
  // Cells
  // ---------------------------------------------------------------------

  /** A label cut to the `2*len-1` characters a cell of `len` bits has room
      for; a cut label longer than one character ends in a dot. */
  function Truncate(s: string, len: int): (t: string)
    requires len >= 1
    ensures |t| == if |s| <= 2 * len - 1 then |s| else 2 * len - 1
    ensures |s| <= 2 * len - 1 ==> t == s
    ensures |s| > 2 * len - 1 ==> t[..|t| - 1] == s[..|t| - 1]
    ensures |s| > 2 * len - 1 && |t| > 1 ==> t[|t| - 1] == '.'
    ensures |s| > 2 * len - 1 && |t| == 1 ==> t[0] == s[0]
  {
    var w := 2 * len - 1;
    if |s| > w then
      var cut := s[..w];
      if |cut| > 1 then cut[..|cut| - 1] + "." else cut
    else s
  }

  /** The cell of a field that fits in its row: its label, truncated,
      centred in `2*len-1` characters. */
  function Cell(text: string, len: int): (r: string)
    requires len >= 1
    ensures |r| == 2 * len - 1
    ensures exists left, right :: r == Spaces(left) + Truncate(text, len) + Spaces(right)
  {
    var t := Truncate(text, len);
    var r := Center(t, 2 * len - 1);
    assert |t| >= 2 * len - 1 ==> r == Spaces(0) + t + Spaces(0);
    r
  }

  // ---------------------------------------------------------------------
  // Border lines
  // ---------------------------------------------------------------------

  /** `(a + b) * n` in Python: the pair `a b` repeated `n` times. */
  function Fill(a: char, b: char, n: int): (r: string)
    ensures |r| == if n <= 0 then 0 else 2 * n
    decreases n
  {
    if n <= 0 then "" else [a, b] + Fill(a, b, n - 1)
  }

  /** Position `i` of a repeated pair is the pair's first character at even
      positions and its second at odd ones. */
  lemma {:induction false} FillAt(a: char, b: char, n: int, i: int)
    requires 0 <= i < 2 * n
    ensures Fill(a, b, n)[i] == if i % 2 == 0 then a else b
    decreases n
  {
    if i >= 2 {
      FillAt(a, b, n - 1, i - 2);
      assert Fill(a, b, n)[i] == Fill(a, b, n - 1)[i - 2];
    }
  }

  /** Connector marks collected while drawing a Unicode border. */
  datatype Marks = Marks(chars: seq<char>, above: set<int>, below: set<int>)

  /** The column a field boundary at bit `start` occupies in the fill part
      of a border line. */
  function Column(start: int): int
  {
    2 * start - 1
  }

  /** Record `f` marks the border above text row `textline`: a `┬` where a
      field of that row begins, and a `┴` where a field of the row above
      begins, the later write winning at a shared column. */
  function Mark(m: Marks, f: Placed, textline: int): (r: Marks)
    requires f.start >= 0
    ensures |r.chars| == |m.chars|
  {
    var i := Column(f.start);
    var m1 := if f.start != 0 && f.line == textline && i < |m.chars|
              then Marks(m.chars[i := '┬'], m.above + {f.start}, m.below) else m;
    if f.start != 0 && f.line == textline - 1 && i < |m1.chars|
    then Marks(m1.chars[i := '┴'], m1.above, m1.below + {f.start}) else m1
  }

  /** The connector marks of all records, in list order. */
  function Connectors(m: Marks, recs: seq<Placed>, textline: int): (r: Marks)
    requires forall i :: 0 <= i < |recs| ==> recs[i].start >= 0
    ensures |r.chars| == |m.chars|
    decreases |recs|
  {
    if |recs| == 0 then m
    else Connectors(Mark(m, recs[0], textline), recs[1..], textline)
  }

  /** Columns that meet a field boundary from both sides become crosses. */
  function Crosses(chars: seq<char>, both: set<int>): (r: seq<char>)
    ensures |r| == |chars|
  {
    seq(|chars|, j requires 0 <= j < |chars| =>
      if j % 2 == 1 && (j + 1) / 2 in both then '┼' else chars[j])
  }

  /** A record whose boundary touches border column `j` of the line above
      text row `textline`. */
  predicate Touches(f: Placed, textline: int, j: int)
  {
    f.start != 0 && Column(f.start) == j && (f.line == textline || f.line == textline - 1)
  }

  /** A column of the connector fill stays `─` unless some record's
      boundary touches it, and a touched column holds `┬` or `┴`. */
  lemma {:induction false} ConnectorsPlacement(m: Marks, recs: seq<Placed>, textline: int, j: int)
    requires forall i :: 0 <= i < |recs| ==> recs[i].start >= 0
    requires 0 <= j < |m.chars|
    ensures var r := Connectors(m, recs, textline).chars[j];
      ((forall i :: 0 <= i < |recs| ==> !Touches(recs[i], textline, j)) ==> r == m.chars[j]) &&
      ((exists i :: 0 <= i < |recs| && Touches(recs[i], textline, j)) ==> r == '┬' || r == '┴')
    decreases |recs|
  {
    if |recs| > 0 {
      var m1 := Mark(m, recs[0], textline);
      ConnectorsPlacement(m1, recs[1..], textline, j);
      assert forall i :: 1 <= i < |recs| ==> recs[i] == recs[1..][i - 1];
      if Touches(recs[0], textline, j) {
        assert m1.chars[j] == '┬' || m1.chars[j] == '┴';
      }
    }
  }

  /** The Unicode border line of width `w` above text row `textline`. */
  function UnicodeBorder(bpl: int, w: int, textline: int, recs: seq<Placed>, bottom: bool, offset: int): (r: string)
    requires w >= 1
    requires forall i :: 0 <= i < |recs| ==> recs[i].start >= 0
    ensures |r| == 2 * w + 1
  {
    var top := textline == 1;
    var first := if top || offset > 0 then '┌'
                 else if bottom then (if w < bpl then '├' else '└')
                 else '├';
    var m := Connectors(Marks(seq(2 * (w - 1), _ => '─'), {}, {}), recs, textline);
    var fill := if !top && !bottom then Crosses(m.chars, m.above * m.below) else m.chars;
    var last := if top then "─┐" else if bottom then "─┘" else "─┤";
    [first] + fill + last
  }

  /** The shape of a Unicode border: a corner or tee at each end chosen by
      where the line sits, a `─` before the closing glyph, and in between
      only `─`, `┬`, `┴` or `┼`. On the top and bottom lines a column no
      field boundary touches is plain `─`. */
  lemma UnicodeBorderShape(bpl: int, w: int, textline: int, recs: seq<Placed>, bottom: bool, offset: int)
    requires w >= 1
    requires forall i :: 0 <= i < |recs| ==> recs[i].start >= 0
    ensures var r := UnicodeBorder(bpl, w, textline, recs, bottom, offset);
      r[0] == (if textline == 1 || offset > 0 then '┌' else if bottom && w >= bpl then '└' else '├') &&
      r[2 * w - 1] == '─' &&
      r[2 * w] == (if textline == 1 then '┐' else if bottom then '┘' else '┤') &&
      (forall j :: 1 <= j < 2 * w - 1 ==> r[j] in {'─', '┬', '┴', '┼'}) &&
      ((textline == 1 || bottom) ==>
        forall j :: 1 <= j < 2 * w - 1 && (forall i :: 0 <= i < |recs| ==> !Touches(recs[i], textline, j - 1)) ==>
          r[j] == '─')
  {
    var r := UnicodeBorder(bpl, w, textline, recs, bottom, offset);
    var m0 := Marks(seq(2 * (w - 1), _ => '─'), {}, {});
    var m := Connectors(m0, recs, textline);
    var top := textline == 1;
    var fill := if !top && !bottom then Crosses(m.chars, m.above * m.below) else m.chars;
    assert r == [r[0]] + fill + r[2 * w - 1..];
    forall j | 1 <= j < 2 * w - 1
      ensures r[j] in {'─', '┬', '┴', '┼'}
      ensures (top || bottom) && (forall i :: 0 <= i < |recs| ==> !Touches(recs[i], textline, j - 1)) ==> r[j] == '─'
    {
      ConnectorsPlacement(m0, recs, textline, j - 1);
      assert r[j] == fill[j - 1];
    }
  }

  /** A border line covering `w` bits: empty for `w <= 0`, otherwise
      `2*w+1` characters. In ASCII it is the start glyph, then the even and
      odd fill characters alternating, then the end glyph. */
  function Horizontal(o: Options, w: int, textline: int, recs: seq<Placed>, bottom: bool, offset: int): (r: string)
    requires forall i :: 0 <= i < |recs| ==> recs[i].start >= 0
    ensures w <= 0 ==> r == ""
    ensures w >= 1 ==> |r| == 2 * w + 1
  {
    if w <= 0 then ""
    else if o.charset == Ascii then [o.startChar] + Fill(o.evenChar, o.oddChar, w - 1) + [o.evenChar, o.endChar]
    else UnicodeBorder(o.bitsPerLine, w, textline, recs, bottom, offset)
  }

  /** An ASCII border is the start glyph, the even fill at every odd
      column and the odd fill at every even column in between, and the end
      glyph. */
  lemma AsciiBorderShape(o: Options, w: int, textline: int, recs: seq<Placed>, bottom: bool, offset: int)
    requires forall i :: 0 <= i < |recs| ==> recs[i].start >= 0
    requires o.charset == Ascii && w >= 1
    ensures var r := Horizontal(o, w, textline, recs, bottom, offset);
      r[0] == o.startChar && r[2 * w] == o.endChar &&
      forall i :: 1 <= i < 2 * w ==> r[i] == if i % 2 == 1 then o.evenChar else o.oddChar
  {
    var r := Horizontal(o, w, textline, recs, bottom, offset);
    forall i | 1 <= i < 2 * w ensures r[i] == if i % 2 == 1 then o.evenChar else o.oddChar {
      if i < 2 * w - 1 {
        FillAt(o.evenChar, o.oddChar, w - 1, i - 1);
      }
    }
  }

  /** The border under a row that ends in a fragment of a field continuing
      on the next row: drawn under the bits before the fragment, open
      where the continuation lies below, and drawn again after it. `len` is
      the fragment's length and `next` the continuation's. */
  function MergedBorder(o: Options, len: int, next: int, textline: int, recs: seq<Placed>): (r: string)
    requires forall i :: 0 <= i < |recs| ==> recs[i].start >= 0
    requires o.bitsPerLine >= 1 && next > o.bitsPerLine - len
    ensures 1 <= len <= o.bitsPerLine ==> |r| == 2 * o.bitsPerLine + 1
    ensures 1 <= len <= o.bitsPerLine ==>
      var bpl := o.bitsPerLine;
      var reach := if next < bpl then next else bpl;
      forall j :: 2 * (bpl - len) + 1 <= j < 2 * reach ==> r[j] == ' '
  {
    var bpl := o.bitsPerLine;
    var covered := bpl - len;
    var left0 := Horizontal(o, covered, textline, recs, true, 0);
    var left := if |left0| == 0 then [StartGlyph(o)] else left0;
    if next >= bpl then
      left + Spaces(2 * len - 1) + [EndGlyph(o)]
    else
      var center := Spaces(2 * (next - covered) - 1);
      left + center + Horizontal(o, bpl - next, textline, recs, false, |left| + |center|)
  }

  // ---------------------------------------------------------------------
  // Block fields
  // ---------------------------------------------------------------------

  /** Line `n` of a block field `k` rows tall: odd lines are framed by the
      border glyphs and even ones by separators; line `k-1` holds the
      centred label and the others are blank. */
  function BlockLine(o: Options, t: string, k: int, n: int): (r: string)
  {
    var inner := if n == k - 1 then Center(t, 2 * o.bitsPerLine - 1) else Spaces(2 * o.bitsPerLine - 1);
    if n % 2 == 1 then [StartGlyph(o)] + inner + [EndGlyph(o)]
    else [Separator(o)] + inner + [Separator(o)]
  }

  /** Lines `i` to `2k-2` of a block field `k` rows tall, one per pass of
      the renderer's inner loop. */
  function BlockRows(o: Options, t: string, k: int, i: nat): (r: seq<string>)
    ensures |r| == if i <= 2 * k - 1 then 2 * k - 1 - i else 0
    ensures forall j :: 0 <= j < |r| ==> r[j] == BlockLine(o, t, k, i + j)
    decreases 2 * k - 1 - i
  {
    if i >= 2 * k - 1 then []
    else
      var rest := BlockRows(o, t, k, i + 1);
      assert forall j :: 1 <= j < |rest| + 1 ==> ([BlockLine(o, t, k, i)] + rest)[j] == rest[j - 1];
      [BlockLine(o, t, k, i)] + rest
  }

  /** One line of a block: framed by the border glyphs on odd lines and by
      separators on even ones, holding the centred label on line `k-1` and
      blanks elsewhere, and as wide as a full row when the label fits one
      cell. */
  lemma BlockLineShape(o: Options, t: string, k: int, n: int)
    requires o.bitsPerLine >= 1
    ensures var r := BlockLine(o, t, k, n);
      var w := 2 * o.bitsPerLine - 1;
      |r| >= 2 &&
      r[0] == (if n % 2 == 1 then StartGlyph(o) else Separator(o)) &&
      r[|r| - 1] == (if n % 2 == 1 then EndGlyph(o) else Separator(o)) &&
      r[1..|r| - 1] == (if n == k - 1 then Center(t, w) else Spaces(w)) &&
      (|t| <= w ==> |r| == w + 2) &&
      (n == k - 1 && |t| > w ==> |r| == |t| + 2)
  {
    var w := 2 * o.bitsPerLine - 1;
    var inner := if n == k - 1 then Center(t, w) else Spaces(w);
    var a := if n % 2 == 1 then StartGlyph(o) else Separator(o);
    var b := if n % 2 == 1 then EndGlyph(o) else Separator(o);
    assert BlockLine(o, t, k, n) == [a] + inner + [b];
    Framed(a, inner, b);
  }

  lemma Framed(a: char, inner: string, b: char)
    ensures var r := [a] + inner + [b];
      |r| == |inner| + 2 && r[0] == a && r[|r| - 1] == b && r[1..|r| - 1] == inner
  {
    var r := [a] + inner + [b];
    assert r[1..|r| - 1] == inner;
  }

  /** A block `k` rows tall is drawn as `2k-1` lines, the label on line
      `k-1` alone; every line is as wide as a full row when the label fits
      one cell. */
  lemma BlockShape(o: Options, t: string, k: int)
    requires o.bitsPerLine >= 1
    ensures var r := BlockRows(o, t, k, 0);
      |r| == (if k >= 1 then 2 * k - 1 else 0) &&
      (forall j :: 0 <= j < |r| ==> r[j] == BlockLine(o, t, k, j)) &&
      (|t| <= 2 * o.bitsPerLine - 1 ==> forall j :: 0 <= j < |r| ==> |r[j]| == 2 * o.bitsPerLine + 1)
  {
    var r := BlockRows(o, t, k, 0);
    forall j | 0 <= j < |r|
      ensures |t| <= 2 * o.bitsPerLine - 1 ==> |r[j]| == 2 * o.bitsPerLine + 1
    {
      BlockLineShape(o, t, k, j);
    }
  }

  /** A block label longer than one row is kept at up to `2*len-1`
      characters, so its line runs past the frame the other lines keep. */
  lemma BlockOverflow(o: Options, t: string, k: int)
    requires o.bitsPerLine >= 1 && k >= 1 && |t| > 2 * o.bitsPerLine - 1
    ensures var r := BlockRows(o, t, k, 0);
      |r| == 2 * k - 1 && |r[k - 1]| == |t| + 2 > 2 * o.bitsPerLine + 1
  {
    BlockLineShape(o, t, k, k - 1);
  }

  // ---------------------------------------------------------------------
  // Rulers
  // ---------------------------------------------------------------------

  /** The strings of a sequence, concatenated in order: what a loop that
      appends one piece per pass builds. */
  function Concat(ss: seq<string>): string
  {
    if |ss| == 0 then "" else ss[0] + Concat(ss[1..])
  }

  lemma {:induction false} ConcatAppend(a: seq<string>, b: seq<string>)
    ensures Concat(a + b) == Concat(a) + Concat(b)
    decreases |a|
  {
    if |a| == 0 {
      assert a + b == b;
    } else {
      assert (a + b)[1..] == a[1..] + b;
      ConcatAppend(a[1..], b);
    }
  }

  /** Empty pieces after the first add nothing. */
  lemma {:induction false} ConcatBlanks(ss: seq<string>)
    requires |ss| >= 1 && forall j :: 1 <= j < |ss| ==> ss[j] == ""
    ensures Concat(ss) == ss[0]
    decreases |ss|
  {
    if |ss| > 1 {
      ConcatBlanks(ss[1..]);
    }
  }

  /** What the tens ruler's loop adds for bit `i`: a label at every
      multiple of eight, sixteen characters wide, and nothing elsewhere;
      the last label also shows the last bit's number, right-aligned. */
  function TensCell(bpl: int, i: nat): string
    requires bpl >= 1
  {
    if i % 8 == 0 && i + 8 >= bpl then PadRight(NatToString(i), 8) + PadLeft(NatToString(bpl - 1), 8)
    else if i % 8 == 0 then PadRight(NatToString(i), 16)
    else ""
  }

  /** The pieces the tens ruler's loop appends, one per bit. */
  function TensCells(bpl: int): (cs: seq<string>)
    requires bpl >= 1
  {
    seq(bpl, i requires 0 <= i => TensCell(bpl, i))
  }

  /** The tens ruler, without its leading space and closing newline. */
  function TensRuler(bpl: int): string
    requires bpl >= 1
  {
    Concat(TensCells(bpl))
  }

  /** The units ruler from bit `i` on: a space and the bit number modulo 8
      for every bit. */
  function UnitsFrom(bpl: int, i: nat): (r: string)
    ensures |r| == if i < bpl then 2 * (bpl - i) else 0
    ensures forall j :: 0 <= j < |r| ==> r[j] == if j % 2 == 0 then ' ' else DigitChar((i + j / 2) % 8)
    decreases bpl - i
  {
    if i >= bpl then ""
    else
      var rest := UnitsFrom(bpl, i + 1);
      var r := [' ', DigitChar(i % 8)] + rest;
      assert forall j :: 2 <= j < |r| ==> r[j] == rest[j - 2] && (i + 1 + (j - 2) / 2) == i + j / 2;
      r
  }

  /** The rulers above the diagram, or nothing when both are switched off.
      The tens ruler ends in a newline inside the same entry. */
  function TopNumbers(o: Options): (r: Option<string>)
    requires o.bitsPerLine >= 1
    ensures r.None? <==> !o.printTens && !o.printUnits
    ensures o.printUnits && !o.printTens ==> r == Some(UnitsFrom(o.bitsPerLine, 0))
  {
    var tens := if o.printTens then " " + TensRuler(o.bitsPerLine) + "\n" else "";
    var units := if o.printUnits then UnitsFrom(o.bitsPerLine, 0) else "";
    var all := tens + units;
    assert !o.printTens ==> all == units;
    if |all| > 0 then Some(all) else None
  }

  lemma EightOffset(a: nat, j: int)
    requires 0 <= j < 8
    ensures (8 * a + j) % 8 == j
  {
  }

  /** The block of eight bits a multiple of eight starts. */
  lemma EightBlocks(i: nat) returns (b: nat)
    requires i % 8 == 0
    ensures i == 8 * b
  {
    b := i / 8;
  }

  /** The widest bit numbers a sixteen-column tens label holds. */
  const LabelLimit: int := 10_000_000_000_000_000

  lemma Pow10Sixteen()
    ensures Pow10(16) == LabelLimit
  {
    assert Pow10(4) == 10000;
    assert Pow10(8) == 100000000;
    assert Pow10(12) == 1000000000000;
  }

  /** Bit numbers below 10^16 have at most sixteen digits. */
  lemma ShortNumber(i: nat)
    requires i < LabelLimit
    ensures |NatToString(i)| <= 16
  {
    Pow10Sixteen();
    NatToStringShort(i, 16);
  }

  /** The tens label of block `a` starts with the number of the block's
      first bit. Unless it is the last label, it is that number padded
      with spaces to sixteen characters, as long as the number has at most
      sixteen digits. */
  lemma TensCellHead(bpl: int, a: nat)
    requires 1 <= bpl
    ensures var c := TensCell(bpl, 8 * a);
      var s := NatToString(8 * a);
      && |s| <= |c| && c[..|s|] == s
      && (8 * a + 8 < bpl && 8 * a < LabelLimit ==> |c| == 16)
      && (8 * a + 8 < bpl ==> forall j :: |s| <= j < |c| ==> c[j] == ' ')
  {
    var g := 8 * a;
    var s := NatToString(g);
    if g < LabelLimit { ShortNumber(g); }
    EightOffset(a, 0);
    if g + 8 >= bpl {
      var p := PadRight(s, 8);
      var c := p + PadLeft(NatToString(bpl - 1), 8);
      assert TensCell(bpl, g) == c;
      assert c[..|s|] == p[..|s|];
    } else {
      assert TensCell(bpl, g) == PadRight(s, 16);
    }
  }

  /** The bits of block `a` other than its first add nothing to the tens
      ruler, so the block contributes exactly its label. */
  lemma TensBlockCells(bpl: int, a: nat, e: int)
    requires bpl >= 1 && 8 * a < e <= bpl && e <= 8 * a + 8
    ensures Concat(TensCells(bpl)[8 * a..e]) == TensCell(bpl, 8 * a)
  {
    var cs := TensCells(bpl)[8 * a..e];
    forall j | 1 <= j < |cs|
      ensures cs[j] == ""
    {
      EightOffset(a, j);
    }
    ConcatBlanks(cs);
  }

  /** The first `b` blocks of the tens ruler take sixteen columns each, two
      per bit, when another block follows them. */
  lemma {:induction false} TensPrefix(bpl: int, b: nat)
    requires 1 <= bpl <= LabelLimit && 8 * b < bpl
    ensures |Concat(TensCells(bpl)[..8 * b])| == 16 * b
    decreases b
  {
    var cs := TensCells(bpl);
    if b == 0 {
      assert cs[..0] == [];
    } else {
      TensPrefix(bpl, b - 1);
      TensPrefixStep(bpl, b);
    }
  }

  lemma TensPrefixStep(bpl: int, b: nat)
    requires 1 <= bpl <= LabelLimit && 8 * b < bpl && b >= 1
    requires |Concat(TensCells(bpl)[..8 * (b - 1)])| == 16 * (b - 1)
    ensures |Concat(TensCells(bpl)[..8 * b])| == 16 * b
  {
    var cs := TensCells(bpl);
    var g := 8 * (b - 1);
    assert cs[..8 * b] == cs[..g] + cs[g..8 * b];
    ConcatAppend(cs[..g], cs[g..8 * b]);
    TensBlockCells(bpl, b - 1, 8 * b);
    TensCellHead(bpl, b - 1);
  }

  /** From the first bit of block `a` on, the tens ruler starts with that
      bit's number. */
  lemma TensLabelAt(bpl: int, a: nat)
    requires 1 <= bpl <= LabelLimit && 8 * a < bpl
    ensures var r := Concat(TensCells(bpl)[8 * a..]);
      |NatToString(8 * a)| <= |r| && r[..|NatToString(8 * a)|] == NatToString(8 * a)
  {
    var cs := TensCells(bpl)[8 * a..];
    var s := NatToString(8 * a);
    TensCellHead(bpl, a);
    var c := TensCell(bpl, 8 * a);
    assert Concat(cs) == c + Concat(cs[1..]);
    assert (c + Concat(cs[1..]))[..|s|] == c[..|s|];
  }

  /** With at most eight-digit bit numbers, the tens label of bit `i`
      starts exactly above bit `i`'s units digit: at column `2*i` of the
      ruler, which is column `2*i+1` once the ruler's leading space is
      counted, the column of that bit's digit in the units ruler. */
  lemma TensAligned(bpl: int, i: nat)
    requires 1 <= bpl <= LabelLimit && i < bpl && i % 8 == 0
    ensures var r := TensRuler(bpl);
      2 * i + |NatToString(i)| <= |r| &&
      r[2 * i..2 * i + |NatToString(i)|] == NatToString(i)
  {
    var b := EightBlocks(i);
    TensAlignedBlock(bpl, b);
  }

  lemma TensAlignedBlock(bpl: int, b: nat)
    requires 1 <= bpl <= LabelLimit && 8 * b < bpl
    ensures var r := TensRuler(bpl);
      var s := NatToString(8 * b);
      16 * b + |s| <= |r| && r[16 * b..16 * b + |s|] == s
  {
    var cs := TensCells(bpl);
    var i := 8 * b;
    TensPrefix(bpl, b);
    ConcatSplit(cs, i);
    TensLabelAt(bpl, b);
    AtOffset(TensRuler(bpl), Concat(cs[..i]), Concat(cs[i..]), NatToString(i));
  }

  /** The tens ruler closes with the number of the last bit. */
  lemma TensRulerEnd(bpl: int)
    requires bpl >= 1
    ensures var r := TensRuler(bpl);
      var s := NatToString(bpl - 1);
      |s| <= |r| && r[|r| - |s|..] == s
  {
    var a := LastBlock(bpl);
    TensRulerLast(bpl, a);
    TensLastCell(bpl, a);
    EndsWith(TensRuler(bpl), Concat(TensCells(bpl)[..8 * a]), TensCell(bpl, 8 * a), NatToString(bpl - 1));
  }

  /** The index of the last block of eight bits in a row. */
  lemma LastBlock(bpl: int) returns (a: nat)
    requires bpl >= 1
    ensures 8 * a < bpl <= 8 * a + 8
  {
    a := (bpl - 1) / 8;
  }

  /** The tens ruler is the cells before the last block, then the last
      block's label. */
  lemma TensRulerLast(bpl: int, a: nat)
    requires bpl >= 1 && 8 * a < bpl <= 8 * a + 8
    ensures TensRuler(bpl) == Concat(TensCells(bpl)[..8 * a]) + TensCell(bpl, 8 * a)
  {
    var cs := TensCells(bpl);
    TensBlockCells(bpl, a, bpl);
    assert cs[8 * a..bpl] == cs[8 * a..];
    ConcatSplit(cs, 8 * a);
  }

  /** The last block's label ends with the last bit's number. */
  lemma TensLastCell(bpl: int, a: nat)
    requires bpl >= 1 && 8 * a < bpl <= 8 * a + 8
    ensures var c := TensCell(bpl, 8 * a);
      var s := NatToString(bpl - 1);
      |s| <= |c| && c[|c| - |s|..] == s
  {
    EightOffset(a, 0);
    var s := NatToString(bpl - 1);
    EndsWith(TensCell(bpl, 8 * a), PadRight(NatToString(8 * a), 8), PadLeft(s, 8), s);
  }

  lemma EndsWith(whole: string, pre: string, post: string, s: string)
    requires whole == pre + post && |s| <= |post| && post[|post| - |s|..] == s
    ensures |s| <= |whole| && whole[|whole| - |s|..] == s
  {
    assert whole[|whole| - |s|..] == post[|post| - |s|..];
  }

  /** Both rulers together: the tens ruler, a newline, then the units
      ruler. Each tens label starts above the `0` of its bit in the units
      ruler. */
  lemma RulersAligned(o: Options, i: nat)
    requires 1 <= o.bitsPerLine <= LabelLimit && o.printTens && o.printUnits
    requires i < o.bitsPerLine && i % 8 == 0
    ensures var bpl := o.bitsPerLine;
      var tens := " " + TensRuler(bpl);
      var units := UnitsFrom(bpl, 0);
      var s := NatToString(i);
      TopNumbers(o) == Some(tens + "\n" + units) &&
      2 * i + 1 + |s| <= |tens| && tens[2 * i + 1..2 * i + 1 + |s|] == s &&
      units[2 * i + 1] == '0'
  {
    var bpl := o.bitsPerLine;
    var r := TensRuler(bpl);
    TopNumbersBoth(o);
    TensAligned(bpl, i);
    Shifted(r, NatToString(i), 2 * i);
    UnitsZero(bpl, i);
  }

  lemma TopNumbersBoth(o: Options)
    requires o.bitsPerLine >= 1 && o.printTens && o.printUnits
    ensures TopNumbers(o) == Some(" " + TensRuler(o.bitsPerLine) + "\n" + UnitsFrom(o.bitsPerLine, 0))
  {
  }

  lemma Shifted(r: string, s: string, k: int)
    requires 0 <= k && k + |s| <= |r| && r[k..k + |s|] == s
    ensures k + 1 + |s| <= |" " + r| && (" " + r)[k + 1..k + 1 + |s|] == s
  {
    assert (" " + r)[k + 1..k + 1 + |s|] == r[k..k + |s|];
  }

  lemma UnitsZero(bpl: int, i: nat)
    requires i < bpl && i % 8 == 0
    ensures 2 * i + 1 < |UnitsFrom(bpl, 0)| && UnitsFrom(bpl, 0)[2 * i + 1] == '0'
  {
    assert (2 * i + 1) / 2 == i;
  }

  lemma ConcatSplit(cs: seq<string>, i: int)
    requires 0 <= i <= |cs|
    ensures Concat(cs) == Concat(cs[..i]) + Concat(cs[i..])
  {
    assert cs == cs[..i] + cs[i..];
    ConcatAppend(cs[..i], cs[i..]);
  }

  lemma AtOffset(whole: string, pre: string, post: string, s: string)
    requires whole == pre + post && |s| <= |post| && post[..|s|] == s
    ensures |pre| + |s| <= |whole| && whole[|pre|..|pre| + |s|] == s
  {
    assert whole[|pre|..|pre| + |s|] == post[..|s|];
  }

  // ---------------------------------------------------------------------
  // Rows
  // ---------------------------------------------------------------------

  /** What the renderer may be handed: records of at least one bit with
      non-negative start columns, as the layout pass produces. */
  predicate Renderable(recs: seq<Placed>)
  {
    forall i :: 0 <= i < |recs| ==> recs[i].len >= 1 && recs[i].start >= 0
  }

  /** Raised conditions of the renderer: the `assert(False)` of a field
      that neither fits nor starts a row, and a fragment with more to come
      that is the last record. */
  datatype RenderFault = AssertionFailed | IndexOutOfRange

  /** The renderer's loop state: the bits already in the current row, the
      text row being drawn, how many records have been drawn, and the
      partly built current line. */
  datatype RenderState = RenderState(bits: int, textline: int, done: int, current: string)

  /** One record's contribution: the lines it completes and the state
      after it. */
  datatype StepOut = StepOut(lines: seq<string>, next: RenderState)

  /** The border drawn under a full row that record `p` completes: a
      merged border when a fragment continues into a field too long to fit
      under it, the plain border otherwise (the bottom border after the
      last record). A fragment with more to come that is the last record
      makes the lookup of its continuation fail. */
  function RowBorder(recs: seq<Placed>, p: nat, textline: int, o: Options): (r: Result<string, RenderFault>)
    requires o.bitsPerLine >= 1 && Renderable(recs) && p < |recs|
    ensures r.Err? <==> recs[p].moreFragments && p == |recs| - 1
    ensures r.Err? ==> r.error == IndexOutOfRange
    ensures r.Ok? && recs[p].len <= o.bitsPerLine ==> |r.value| == 2 * o.bitsPerLine + 1
  {
    var bpl := o.bitsPerLine;
    var f := recs[p];
    if f.moreFragments then
      if p + 1 >= |recs| then Err(IndexOutOfRange)
      else if recs[p + 1].len > bpl - f.len then Ok(MergedBorder(o, f.len, recs[p + 1].len, textline, recs))
      else Ok(Horizontal(o, bpl, textline, recs, false, 0))
    else Ok(Horizontal(o, bpl, textline, recs, p == |recs| - 1, 0))
  }

  /** Record `p` fits in the rest of the current row: its cell is added,
      and a row it completes is closed and bordered; after the last record
      a partial row is closed with a bottom border as wide as it. */
  function FitStep(recs: seq<Placed>, p: nat, st: RenderState, o: Options): (r: Result<StepOut, RenderFault>)
    requires o.bitsPerLine >= 1 && Renderable(recs) && p < |recs|
    ensures r.Err? ==>
      r.error == IndexOutOfRange && recs[p].moreFragments && p == |recs| - 1 && st.bits + recs[p].len == o.bitsPerLine
    ensures r.Ok? ==> r.value.next.done == st.done + 1
    ensures r.Ok? && st.bits + recs[p].len == o.bitsPerLine ==>
      && |r.value.lines| == 2
      && r.value.next == RenderState(0, st.textline + 1, st.done + 1, "")
    ensures r.Ok? && st.bits + recs[p].len != o.bitsPerLine ==>
      && r.value.next.bits == st.bits + recs[p].len
      && r.value.next.textline == st.textline
      && (|r.value.lines| == 2 <==> st.done + 1 == |recs|)
      && (st.done + 1 != |recs| ==> r.value.lines == [])
  {
    var bpl := o.bitsPerLine;
    var f := recs[p];
    var sep := Separator(o);
    var cur := st.current + (if st.bits == 0 then [sep] else []) + Cell(f.text, f.len);
    var bits := st.bits + f.len;
    var done := st.done + 1;
    if bits == bpl then
      var tl := st.textline + 1;
      var border :- RowBorder(recs, p, tl, o);
      Ok(StepOut([cur + [sep], border], RenderState(0, tl, done, "")))
    else if done == |recs| then
      var line := cur + [sep];
      Ok(StepOut([line, Horizontal(o, bits, st.textline, recs, true, 0)], RenderState(bits, st.textline, done, line)))
    else
      Ok(StepOut([], RenderState(bits, st.textline, done, cur + [sep])))
  }

  /** Record `p` spans whole rows from the start of a row: it is drawn as
      a block with its label on the middle line, then bordered. */
  function BlockStep(recs: seq<Placed>, p: nat, st: RenderState, o: Options): (r: StepOut)
    requires o.bitsPerLine >= 1 && Renderable(recs) && p < |recs|
    ensures recs[p].len >= o.bitsPerLine ==> |r.lines| == 2 * (recs[p].len / o.bitsPerLine)
    ensures |r.lines| >= 1 && |r.lines[|r.lines| - 1]| == 2 * o.bitsPerLine + 1
    ensures r.next.bits == st.bits && r.next.textline == st.textline + 1 && r.next.done == st.done + 1
  {
    var bpl := o.bitsPerLine;
    var f := recs[p];
    var k := f.len / bpl;
    var rows := BlockRows(o, Truncate(f.text, f.len), k, 0);
    var tl := st.textline + 1;
    StepOut(rows + [Horizontal(o, bpl, tl, recs, p == |recs| - 1, 0)],
            RenderState(st.bits, tl, st.done + 1, st.current))
  }

  /** One pass of the renderer's loop for record `p`. A record that does
      not fit and does not start a row trips the renderer's assertion; one
      that starts a row but is not a whole number of rows long is skipped
      without output. */
  function RenderStep(recs: seq<Placed>, p: nat, st: RenderState, o: Options): (r: Result<StepOut, RenderFault>)
    requires o.bitsPerLine >= 1 && Renderable(recs) && p < |recs|
    ensures r == Err(AssertionFailed) <==> st.bits != 0 && o.bitsPerLine - st.bits < recs[p].len
    ensures r == Err(IndexOutOfRange) ==> recs[p].moreFragments && p == |recs| - 1
    ensures st.bits == 0 && o.bitsPerLine < recs[p].len && recs[p].len % o.bitsPerLine != 0 ==>
      r == Ok(StepOut([], st))
    ensures r.Ok? && r.value.next != st ==> r.value.next.done == st.done + 1
  {
    var bpl := o.bitsPerLine;
    var f := recs[p];
    if bpl - st.bits >= f.len then FitStep(recs, p, st, o)
    else if st.bits == 0 then
      if f.len % bpl == 0 then Ok(BlockStep(recs, p, st, o)) else Ok(StepOut([], st))
    else Err(AssertionFailed)
  }

  /** The renderer's loop from record `p` on: the lines it appends. */
  function RenderFrom(recs: seq<Placed>, p: nat, st: RenderState, o: Options): (r: Result<seq<string>, RenderFault>)
    requires o.bitsPerLine >= 1 && Renderable(recs) && p <= |recs|
    ensures r.Err? ==> p < |recs|
    ensures r == Err(IndexOutOfRange) ==> recs[|recs| - 1].moreFragments
    decreases |recs| - p
  {
    if p == |recs| then Ok([])
    else
      var out :- RenderStep(recs, p, st, o);
      var rest :- RenderFrom(recs, p + 1, out.next, o);
      Ok(out.lines + rest)
  }

  /** The lines of a diagram, before they are joined with newlines: the
      rulers (if any), the top border, then the rows. */
  function RenderLines(recs: seq<Placed>, o: Options): (r: Result<seq<string>, RenderFault>)
    requires o.bitsPerLine >= 1 && Renderable(recs)
    ensures r.Err? ==> |recs| >= 1
    ensures r.Ok? ==>
      var k := if o.printTens || o.printUnits then 1 else 0;
      && |r.value| >= k + 1
      && (k == 1 ==> Some(r.value[0]) == TopNumbers(o))
      && |r.value[k]| == 2 * o.bitsPerLine + 1
  {
    var numbers := TopNumbers(o);
    var head := (if numbers.Some? then [numbers.value] else []) + [Horizontal(o, o.bitsPerLine, 1, recs, false, 0)];
    var body :- RenderFrom(recs, 0, RenderState(0, 1, 0, ""), o);
    Ok(head + body)
  }

  // ---------------------------------------------------------------------
  // What the renderer guarantees on layout output
  // ---------------------------------------------------------------------

  /** A block field's label fits the single cell its middle line has. */
  predicate BlockLabelsFit(recs: seq<Placed>, bpl: int)
  {
    forall i :: 0 <= i < |recs| && recs[i].len > bpl ==> |recs[i].text| <= 2 * bpl - 1
  }

  /** Line widths of a run of rows: every line spans the full row width,
      except that a final partial row of `b` bits and the border under it
      are `2*b+1` wide. */
  predicate Widths(lines: seq<string>, bpl: int, b: int)
  {
    if b == 0 then forall i :: 0 <= i < |lines| ==> |lines[i]| == 2 * bpl + 1
    else
      |lines| >= 2 &&
      (forall i :: 0 <= i < |lines| - 2 ==> |lines[i]| == 2 * bpl + 1) &&
      |lines[|lines| - 2]| == 2 * b + 1 && |lines[|lines| - 1]| == 2 * b + 1
  }

  lemma WidthsPrefix(full: seq<string>, rest: seq<string>, bpl: int, b: int)
    requires forall i :: 0 <= i < |full| ==> |full[i]| == 2 * bpl + 1
    requires Widths(rest, bpl, b)
    ensures Widths(full + rest, bpl, b)
  {
    var all := full + rest;
    assert forall i :: |full| <= i < |all| ==> all[i] == rest[i - |full|];
  }

  /** The state the renderer keeps between records when walking a chain:
      the current line holds exactly the cells of the bits so far. */
  predicate InStep(st: RenderState, p: int, bpl: int)
  {
    0 <= st.bits < bpl && st.done == p &&
    |st.current| == (if st.bits == 0 then 0 else 2 * st.bits + 1)
  }

  /** On a chain, the border under a full row never faults and spans the
      whole row. */
  lemma RowBorderOnChain(recs: seq<Placed>, p: nat, textline: int, o: Options, cursor: int, line: int)
    requires o.bitsPerLine >= 1 && Renderable(recs) && p < |recs|
    requires Chain(recs[p..], o.bitsPerLine, cursor, line)
    requires 0 <= cursor && cursor + recs[p].len == o.bitsPerLine
    ensures var r := RowBorder(recs, p, textline, o);
      r.Ok? && |r.value| == 2 * o.bitsPerLine + 1
  {
    assert recs[p..][0] == recs[p];
    if recs[p].moreFragments {
      assert |recs[p..]| >= 2;
    }
  }

  /** A record that completes the current row: the row and the border
      under it are output, both a full row wide, and the next row starts
      empty. */
  lemma FullRowOnChain(recs: seq<Placed>, p: nat, st: RenderState, o: Options, line: int)
    requires o.bitsPerLine >= 1 && Renderable(recs) && p < |recs|
    requires Chain(recs[p..], o.bitsPerLine, st.bits, line) && InStep(st, p, o.bitsPerLine)
    requires st.bits + recs[p].len == o.bitsPerLine
    ensures var r := FitStep(recs, p, st, o);
      r.Ok? && r.value.next == RenderState(0, st.textline + 1, p + 1, "") &&
      NextColumn(st.bits, recs[p].len, o.bitsPerLine) == 0 &&
      |r.value.lines| == 2 &&
      |r.value.lines[0]| == 2 * o.bitsPerLine + 1 && |r.value.lines[1]| == 2 * o.bitsPerLine + 1 &&
      forall i :: 0 <= i < |r.value.lines| ==> |r.value.lines[i]| == 2 * o.bitsPerLine + 1
  {
    RowBorderOnChain(recs, p, st.textline + 1, o, st.bits, line);
  }

  /** A record that leaves the current row open: nothing is output and the
      current line grows by the record's cells, unless it is the last
      record, whose row is closed and given a bottom border as wide as
      the line. */
  lemma PartialRowOnChain(recs: seq<Placed>, p: nat, st: RenderState, o: Options)
    requires o.bitsPerLine >= 1 && Renderable(recs) && p < |recs|
    requires InStep(st, p, o.bitsPerLine)
    requires st.bits + recs[p].len < o.bitsPerLine
    ensures var r := FitStep(recs, p, st, o);
      var bits := st.bits + recs[p].len;
      r.Ok? && InStep(r.value.next, p + 1, o.bitsPerLine) && r.value.next.bits == bits &&
      NextColumn(st.bits, recs[p].len, o.bitsPerLine) == bits &&
      (p + 1 == |recs| ==>
        r.value.lines == [r.value.next.current, Horizontal(o, bits, st.textline, recs, true, 0)]) &&
      (p + 1 < |recs| ==> r.value.lines == [])
  {
  }

  /** A fitting record on a chain: the step succeeds, advances the column
      as the layout does, keeps the renderer's state in shape, and outputs
      either nothing, a full row and its border, or (after the last record)
      the closing lines of a partial row. */
  lemma FitOnChain(recs: seq<Placed>, p: nat, st: RenderState, o: Options, line: int)
    requires o.bitsPerLine >= 1 && Renderable(recs) && p < |recs|
    requires Chain(recs[p..], o.bitsPerLine, st.bits, line) && InStep(st, p, o.bitsPerLine)
    requires o.bitsPerLine - st.bits >= recs[p].len
    ensures var r := FitStep(recs, p, st, o);
      var bpl := o.bitsPerLine;
      r.Ok? && InStep(r.value.next, p + 1, bpl) &&
      r.value.next.bits == NextColumn(st.bits, recs[p].len, bpl) &&
      (r.value.next.bits != 0 && p + 1 == |recs| ==>
        r.value.lines == [r.value.next.current, Horizontal(o, r.value.next.bits, st.textline, recs, true, 0)]) &&
      (r.value.next.bits != 0 && p + 1 < |recs| ==> r.value.lines == []) &&
      (r.value.next.bits == 0 ==> forall i :: 0 <= i < |r.value.lines| ==> |r.value.lines[i]| == 2 * bpl + 1)
  {
    if st.bits + recs[p].len == o.bitsPerLine {
      FullRowOnChain(recs, p, st, o, line);
    } else {
      PartialRowOnChain(recs, p, st, o);
    }
  }

  /** On a chain, a record that does not fit in the rest of the row starts
      a row and is a whole number of rows long. */
  lemma ChainBlockHead(recs: seq<Placed>, p: nat, bpl: int, cursor: int, line: int)
    requires p < |recs| && Chain(recs[p..], bpl, cursor, line)
    requires bpl - cursor < recs[p].len
    ensures cursor == 0 && recs[p].len % bpl == 0 && recs[p].len / bpl >= 1
  {
    assert recs[p..][0] == recs[p];
  }

  /** A block whose label fits one cell is drawn as lines a full row
      wide, its border included. */
  lemma BlockWidths(recs: seq<Placed>, p: nat, st: RenderState, o: Options)
    requires o.bitsPerLine >= 1 && Renderable(recs) && p < |recs|
    requires recs[p].len / o.bitsPerLine >= 1 && |recs[p].text| <= 2 * o.bitsPerLine - 1
    ensures var r := BlockStep(recs, p, st, o);
      forall i :: 0 <= i < |r.lines| ==> |r.lines[i]| == 2 * o.bitsPerLine + 1
  {
    var bpl := o.bitsPerLine;
    var f := recs[p];
    var t := Truncate(f.text, f.len);
    BlockShape(o, t, f.len / bpl);
    var border := Horizontal(o, bpl, st.textline + 1, recs, p == |recs| - 1, 0);
    AllWide(BlockRows(o, t, f.len / bpl, 0), border, 2 * bpl + 1);
  }

  lemma AllWide(rows: seq<string>, last: string, w: int)
    requires forall i :: 0 <= i < |rows| ==> |rows[i]| == w
    requires |last| == w
    ensures forall i :: 0 <= i < |rows + [last]| ==> |(rows + [last])[i]| == w
  {
  }

  /** A block record on a chain: the row column stays at zero, and when
      its label fits one cell every line is a full row wide. */
  lemma BlockOnChain(recs: seq<Placed>, p: nat, st: RenderState, o: Options, line: int)
    requires o.bitsPerLine >= 1 && Renderable(recs) && p < |recs|
    requires Chain(recs[p..], o.bitsPerLine, st.bits, line) && InStep(st, p, o.bitsPerLine)
    requires o.bitsPerLine - st.bits < recs[p].len
    ensures st.bits == 0 && recs[p].len % o.bitsPerLine == 0
    ensures var r := BlockStep(recs, p, st, o);
      var bpl := o.bitsPerLine;
      InStep(r.next, p + 1, bpl) && r.next.bits == 0 == NextColumn(st.bits, recs[p].len, bpl) &&
      (BlockLabelsFit(recs, bpl) ==> forall i :: 0 <= i < |r.lines| ==> |r.lines[i]| == 2 * bpl + 1)
  {
    ChainBlockHead(recs, p, o.bitsPerLine, st.bits, line);
    if BlockLabelsFit(recs, o.bitsPerLine) {
      BlockWidths(recs, p, st, o);
    }
  }

  /** The border under a block closes the diagram exactly when the block
      is the last record: in Unicode it then opens with `└` and closes with
      `┘`, and otherwise it is a `├` ... `┤` separator. */
  lemma BlockBorderCorners(recs: seq<Placed>, p: nat, st: RenderState, o: Options)
    requires o.bitsPerLine >= 1 && Renderable(recs) && p < |recs|
    requires o.charset == Unicode && st.textline >= 1
    ensures var lines := BlockStep(recs, p, st, o).lines;
      var last := p == |recs| - 1;
      |lines| >= 1 && |lines[|lines| - 1]| == 2 * o.bitsPerLine + 1 &&
      lines[|lines| - 1][0] == (if last then '└' else '├') &&
      lines[|lines| - 1][2 * o.bitsPerLine] == (if last then '┘' else '┤')
  {
    var bpl := o.bitsPerLine;
    var f := recs[p];
    var rows := BlockRows(o, Truncate(f.text, f.len), f.len / bpl, 0);
    var border := Horizontal(o, bpl, st.textline + 1, recs, p == |recs| - 1, 0);
    assert BlockStep(recs, p, st, o).lines == rows + [border];
    UnicodeBorderShape(bpl, bpl, st.textline + 1, recs, p == |recs| - 1, 0);
  }

  /** One step along a chain: the step succeeds, the lines it completes are
      full width (or, for the last record ending a partial row, the two
      closing lines of that row), and the state stays in shape. */
  lemma StepOnChain(recs: seq<Placed>, p: nat, st: RenderState, o: Options, line: int)
    requires o.bitsPerLine >= 1 && Renderable(recs) && p < |recs|
    requires Chain(recs[p..], o.bitsPerLine, st.bits, line) && InStep(st, p, o.bitsPerLine)
    ensures var r := RenderStep(recs, p, st, o);
      var bpl := o.bitsPerLine;
      r.Ok? && InStep(r.value.next, p + 1, bpl) &&
      r.value.next.bits == NextColumn(st.bits, recs[p].len, bpl) &&
      (r.value.next.bits != 0 && p + 1 == |recs| ==>
        r.value.lines == [r.value.next.current, Horizontal(o, r.value.next.bits, st.textline, recs, true, 0)]) &&
      (r.value.next.bits != 0 && p + 1 < |recs| ==> r.value.lines == []) &&
      (r.value.next.bits == 0 && BlockLabelsFit(recs, bpl) ==>
        forall i :: 0 <= i < |r.value.lines| ==> |r.value.lines[i]| == 2 * bpl + 1)
  {
    if o.bitsPerLine - st.bits >= recs[p].len {
      FitOnChain(recs, p, st, o, line);
    } else {
      BlockOnChain(recs, p, st, o, line);
    }
  }

  /** The chain goes on after its first record from the column and row
      the layout moved to, and the renderer's final column is unchanged
      by the step. */
  lemma ChainNext(recs: seq<Placed>, p: nat, bpl: int, cursor: int, line: int)
    requires p < |recs| && Chain(recs[p..], bpl, cursor, line)
    ensures var next := NextColumn(cursor, recs[p].len, bpl);
      Chain(recs[p + 1..], bpl, next, if cursor + recs[p].len >= bpl then line + 1 else line) &&
      EndColumn(recs[p..], bpl, cursor) == EndColumn(recs[p + 1..], bpl, next)
  {
    assert recs[p..][0] == recs[p];
    assert recs[p..][1..] == recs[p + 1..];
  }

  /** The renderer's output from record `p` is the step's lines followed
      by the output from record `p+1`. */
  lemma RenderFromCons(recs: seq<Placed>, p: nat, st: RenderState, o: Options)
    requires o.bitsPerLine >= 1 && Renderable(recs) && p < |recs|
    requires RenderStep(recs, p, st, o).Ok?
    requires RenderFrom(recs, p + 1, RenderStep(recs, p, st, o).value.next, o).Ok?
    ensures RenderFrom(recs, p, st, o) ==
      Ok(RenderStep(recs, p, st, o).value.lines + RenderFrom(recs, p + 1, RenderStep(recs, p, st, o).value.next, o).value)
  {
  }

  /** Walking a chain, the renderer never faults, and the line widths
      follow the rows: full rows are `2*bitsPerLine+1` wide, a final
      partial row of `b` bits `2*b+1`. */
  lemma {:induction false} RenderOnChain(recs: seq<Placed>, p: nat, st: RenderState, o: Options, line: int)
    requires o.bitsPerLine >= 1 && Renderable(recs) && p <= |recs|
    requires Chain(recs[p..], o.bitsPerLine, st.bits, line) && InStep(st, p, o.bitsPerLine)
    requires st.bits == 0 || p < |recs|
    ensures var r := RenderFrom(recs, p, st, o);
      r.Ok? &&
      (BlockLabelsFit(recs, o.bitsPerLine) ==> Widths(r.value, o.bitsPerLine, EndColumn(recs[p..], o.bitsPerLine, st.bits)))
    decreases |recs| - p
  {
    if p < |recs| {
      var bpl := o.bitsPerLine;
      StepOnChain(recs, p, st, o, line);
      ChainNext(recs, p, bpl, st.bits, line);
      var out := RenderStep(recs, p, st, o).value;
      var nextLine := if st.bits + recs[p].len >= bpl then line + 1 else line;
      if p + 1 < |recs| || out.next.bits == 0 {
        RenderOnChain(recs, p + 1, out.next, o, nextLine);
      }
      RenderOnChainStep(recs, p, st, o);
    }
  }

  lemma RenderOnChainStep(recs: seq<Placed>, p: nat, st: RenderState, o: Options)
    requires o.bitsPerLine >= 1 && Renderable(recs) && p < |recs|
    requires var r := RenderStep(recs, p, st, o);
      var bpl := o.bitsPerLine;
      r.Ok? && InStep(r.value.next, p + 1, bpl) &&
      (r.value.next.bits != 0 && p + 1 == |recs| ==>
        r.value.lines == [r.value.next.current, Horizontal(o, r.value.next.bits, st.textline, recs, true, 0)]) &&
      (r.value.next.bits != 0 && p + 1 < |recs| ==> r.value.lines == []) &&
      (r.value.next.bits == 0 && BlockLabelsFit(recs, bpl) ==>
        forall i :: 0 <= i < |r.value.lines| ==> |r.value.lines[i]| == 2 * bpl + 1)
    requires var next := RenderStep(recs, p, st, o).value.next;
      p + 1 < |recs| || next.bits == 0 ==>
        var rest := RenderFrom(recs, p + 1, next, o);
        rest.Ok? &&
        (BlockLabelsFit(recs, o.bitsPerLine) ==> Widths(rest.value, o.bitsPerLine, EndColumn(recs[p + 1..], o.bitsPerLine, next.bits)))
    ensures var r := RenderFrom(recs, p, st, o);
      r.Ok? &&
      (BlockLabelsFit(recs, o.bitsPerLine) ==> Widths(r.value, o.bitsPerLine, EndColumn(recs[p + 1..], o.bitsPerLine, RenderStep(recs, p, st, o).value.next.bits)))
  {
    var bpl := o.bitsPerLine;
    var out := RenderStep(recs, p, st, o).value;
    var b := EndColumn(recs[p + 1..], bpl, out.next.bits);
    if p + 1 == |recs| && out.next.bits != 0 {
      RenderFromLast(recs, p, st, o);
      assert recs[p + 1..] == [];
      ClosingWidths(out.lines, bpl, out.next.bits);
    } else {
      var rest := RenderFrom(recs, p + 1, out.next, o).value;
      RenderFromCons(recs, p, st, o);
      if BlockLabelsFit(recs, bpl) {
        StepWidths(out.lines, rest, bpl, b, out.next.bits == 0);
      }
    }
  }

  lemma RenderFromLast(recs: seq<Placed>, p: nat, st: RenderState, o: Options)
    requires o.bitsPerLine >= 1 && Renderable(recs) && p + 1 == |recs|
    requires RenderStep(recs, p, st, o).Ok?
    ensures RenderFrom(recs, p, st, o) == Ok(RenderStep(recs, p, st, o).value.lines)
  {
    var out := RenderStep(recs, p, st, o).value;
    assert RenderFrom(recs, p + 1, out.next, o) == Ok([]);
    assert out.lines + [] == out.lines;
  }

  /** The content line and bottom border of a final partial row. */
  lemma ClosingWidths(lines: seq<string>, bpl: int, b: int)
    requires b != 0 && |lines| == 2 && |lines[0]| == 2 * b + 1 && |lines[1]| == 2 * b + 1
    ensures Widths(lines, bpl, b)
  {
  }

  /** One step's lines in front of the rest: full-width lines, or none. */
  lemma StepWidths(lines: seq<string>, rest: seq<string>, bpl: int, b: int, full: bool)
    requires full ==> forall i :: 0 <= i < |lines| ==> |lines[i]| == 2 * bpl + 1
    requires !full ==> lines == []
    requires Widths(rest, bpl, b)
    ensures Widths(lines + rest, bpl, b)
  {
    if full {
      WidthsPrefix(lines, rest, bpl, b);
    } else {
      assert lines + rest == rest;
    }
  }

  /** Layout output renders without fault, and every line below the top
      border is as wide as the top border, except the two closing lines of
      a final partial row of `b` bits, which are `2*b+1` wide. */
  lemma RenderLayout(fs: seq<Field>, o: Options)
    requires o.bitsPerLine >= 1
    ensures var recs := Layout.Layout(fs, o.bitsPerLine);
      Renderable(recs) &&
      RenderFrom(recs, 0, RenderState(0, 1, 0, ""), o).Ok? &&
      (BlockLabelsFit(recs, o.bitsPerLine) ==>
        Widths(RenderFrom(recs, 0, RenderState(0, 1, 0, ""), o).value, o.bitsPerLine, TotalLen(fs) % o.bitsPerLine))
  {
    var bpl := o.bitsPerLine;
    var recs := Layout.Layout(fs, bpl);
    ChainGeometry(recs, bpl, 0, 1);
    assert recs[0..] == recs;
    RenderOnChain(recs, 0, RenderState(0, 1, 0, ""), o, 1);
    LayoutEndColumn(fs, bpl);
  }
}
