/** The layout pass: packs the parsed fields into rows of `bitsPerLine`
    bits, splitting a field that does not fit into a row-filling fragment
    and a remainder, and keeping a row-aligned field whose length is a
    multiple of the row width whole as one block record. */
module Layout {
  import opened Fields

  function TotalLen(fs: seq<Field>): int
  {
    if |fs| == 0 then 0 else fs[0].len + TotalLen(fs[1..])
  }

  function SumLen(recs: seq<Placed>): int
  {
    if |recs| == 0 then 0 else recs[0].len + SumLen(recs[1..])
  }

  lemma {:induction false} SumLenAppend(a: seq<Placed>, b: seq<Placed>)
    ensures SumLen(a + b) == SumLen(a) + SumLen(b)
    decreases |a|
  {
    if |a| == 0 {
      assert a + b == b;
    } else {
      assert (a + b)[1..] == a[1..] + b;
      SumLenAppend(a[1..], b);
    }
  }

  /** The column after a record that starts at `cursor`: a record that
      reaches the end of the row (or a block, which covers whole rows)
      leaves the cursor at the start of the next row. */
  function NextColumn(cursor: int, len: int, bpl: int): int
  {
    if cursor + len >= bpl then 0 else cursor + len
  }

  /** The shape of record sequence the renderer walks: every record starts
      at the renderer's cursor and either fits in what is left of the row
      or is a block that starts a row and covers whole rows. A fragment
      with more to come ends its row and is followed by another record. */
  predicate Chain(recs: seq<Placed>, bpl: int, cursor: int, line: int)
    decreases |recs|
  {
    bpl >= 1 &&
    (|recs| == 0 ||
     var p := recs[0];
     p.start == cursor && p.line == line && p.len >= 1 &&
     if cursor + p.len <= bpl then
       p.end == cursor + p.len - 1 &&
       (p.moreFragments ==> cursor + p.len == bpl && |recs| >= 2) &&
       (if cursor + p.len == bpl then Chain(recs[1..], bpl, 0, line + 1)
        else Chain(recs[1..], bpl, cursor + p.len, line))
     else
       cursor == 0 && p.len % bpl == 0 && !p.moreFragments && p.end == bpl - 1 &&
       Chain(recs[1..], bpl, 0, line + 1))
  }

  /** The renderer's column once it has walked all of `recs`. */
  function EndColumn(recs: seq<Placed>, bpl: int, cursor: int): int
  {
    if |recs| == 0 then cursor
    else EndColumn(recs[1..], bpl, NextColumn(cursor, recs[0].len, bpl))
  }

  /** What one pass of the layout loop does with the field at the head of
      the list: the record it emits, whether the field is used up, and
      (when it is not) the remainder that takes the field's place, plus
      the cursor and row the next pass starts from. When `done` holds,
      `rest` is the field itself and plays no further part. */
  datatype Pass = Pass(rec: Placed, done: bool, rest: Field, cursor: int, line: int)

  /** One pass of the loop. A field that fits in what is left of the row is
      placed whole; a field that starts a row and is a multiple of the row
      width is placed whole as a block; any other field is split into a
      fragment that fills the row and a remainder for the next row. The
      fragment keeps the label when it is at least as long as the
      remainder. */
  function LayoutPass(f: Field, bpl: int, cursor: int, line: int): (s: Pass)
    requires bpl >= 1 && 0 <= cursor < bpl
    ensures 0 <= s.cursor < bpl
    ensures s.rec.start == cursor && s.rec.line == line && s.rec.len >= 1
    ensures s.rec.moreFragments <==> !s.done
    ensures s.done <==> f.len <= bpl - cursor || (cursor == 0 && f.len % bpl == 0)
    ensures s.done ==> s.rec.len == f.len && s.rec.text == f.text
    ensures s.done && f.len < bpl - cursor ==>
      s.rec.end == cursor + f.len - 1 && s.cursor == cursor + f.len && s.line == line
    ensures s.done && f.len == bpl - cursor ==> s.rec.end == bpl - 1 && s.cursor == 0 && s.line == line + 1
    ensures s.done && f.len > bpl - cursor ==>
      cursor == 0 && s.rec.end == bpl - 1 && s.cursor == 0 && s.line == line + 1
    ensures !s.done ==> s.rec.end == bpl - 1 && s.cursor == 0 && s.line == line + 1
    ensures !s.done ==> s.rec.len + s.rest.len == f.len && s.rec.len == bpl - cursor
    ensures !s.done && s.rec.len >= s.rest.len ==> s.rec.text == f.text && s.rest.text == ""
    ensures !s.done && s.rec.len < s.rest.len ==> s.rec.text == "" && s.rest.text == f.text
  {
    var avail := bpl - cursor;
    if avail >= f.len then
      var next := cursor + f.len;
      Pass(Placed(f.text, f.len, false, cursor, next - 1, line), true, f,
           if next == bpl then 0 else next, if next == bpl then line + 1 else line)
    else if cursor == 0 && f.len % bpl == 0 then
      Pass(Placed(f.text, f.len, false, 0, bpl - 1, line), true, f, 0, line + 1)
    else
      var remaining := f.len - avail;
      var takes := avail >= remaining;
      Pass(Placed(if takes then f.text else "", avail, true, cursor, bpl - 1, line),
           false, Field(if takes then "" else f.text, remaining), 0, line + 1)
  }

  /** The list the loop continues with after a pass. */
  function Continue(fs: seq<Field>, s: Pass): seq<Field>
    requires |fs| >= 1
  {
    if s.done then fs[1..] else [s.rest] + fs[1..]
  }

  /** The layout loop as written: each pass emits one record and either
      moves on to the next field or leaves the remainder of the current
      one at the head of the list. It ends because every pass either drops
      a field or shortens the head field. */
  function LayoutLoop(fs: seq<Field>, bpl: int, cursor: int, line: int): (r: seq<Placed>)
    requires bpl >= 1 && 0 <= cursor < bpl
    ensures |r| >= |fs| && (|fs| == 0 ==> |r| == 0)
    decreases |fs|, if |fs| == 0 then 0 else fs[0].len
  {
    if |fs| == 0 then []
    else
      var s := LayoutPass(fs[0], bpl, cursor, line);
      var next := Continue(fs, s);
      assert !s.done ==> next[0] == s.rest;
      [s.rec] + LayoutLoop(next, bpl, s.cursor, s.line)
  }

  /** Chain and SumLen of a record put in front of others. */
  lemma ConsFacts(p: Placed, rest: seq<Placed>)
    ensures ([p] + rest)[0] == p && ([p] + rest)[1..] == rest
    ensures SumLen([p] + rest) == p.len + SumLen(rest)
  {
    assert ([p] + rest)[1..] == rest;
  }

  /** A pass's record is the head of a chain that continues from where
      the pass leaves the cursor: a whole field or fragment ends where its
      length says and moves the cursor on (to a new row when the row is
      full), and a block starts a row and is a multiple of its width. */
  lemma PassHeadsChain(f: Field, bpl: int, cursor: int, line: int, rest: seq<Placed>)
    requires bpl >= 1 && 0 <= cursor < bpl
    requires var s := LayoutPass(f, bpl, cursor, line);
      Chain(rest, bpl, s.cursor, s.line) && (!s.done ==> |rest| >= 1)
    ensures Chain([LayoutPass(f, bpl, cursor, line).rec] + rest, bpl, cursor, line)
  {
    ConsFacts(LayoutPass(f, bpl, cursor, line).rec, rest);
  }

  /** The loop's output is a chain the renderer can walk from where the
      loop started, and it lays down exactly the bits of the fields. */
  lemma {:induction false} LayoutLoopChain(fs: seq<Field>, bpl: int, cursor: int, line: int)
    requires bpl >= 1 && 0 <= cursor < bpl
    ensures Chain(LayoutLoop(fs, bpl, cursor, line), bpl, cursor, line)
    ensures SumLen(LayoutLoop(fs, bpl, cursor, line)) == TotalLen(fs)
    decreases |fs|, if |fs| == 0 then 0 else fs[0].len
  {
    if |fs| > 0 {
      var s := LayoutPass(fs[0], bpl, cursor, line);
      var next := Continue(fs, s);
      assert !s.done ==> next[0] == s.rest && next[1..] == fs[1..];
      var rest := LayoutLoop(next, bpl, s.cursor, s.line);
      LayoutLoopChain(next, bpl, s.cursor, s.line);
      PassHeadsChain(fs[0], bpl, cursor, line, rest);
      ConsFacts(s.rec, rest);
    }
  }

  /** The records of a whole field list, starting on row 1 at column 0. */
  function Layout(fs: seq<Field>, bpl: int): (r: seq<Placed>)
    requires bpl >= 1
    ensures Chain(r, bpl, 0, 1)
    ensures SumLen(r) == TotalLen(fs)
    ensures |r| >= |fs|
  {
    LayoutLoopChain(fs, bpl, 0, 1);
    LayoutLoop(fs, bpl, 0, 1)
  }

  /** The records one field becomes, and where the next field starts. */
  datatype Chunk = Chunk(recs: seq<Placed>, cursor: int, line: int)

  /** Which of a field's records carries its label: the first fragment at
      least as long as everything that still follows it, or else the last
      record. */
  function LabelIndex(recs: seq<Placed>): (i: int)
    requires |recs| >= 1
    ensures 0 <= i < |recs|
    decreases |recs|
  {
    if |recs| == 1 || recs[0].len >= SumLen(recs[1..]) then 0
    else LabelIndex(recs[1..]) + 1
  }

  /** `LabelIndex` names the first record at least as long as the rest of
      its field, or the last record when there is none. */
  lemma {:induction false} LabelIndexFirst(recs: seq<Placed>)
    requires |recs| >= 1
    ensures var i := LabelIndex(recs);
      (i == |recs| - 1 || recs[i].len >= SumLen(recs[i + 1..])) &&
      forall j :: 0 <= j < i ==> recs[j].len < SumLen(recs[j + 1..])
    decreases |recs|
  {
    if !(|recs| == 1 || recs[0].len >= SumLen(recs[1..])) {
      var k := LabelIndex(recs[1..]);
      LabelIndexFirst(recs[1..]);
      assert forall j :: 1 <= j <= k + 1 ==> recs[j] == recs[1..][j - 1] && recs[j + 1..] == recs[1..][j..];
    }
  }

  /** The label sits on exactly the record `LabelIndex` picks; every other
      record of the field is blank. */
  predicate LabelOn(recs: seq<Placed>, text: string)
    requires |recs| >= 1
  {
    forall j :: 0 <= j < |recs| ==> recs[j].text == (if j == LabelIndex(recs) then text else "")
  }

  /** One field placed on its own: the passes the loop spends on it before
      it moves to the next field. */
  function PlaceField(f: Field, bpl: int, cursor: int, line: int): (c: Chunk)
    requires bpl >= 1 && 0 <= cursor < bpl
    ensures |c.recs| >= 1 && 0 <= c.cursor < bpl
    decreases f.len
  {
    var s := LayoutPass(f, bpl, cursor, line);
    if s.done then Chunk([s.rec], s.cursor, s.line)
    else
      var c := PlaceField(s.rest, bpl, s.cursor, s.line);
      Chunk([s.rec] + c.recs, c.cursor, c.line)
  }

  /** Which record of a field a fragment in front of it hands the label
      to. */
  lemma LabelIndexCons(p: Placed, rest: seq<Placed>)
    requires |rest| >= 1
    ensures LabelIndex([p] + rest) == if p.len >= SumLen(rest) then 0 else LabelIndex(rest) + 1
  {
    ConsFacts(p, rest);
  }

  /** A field's records add up to its length, all but the last are
      fragments with more to come, and the label lands on exactly one of
      them: the one `LabelIndex` names. */
  lemma {:induction false} PlaceFieldShape(f: Field, bpl: int, cursor: int, line: int)
    requires bpl >= 1 && 0 <= cursor < bpl
    ensures var c := PlaceField(f, bpl, cursor, line);
      SumLen(c.recs) == f.len &&
      (forall j :: 0 <= j < |c.recs| ==> (c.recs[j].moreFragments <==> j < |c.recs| - 1)) &&
      LabelOn(c.recs, f.text)
    decreases f.len
  {
    var s := LayoutPass(f, bpl, cursor, line);
    var recs := PlaceField(f, bpl, cursor, line).recs;
    if s.done {
      assert recs == [s.rec] && recs[1..] == [];
      assert LabelIndex(recs) == 0;
    } else {
      var c := PlaceField(s.rest, bpl, s.cursor, s.line);
      PlaceFieldShape(s.rest, bpl, s.cursor, s.line);
      assert recs == [s.rec] + c.recs;
      ConsFacts(s.rec, c.recs);
      LabelIndexCons(s.rec, c.recs);
      forall j | 1 <= j < |recs| ensures recs[j] == c.recs[j - 1] { }
    }
  }

  /** A field becomes a single record exactly when it fits in what is left
      of the row, or starts a row and is a multiple of the row width (a
      block). Any other field is cut into two or more pieces. */
  lemma PlaceFieldWhole(f: Field, bpl: int, cursor: int, line: int)
    requires bpl >= 1 && 0 <= cursor < bpl
    ensures var c := PlaceField(f, bpl, cursor, line);
      c.recs[0].start == cursor &&
      (|c.recs| == 1 <==> f.len <= bpl - cursor || (cursor == 0 && f.len % bpl == 0))
  {
    var s := LayoutPass(f, bpl, cursor, line);
    if !s.done {
      var c := PlaceField(s.rest, bpl, s.cursor, s.line);
      assert PlaceField(f, bpl, cursor, line).recs == [s.rec] + c.recs;
    }
  }

  /** A block: a field at the start of a row whose length is a multiple of
      the row width is one record covering the whole row, and the next
      field starts on the following line. */
  lemma BlockIsOneRecord(f: Field, bpl: int, line: int)
    requires bpl >= 1 && f.len % bpl == 0
    ensures PlaceField(f, bpl, 0, line) == Chunk([Placed(f.text, f.len, false, 0, bpl - 1, line)], 0, line + 1)
  {
  }

  /** The loop's work split field by field: one group of records per
      field. */
  function Groups(fs: seq<Field>, bpl: int, cursor: int, line: int): (gs: seq<seq<Placed>>)
    requires bpl >= 1 && 0 <= cursor < bpl
    ensures |gs| == |fs|
    decreases |fs|
  {
    if |fs| == 0 then []
    else
      var c := PlaceField(fs[0], bpl, cursor, line);
      [c.recs] + Groups(fs[1..], bpl, c.cursor, c.line)
  }

  /** Each group is its field: the group's records add up to the field's
      length and carry its label exactly once. */
  lemma {:induction false} GroupsShape(fs: seq<Field>, bpl: int, cursor: int, line: int)
    requires bpl >= 1 && 0 <= cursor < bpl
    ensures var gs := Groups(fs, bpl, cursor, line);
      forall i :: 0 <= i < |fs| ==> |gs[i]| >= 1 && SumLen(gs[i]) == fs[i].len && LabelOn(gs[i], fs[i].text)
    decreases |fs|
  {
    if |fs| > 0 {
      var c := PlaceField(fs[0], bpl, cursor, line);
      PlaceFieldShape(fs[0], bpl, cursor, line);
      GroupsShape(fs[1..], bpl, c.cursor, c.line);
      var gs := Groups(fs, bpl, cursor, line);
      var rest := Groups(fs[1..], bpl, c.cursor, c.line);
      assert gs == [c.recs] + rest;
      forall i | 1 <= i < |fs| ensures gs[i] == rest[i - 1] && fs[i] == fs[1..][i - 1] { }
    }
  }

  /** The block rule over a whole field list: a field's group is a single
      record exactly when the field fits in what is left of the row where
      the group starts, or starts a row and is a multiple of the row
      width. */
  lemma {:induction false} GroupsWhole(fs: seq<Field>, bpl: int, cursor: int, line: int)
    requires bpl >= 1 && 0 <= cursor < bpl
    ensures var gs := Groups(fs, bpl, cursor, line);
      forall i :: 0 <= i < |fs| ==>
        (|gs[i]| >= 1 &&
         (|gs[i]| == 1 <==> fs[i].len <= bpl - gs[i][0].start || (gs[i][0].start == 0 && fs[i].len % bpl == 0)))
    decreases |fs|
  {
    if |fs| > 0 {
      var c := PlaceField(fs[0], bpl, cursor, line);
      PlaceFieldWhole(fs[0], bpl, cursor, line);
      GroupsWhole(fs[1..], bpl, c.cursor, c.line);
      var gs := Groups(fs, bpl, cursor, line);
      var rest := Groups(fs[1..], bpl, c.cursor, c.line);
      assert gs == [c.recs] + rest;
      forall i | 1 <= i < |fs| ensures gs[i] == rest[i - 1] && fs[i] == fs[1..][i - 1] { }
    }
  }

  function Flatten(gs: seq<seq<Placed>>): seq<Placed>
  {
    if |gs| == 0 then [] else gs[0] + Flatten(gs[1..])
  }

  /** The loop, started on one field, emits that field's records first and
      then continues exactly as it would from where the field ends. */
  lemma {:induction false} LayoutLoopPlacesHead(fs: seq<Field>, bpl: int, cursor: int, line: int)
    requires bpl >= 1 && 0 <= cursor < bpl && |fs| >= 1
    ensures var c := PlaceField(fs[0], bpl, cursor, line);
      LayoutLoop(fs, bpl, cursor, line) == c.recs + LayoutLoop(fs[1..], bpl, c.cursor, c.line)
    decreases fs[0].len
  {
    var s := LayoutPass(fs[0], bpl, cursor, line);
    if s.done {
      assert LayoutLoop(fs, bpl, cursor, line) == [s.rec] + LayoutLoop(fs[1..], bpl, s.cursor, s.line);
    } else {
      var tail := [s.rest] + fs[1..];
      assert tail[0] == s.rest && tail[1..] == fs[1..];
      LayoutLoopPlacesHead(tail, bpl, s.cursor, s.line);
      var c := PlaceField(s.rest, bpl, s.cursor, s.line);
      var after := LayoutLoop(fs[1..], bpl, c.cursor, c.line);
      assert LayoutLoop(fs, bpl, cursor, line) == [s.rec] + LayoutLoop(tail, bpl, s.cursor, s.line);
      assert ([s.rec] + c.recs) + after == [s.rec] + (c.recs + after);
    }
  }

  /** Where each field's records end is where the loop continues: the
      loop's output is the groups laid end to end. */
  lemma {:induction false} LayoutGroups(fs: seq<Field>, bpl: int, cursor: int, line: int)
    requires bpl >= 1 && 0 <= cursor < bpl
    ensures LayoutLoop(fs, bpl, cursor, line) == Flatten(Groups(fs, bpl, cursor, line))
    decreases |fs|
  {
    if |fs| > 0 {
      LayoutLoopPlacesHead(fs, bpl, cursor, line);
      var c := PlaceField(fs[0], bpl, cursor, line);
      LayoutGroups(fs[1..], bpl, c.cursor, c.line);
      var gs := Groups(fs, bpl, cursor, line);
      assert gs[0] == c.recs && gs[1..] == Groups(fs[1..], bpl, c.cursor, c.line);
    }
  }

  /** Every field's records add up to the field's own length, and its label
      lands on exactly one of them. */
  lemma FieldsConserved(fs: seq<Field>, bpl: int)
    requires bpl >= 1
    ensures var gs := Groups(fs, bpl, 0, 1);
      Layout(fs, bpl) == Flatten(gs) && |gs| == |fs| &&
      forall i :: 0 <= i < |fs| ==> |gs[i]| >= 1 && SumLen(gs[i]) == fs[i].len && LabelOn(gs[i], fs[i].text)
  {
    LayoutGroups(fs, bpl, 0, 1);
    GroupsShape(fs, bpl, 0, 1);
  }

  /** In the layout of a field list, a field is kept as one record exactly
      when it fits in what is left of its row, or starts a row and is a
      multiple of the row width; every other field is split. */
  lemma LayoutBlockRule(fs: seq<Field>, bpl: int)
    requires bpl >= 1
    ensures var gs := Groups(fs, bpl, 0, 1);
      Layout(fs, bpl) == Flatten(gs) &&
      forall i :: 0 <= i < |fs| ==>
        (|gs[i]| >= 1 &&
         (|gs[i]| == 1 <==> fs[i].len <= bpl - gs[i][0].start || (gs[i][0].start == 0 && fs[i].len % bpl == 0)))
  {
    LayoutGroups(fs, bpl, 0, 1);
    GroupsWhole(fs, bpl, 0, 1);
  }

  lemma MulAtLeast(a: int, d: int)
    requires a >= 1 && d >= 1
    ensures a * d >= d
  {
  }

  /** Euclidean division has one quotient and remainder. */
  lemma ModUnique(x: int, q: int, r: int, d: int)
    requires d >= 1 && x == q * d + r && 0 <= r < d
    ensures x % d == r
  {
    var q' := x / d;
    var r' := x % d;
    assert x == q' * d + r';
    assert (q - q') * d == r' - r by {
      assert q * d - q' * d == (q - q') * d;
    }
    if q > q' {
      MulAtLeast(q - q', d);
    }
    if q < q' {
      MulAtLeast(q' - q, d);
    }
  }

  lemma AddRow(a: int, d: int)
    requires d >= 1
    ensures (a + d) % d == a % d
  {
    assert a == (a / d) * d + a % d;
    assert a + d == (a / d + 1) * d + a % d;
    ModUnique(a + d, a / d + 1, a % d, d);
  }

  lemma {:induction false} ModMultiple(len: int, a: int, bpl: int)
    requires bpl >= 1 && len >= 0 && len % bpl == 0
    ensures (len + a) % bpl == a % bpl
    decreases len
  {
    if len > 0 {
      assert len >= bpl;
      AddRow(len - bpl, bpl);
      ModMultiple(len - bpl, a + bpl, bpl);
      AddRow(a, bpl);
    }
  }

  /** Walking a chain moves the cursor by the total length, modulo the row
      width: the cursor is back at column 0 exactly when the bits laid so
      far fill whole rows. */
  lemma {:induction false} EndColumnOfChain(recs: seq<Placed>, bpl: int, cursor: int, line: int)
    requires bpl >= 1 && 0 <= cursor < bpl && Chain(recs, bpl, cursor, line)
    ensures EndColumn(recs, bpl, cursor) == (cursor + SumLen(recs)) % bpl
    decreases |recs|
  {
    if |recs| > 0 {
      var p := recs[0];
      var next := NextColumn(cursor, p.len, bpl);
      if cursor + p.len <= bpl {
        if cursor + p.len == bpl {
          EndColumnOfChain(recs[1..], bpl, 0, line + 1);
          ModMultiple(bpl, SumLen(recs[1..]), bpl);
        } else {
          EndColumnOfChain(recs[1..], bpl, cursor + p.len, line);
        }
      } else {
        EndColumnOfChain(recs[1..], bpl, 0, line + 1);
        ModMultiple(p.len, SumLen(recs[1..]), bpl);
      }
    }
  }

  /** Bits left over on the last row of a diagram. */
  lemma LayoutEndColumn(fs: seq<Field>, bpl: int)
    requires bpl >= 1
    ensures EndColumn(Layout(fs, bpl), bpl, 0) == TotalLen(fs) % bpl
  {
    EndColumnOfChain(Layout(fs, bpl), bpl, 0, 1);
  }

  /** A record sits inside its row. It ends where its length says, or it
      is a block that starts the row and covers whole rows. */
  predicate InRow(p: Placed, bpl: int)
  {
    0 <= p.start <= p.end <= bpl - 1 && p.len >= 1 &&
    (p.end == p.start + p.len - 1 || (p.start == 0 && p.len > bpl && p.len % bpl == 0 && p.end == bpl - 1))
  }

  /** A fragment with more to come ends its row, and the next record
      opens the following row. */
  predicate Continued(recs: seq<Placed>, i: int, bpl: int)
    requires 0 <= i < |recs|
  {
    recs[i].moreFragments ==>
      i + 1 < |recs| && recs[i].end == bpl - 1 && recs[i + 1].start == 0 && recs[i + 1].line == recs[i].line + 1
  }

  /** Record geometry along a chain: every record sits inside its row, a
      fragment with more to come is followed by a record opening the next
      row, and no record comes before the chain's first line. */
  lemma {:induction false} ChainGeometry(recs: seq<Placed>, bpl: int, cursor: int, line: int)
    requires bpl >= 1 && 0 <= cursor < bpl && Chain(recs, bpl, cursor, line)
    ensures forall i :: 0 <= i < |recs| ==> InRow(recs[i], bpl) && line <= recs[i].line
    ensures forall i :: 0 <= i < |recs| ==> Continued(recs, i, bpl)
    decreases |recs|
  {
    if |recs| > 0 {
      var p := recs[0];
      var next := if cursor + p.len < bpl then cursor + p.len else 0;
      var nextLine := if cursor + p.len < bpl then line else line + 1;
      ChainGeometry(recs[1..], bpl, next, nextLine);
      ChainHead(recs, bpl, cursor, line);
      forall i | 1 <= i < |recs|
        ensures InRow(recs[i], bpl) && line <= recs[i].line && Continued(recs, i, bpl)
      {
        ContinuedShift(recs, i, bpl);
      }
    }
  }

  /** The geometry of the first record of a chain. */
  lemma ChainHead(recs: seq<Placed>, bpl: int, cursor: int, line: int)
    requires bpl >= 1 && 0 <= cursor < bpl && Chain(recs, bpl, cursor, line) && |recs| >= 1
    ensures InRow(recs[0], bpl) && recs[0].line == line && Continued(recs, 0, bpl)
    ensures Chain(recs[1..], bpl, if cursor + recs[0].len < bpl then cursor + recs[0].len else 0,
      if cursor + recs[0].len < bpl then line else line + 1)
  {
    var p := recs[0];
    if p.moreFragments {
      var q := recs[1..];
      assert q[0] == recs[1];
    }
  }

  lemma ContinuedShift(recs: seq<Placed>, i: int, bpl: int)
    requires 1 <= i < |recs|
    ensures recs[1..][i - 1] == recs[i]
    ensures Continued(recs[1..], i - 1, bpl) <==> Continued(recs, i, bpl)
  {
    assert i < |recs| - 1 ==> recs[1..][i] == recs[i + 1];
  }

  /** Every record the layout emits has a place in its row, and a
      fragment with more to come ends its row and is followed by a record
      that opens the next row. */
  lemma LayoutGeometry(fs: seq<Field>, bpl: int)
    requires bpl >= 1
    ensures var r := Layout(fs, bpl);
      forall i :: 0 <= i < |r| ==> 0 <= r[i].start <= r[i].end <= bpl - 1 && 1 <= r[i].line
    ensures forall i :: 0 <= i < |Layout(fs, bpl)| ==> Continued(Layout(fs, bpl), i, bpl)
  {
    ChainGeometry(Layout(fs, bpl), bpl, 0, 1);
  }
}
