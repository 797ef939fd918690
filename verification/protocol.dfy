/** A protocol diagram from its spec: parse the spec, lay its fields out
    in rows, draw the rows, and join the lines with newlines. The box
    style (ASCII or Unicode) is chosen from outside the spec. */
module Protocol {
  import opened Results
  import opened Text
  import opened Fields
  import opened SpecParser
  import opened Layout
  import opened Render

  /** Why no diagram came out: the spec was rejected, or the renderer
      raised. */
  datatype DiagramError = ParseFailed(parse: ParseError) | RenderFailed(fault: RenderFault)

  /** The settings a diagram is drawn with: the spec's options and the box
      style chosen from outside. */
  function DrawOptions(p: ParsedSpec, charset: Charset): Options
  {
    p.options.(charset := charset)
  }

  /** The lines of the diagram for `spec`, before they are joined. */
  function DiagramLines(spec: string, charset: Charset): (r: Result<seq<string>, DiagramError>)
    ensures r.Err? <==> ParseSpec(spec).Err?
    ensures r.Err? ==> r.error == ParseFailed(ParseSpec(spec).error)
    ensures r.Ok? ==> |r.value| >= 1
  {
    match ParseSpec(spec)
    case Err(e) => Err(ParseFailed(e))
    case Ok(p) =>
      var o := DrawOptions(p, charset);
      RenderLayout(p.fields, o);
      match RenderLines(Layout.Layout(p.fields, o.bitsPerLine), o)
      case Err(f) => Err(RenderFailed(f))
      case Ok(lines) => Ok(lines)
  }

  /** The diagram for `spec`: its lines joined with newlines. It exists
      exactly when the spec parses; otherwise the parser's error is
      reported. */
  function Diagram(spec: string, charset: Charset): (r: Result<string, DiagramError>)
    ensures r.Ok? <==> ParseSpec(spec).Ok?
    ensures r.Err? ==> r.error == ParseFailed(ParseSpec(spec).error)
    ensures r.Ok? ==> DiagramLines(spec, charset).Ok? && r.value == Join(DiagramLines(spec, charset).value, '\n')
  {
    var d := DiagramLines(spec, charset);
    DiagramFailsOnlyOnParse(spec, charset);
    if d.Err? then Err(d.error) else Ok(Join(d.value, '\n'))
  }

  /** The renderer never raises on what the layout pass produces: a spec
      yields a diagram exactly when it parses, and a rejected spec reports
      the parser's error. */
  lemma DiagramFailsOnlyOnParse(spec: string, charset: Charset)
    ensures DiagramLines(spec, charset).Err? <==> ParseSpec(spec).Err?
    ensures ParseSpec(spec).Err? ==> DiagramLines(spec, charset) == Err(ParseFailed(ParseSpec(spec).error))
  {
    if ParseSpec(spec).Ok? {
      var p := ParseSpec(spec).value;
      RenderLayout(p.fields, DrawOptions(p, charset));
    }
  }

  /** The shape of a diagram: the rulers first when they are switched on,
      then the top border a full row wide, then the rows. Every row line
      and border is as wide as the top border, except the two closing lines
      of a final partial row of `b` bits, which are `2*b+1` wide, where `b`
      is the total bit count modulo the row width. This holds when every
      block field's label fits on one row. */
  lemma DiagramShape(spec: string, charset: Charset)
    ensures ParseSpec(spec).Ok? ==> DiagramLines(spec, charset).Ok?
    ensures ParseSpec(spec).Ok? ==>
      var p := ParseSpec(spec).value;
      var o := DrawOptions(p, charset);
      var bpl := o.bitsPerLine;
      var lines := DiagramLines(spec, charset).value;
      var k := if o.printTens || o.printUnits then 1 else 0;
      |lines| >= k + 1 &&
      (k == 1 ==> lines[0] == TopNumbers(o).value) &&
      |lines[k]| == 2 * bpl + 1 &&
      (BlockLabelsFit(Layout.Layout(p.fields, bpl), bpl) ==>
        Widths(lines[k + 1..], bpl, TotalLen(p.fields) % bpl))
  {
    if ParseSpec(spec).Ok? {
      var p := ParseSpec(spec).value;
      var o := DrawOptions(p, charset);
      var bpl := o.bitsPerLine;
      var recs := Layout.Layout(p.fields, bpl);
      RenderLayout(p.fields, o);
      var numbers := TopNumbers(o);
      var head := (if numbers.Some? then [numbers.value] else []) + [Horizontal(o, bpl, 1, recs, false, 0)];
      var body := RenderFrom(recs, 0, RenderState(0, 1, 0, ""), o).value;
      assert RenderLines(recs, o) == Ok(head + body);
      var k := if o.printTens || o.printUnits then 1 else 0;
      assert |head| == k + 1;
      assert (head + body)[k + 1..] == body;
    }
  }
}
