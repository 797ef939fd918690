/** The spec mini-language: `name:bits,name:bits,...` optionally followed
    by `?key=value,key=value,...`. Every rejection of protocolpro is an
    `Err` here, carrying the text its message quotes. */
module SpecParser {
  import opened Results
  import opened Text
  import opened Fields

  datatype ParseError =
    | MultipleSeparators               // '?' occurs more than once
    | NonPositiveLength(spec: string)  // a field of zero or fewer bits
    | InvalidFieldList(spec: string)   // a token that is not `name:integer`
    | InvalidBits(value: string)       // `bits` given zero or less
    | InvalidNumbers(value: string)    // `numbers` given an unknown token
    | InvalidChar(key: string, value: string) // a glyph option not one character long
    | InvalidOptionSyntax(opt: string) // not `key=value`, or `bits` not an integer

  datatype ParsedSpec = ParsedSpec(fields: seq<Field>, options: Options)

  /** The value tokens of `numbers`, after lower-casing. `none` is in both
      lists; the first list is consulted first, so it switches rulers off. */
  const FalseTokens: seq<string> := ["0", "n", "no", "none", "false"]
  const TrueTokens: seq<string> := ["1", "y", "yes", "none", "true"]
  const CharKeys: seq<string> := ["oddchar", "evenchar", "startchar", "endchar", "sepchar"]

  /** The text after the one colon of a field token. */
  function LengthText(item: string): string
  {
    Split(item, ':')[|Split(item, ':')| - 1]
  }

  /** One `name:bits` token. `spec` is the whole spec, which the error
      messages quote. */
  function ParseField(item: string, spec: string): (r: Result<Field, ParseError>)
    ensures r.Err? ==> r.error == InvalidFieldList(spec) || r.error == NonPositiveLength(spec)
  {
    var parts := Split(item, ':');
    if |parts| != 2 then Err(InvalidFieldList(spec))
    else
      match ParseInt(parts[1])
      case None => Err(InvalidFieldList(spec))
      case Some(n) =>
        if n <= 0 then Err(NonPositiveLength(spec)) else Ok(Field(parts[0], n))
  }

  /** What a field token means: a token is accepted exactly when it holds
      one colon and the text after it reads as an integer of at least one;
      the label is then everything before the colon and the length is that
      integer. A token without exactly one colon, or whose length text is
      not an integer, is a syntax error; an integer of zero or less is a
      length error. */
  lemma ParseFieldMeaning(item: string, spec: string)
    ensures var r := ParseField(item, spec);
      && (r.Ok? ==>
            && ':' !in r.value.text
            && item == r.value.text + [':'] + LengthText(item)
            && ParseInt(LengthText(item)) == Some(r.value.len))
      && (r == Err(InvalidFieldList(spec)) <==>
            Count(item, ':') != 1 || ParseInt(LengthText(item)).None?)
      && (r == Err(NonPositiveLength(spec)) <==>
            Count(item, ':') == 1 && ParseInt(LengthText(item)).Some? && ParseInt(LengthText(item)).value <= 0)
  {
    var parts := Split(item, ':');
    if |parts| == 2 {
      assert Join(parts, ':') == parts[0] + [':'] + Join(parts[1..], ':');
      assert item == parts[0] + [':'] + parts[1];
    }
  }

  /** The comma-separated field tokens, in order; the first bad token
      decides the error. */
  function ParseFieldList(items: seq<string>, spec: string): (r: Result<seq<Field>, ParseError>)
    ensures r.Ok? <==> forall i :: 0 <= i < |items| ==> ParseField(items[i], spec).Ok?
    ensures r.Ok? ==> |r.value| == |items|
    ensures r.Ok? ==> forall i :: 0 <= i < |items| ==> r.value[i] == ParseField(items[i], spec).value
    ensures r.Err? ==> r.error == InvalidFieldList(spec) || r.error == NonPositiveLength(spec)
  {
    var rs := seq(|items|, i requires 0 <= i < |items| => ParseField(items[i], spec));
    assert forall i :: 0 <= i < |items| ==> rs[i] == ParseField(items[i], spec);
    AllOk(rs)
  }

  /** The character option `key` (already lower-cased) set to `c`. */
  function SetGlyph(o: Options, key: string, c: char): Options
  {
    if key == "oddchar" then o.(oddChar := c)
    else if key == "evenchar" then o.(evenChar := c)
    else if key == "startchar" then o.(startChar := c)
    else if key == "endchar" then o.(endChar := c)
    else if key == "sepchar" then o.(sepChar := c)
    else o
  }

  /** One `key=value` option applied to the settings so far. Keys are
      compared case-insensitively; a key nobody knows changes nothing. */
  function ApplyOption(o: Options, opt: string): (r: Result<Options, ParseError>)
    ensures Count(opt, '=') != 1 ==> r == Err(InvalidOptionSyntax(opt))
    ensures Count(opt, '=') == 1 ==>
      var key := Lower(Split(opt, '=')[0]);
      key != "bits" && key != "numbers" && key !in CharKeys ==> r == Ok(o)
    ensures r.Err? ==> !r.error.MultipleSeparators?
    ensures r.Ok? ==> r.value.charset == o.charset
    ensures ValidOptions(o) && r.Ok? ==> ValidOptions(r.value)
    ensures r.Ok? && r.value.bitsPerLine != o.bitsPerLine ==>
      r.value.bitsPerLine >= 1 && ParseInt(Split(opt, '=')[1]) == Some(r.value.bitsPerLine)
    ensures r.Ok? && (r.value.printTens, r.value.printUnits) != (o.printTens, o.printUnits) ==>
      r.value.printTens == r.value.printUnits
  {
    var kv := Split(opt, '=');
    if |kv| != 2 then Err(InvalidOptionSyntax(opt))
    else ApplyKeyValue(o, opt, kv[0], kv[1])
  }

  /** What an option with one `=` means: the text before the `=` is the
      key and the text after it the value, and the option does what
      `ApplyKeyValue` says that key does with that value. */
  lemma ApplyOptionMeaning(o: Options, opt: string)
    ensures Count(opt, '=') == 1 ==>
      var kv := Split(opt, '=');
      && opt == kv[0] + "=" + kv[1] && '=' !in kv[0] && '=' !in kv[1]
      && ApplyOption(o, opt) == ApplyKeyValue(o, opt, kv[0], kv[1])
  {
    var kv := Split(opt, '=');
    if |kv| == 2 {
      assert Join(kv, '=') == kv[0] + "=" + Join(kv[1..], '=');
    }
  }

  /** The option `opt`, already split into `rawKey=value`. `bits` takes a
      positive integer; `numbers` takes a token of either list, the false
      list winning; a glyph key takes exactly one character. Each other
      value is rejected with the error the Python code raises for it. */
  function ApplyKeyValue(o: Options, opt: string, rawKey: string, value: string): (r: Result<Options, ParseError>)
    ensures var key := Lower(rawKey);
      key != "bits" && key != "numbers" && key !in CharKeys ==> r == Ok(o)
    ensures Lower(rawKey) == "bits" ==>
      && (r.Ok? <==> ParseInt(value).Some? && ParseInt(value).value >= 1)
      && (r.Ok? ==> r.value == o.(bitsPerLine := ParseInt(value).value))
      && (ParseInt(value).None? ==> r == Err(InvalidOptionSyntax(opt)))
      && (ParseInt(value).Some? && ParseInt(value).value <= 0 ==> r == Err(InvalidBits(value)))
    ensures Lower(rawKey) == "numbers" ==>
      && (r.Ok? <==> Lower(value) in FalseTokens || Lower(value) in TrueTokens)
      && (Lower(value) in FalseTokens ==> r == Ok(o.(printTens := false, printUnits := false)))
      && (Lower(value) !in FalseTokens && Lower(value) in TrueTokens ==>
            r == Ok(o.(printTens := true, printUnits := true)))
      && (r.Err? ==> r.error == InvalidNumbers(value))
    ensures Lower(rawKey) in CharKeys ==>
      && (r.Ok? <==> |value| == 1)
      && (r.Ok? ==> r.value == SetGlyph(o, Lower(rawKey), value[0]))
      && (r.Err? ==> r.error == InvalidChar(rawKey, value))
    ensures r.Err? ==> !r.error.MultipleSeparators?
    ensures r.Ok? ==> r.value.charset == o.charset
    ensures ValidOptions(o) && r.Ok? ==> ValidOptions(r.value)
    ensures r.Ok? && r.value.bitsPerLine != o.bitsPerLine ==>
      r.value.bitsPerLine >= 1 && ParseInt(value) == Some(r.value.bitsPerLine)
    ensures r.Ok? && (r.value.printTens, r.value.printUnits) != (o.printTens, o.printUnits) ==>
      r.value.printTens == r.value.printUnits
  {
    var key := Lower(rawKey);
    if key == "bits" then
      match ParseInt(value)
      case None => Err(InvalidOptionSyntax(opt))
      case Some(n) => if n <= 0 then Err(InvalidBits(value)) else Ok(o.(bitsPerLine := n))
    else if key == "numbers" then
      var v := Lower(value);
      if v in FalseTokens then Ok(o.(printTens := false, printUnits := false))
      else if v in TrueTokens then Ok(o.(printTens := true, printUnits := true))
      else Err(InvalidNumbers(value))
    else if key in CharKeys then
      if |value| != 1 then Err(InvalidChar(rawKey, value))
      else Ok(SetGlyph(o, key, value[0]))
    else Ok(o)
  }

  /** The options in order; the first bad one decides the error. */
  function ApplyOptions(o: Options, opts: seq<string>): (r: Result<Options, ParseError>)
    ensures r.Ok? ==> r.value.charset == o.charset
    ensures ValidOptions(o) && r.Ok? ==> ValidOptions(r.value)
    ensures o.printTens == o.printUnits && r.Ok? ==> r.value.printTens == r.value.printUnits
    ensures r.Err? ==> !r.error.MultipleSeparators?
    decreases |opts|
  {
    if |opts| == 0 then Ok(o)
    else
      var o' :- ApplyOption(o, opts[0]);
      ApplyOptions(o', opts[1..])
  }

  /** A whole spec. Fields are checked before options, and a second `?`
      before either. A parsed spec has at least one field, every field at
      least one bit long, and settings with a positive row width whose two
      ruler flags agree. */
  function ParseSpec(spec: string): (r: Result<ParsedSpec, ParseError>)
    ensures r == Err(MultipleSeparators) <==> Count(spec, '?') > 1
    ensures r.Ok? ==>
      && |r.value.fields| >= 1
      && ValidOptions(r.value.options)
      && r.value.options.charset == Ascii
      && r.value.options.printTens == r.value.options.printUnits
    ensures r.Ok? && '?' !in spec ==> r.value.options == DefaultOptions
  {
    var parts := Split(spec, '?');
    if |parts| > 2 then Err(MultipleSeparators)
    else
      var fields :- ParseFieldList(Split(parts[0], ','), spec);
      if |parts| == 1 then
        CountZero(spec, '?');
        Ok(ParsedSpec(fields, DefaultOptions))
      else
        CountZero(spec, '?');
        var o :- ApplyOptions(DefaultOptions, Split(parts[1], ','));
        Ok(ParsedSpec(fields, o))
  }

  /** What a spec with at most one `?` means: the text before the `?` (or
      the whole spec) is the field list and the text after it the option
      list. The spec is accepted exactly when the field list is and the
      options are accepted by the defaults in order; a bad field token
      rejects the spec with its error before any option is looked at, and
      otherwise a bad option rejects it with that option's error. */
  lemma ParseSpecMeaning(spec: string)
    ensures Count(spec, '?') <= 1 ==>
      var parts := Split(spec, '?');
      var fl := ParseFieldList(Split(parts[0], ','), spec);
      var ol := if |parts| == 2 then ApplyOptions(DefaultOptions, Split(parts[1], ',')) else Ok(DefaultOptions);
      && '?' !in parts[0]
      && (|parts| == 1 <==> '?' !in spec)
      && (|parts| == 1 ==> spec == parts[0])
      && (|parts| == 2 ==> spec == parts[0] + "?" + parts[1] && '?' !in parts[1])
      && (ParseSpec(spec).Ok? <==> fl.Ok? && ol.Ok?)
      && (ParseSpec(spec).Ok? ==> ParseSpec(spec).value == ParsedSpec(fl.value, ol.value))
      && (fl.Err? ==> ParseSpec(spec) == Err(fl.error))
      && (fl.Ok? && ol.Err? ==> ParseSpec(spec) == Err(ol.error))
  {
    var parts := Split(spec, '?');
    CountZero(spec, '?');
    if |parts| == 2 {
      assert Join(parts, '?') == parts[0] + "?" + Join(parts[1..], '?');
    }
  }

  // ---------------------------------------------------------------------
  // Writing specs back: the parser's partner
  // ---------------------------------------------------------------------

  function FieldToken(f: Field): string
  {
    f.text + ":" + NatToString(f.len)
  }

  function FieldTokens(fs: seq<Field>): (ts: seq<string>)
    ensures |ts| == |fs| && forall i :: 0 <= i < |fs| ==> ts[i] == FieldToken(fs[i])
  {
    seq(|fs|, i requires 0 <= i < |fs| => FieldToken(fs[i]))
  }

  /** The spec text naming `fs`, with no options. */
  function FormatFields(fs: seq<Field>): string
  {
    Join(FieldTokens(fs), ',')
  }

  /** The option text that sets every one of `o`'s settings. */
  function FormatOptions(o: Options): string
    requires ValidOptions(o)
  {
    Join(OptionTokens(o), ',')
  }

  /** The option text `key=value`. */
  function KeyValue(key: string, value: string): string
  {
    key + "=" + value
  }

  function YesNo(b: bool): string
  {
    if b then "yes" else "no"
  }

  function OptionTokens(o: Options): seq<string>
    requires ValidOptions(o)
  {
    [ KeyValue("bits", NatToString(o.bitsPerLine)),
      KeyValue("numbers", YesNo(o.printTens)),
      KeyValue("oddchar", [o.oddChar]),
      KeyValue("evenchar", [o.evenChar]),
      KeyValue("startchar", [o.startChar]),
      KeyValue("endchar", [o.endChar]),
      KeyValue("sepchar", [o.sepChar]) ]
  }

  /** A label the spec language can carry: none of its delimiters. */
  predicate PlainLabel(s: string)
  {
    ',' !in s && ':' !in s && '?' !in s
  }

  /** A glyph the option syntax can carry. */
  predicate PlainGlyph(c: char)
  {
    c != ',' && c != '=' && c != '?'
  }

  predicate Writable(fs: seq<Field>)
  {
    |fs| >= 1 && forall i :: 0 <= i < |fs| ==> PlainLabel(fs[i].text)
  }

  lemma {:induction false} FieldTokenParses(f: Field, spec: string)
    requires PlainLabel(f.text)
    ensures ParseField(FieldToken(f), spec) == Ok(f)
  {
    var n := NatToString(f.len);
    var item := FieldToken(f);
    assert item == f.text + [':'] + n;
    assert ':' !in n by {
      forall i | 0 <= i < |n| ensures n[i] != ':' { assert IsDigit(n[i]); }
    }
    SplitAfterFirstPiece(f.text, n, ':');
    SplitNoSeparator(n, ':');
    assert Split(item, ':') == [f.text, n];
    ParseIntOfNumeral(f.len);
  }

  lemma {:induction false} FieldTokensClean(fs: seq<Field>)
    requires Writable(fs)
    ensures forall i :: 0 <= i < |fs| ==> ',' !in FieldToken(fs[i]) && '?' !in FieldToken(fs[i])
  {
    forall i | 0 <= i < |fs|
      ensures ',' !in FieldToken(fs[i]) && '?' !in FieldToken(fs[i])
    {
      var n := NatToString(fs[i].len);
      forall j | 0 <= j < |n| ensures n[j] != ',' && n[j] != '?' { assert IsDigit(n[j]); }
      assert FieldToken(fs[i]) == fs[i].text + [':'] + n;
    }
  }

  lemma {:induction false} NoCharInJoin(parts: seq<string>, sep: char, c: char)
    requires c != sep
    requires forall i :: 0 <= i < |parts| ==> c !in parts[i]
    ensures c !in Join(parts, sep)
  {
    if |parts| > 1 {
      NoCharInJoin(parts[1..], sep, c);
    }
  }

  /** The field part of a formatted spec parses back to the fields. */
  lemma {:induction false} FieldListRoundTrip(fs: seq<Field>, spec: string)
    requires Writable(fs)
    ensures ParseFieldList(Split(FormatFields(fs), ','), spec) == Ok(fs)
  {
    var tokens := FieldTokens(fs);
    FieldTokensClean(fs);
    SplitJoin(tokens, ',');
    assert Split(FormatFields(fs), ',') == tokens;
    forall i | 0 <= i < |fs|
      ensures ParseField(tokens[i], spec) == Ok(fs[i])
    {
      FieldTokenParses(fs[i], spec);
    }
    var r := ParseFieldList(tokens, spec);
    assert r.Ok?;
    assert |r.value| == |fs|;
    assert forall i :: 0 <= i < |fs| ==> r.value[i] == fs[i];
    assert r.value == fs;
  }

  /** Writing fields as a spec and parsing it gives the same fields under
      the default settings. */
  lemma FieldsRoundTrip(fs: seq<Field>)
    requires Writable(fs)
    ensures ParseSpec(FormatFields(fs)) == Ok(ParsedSpec(fs, DefaultOptions))
  {
    var text := FormatFields(fs);
    var tokens := FieldTokens(fs);
    FieldTokensClean(fs);
    NoCharInJoin(tokens, ',', '?');
    SplitNoSeparator(text, '?');
    FieldListRoundTrip(fs, text);
  }

  lemma {:induction false} OptionTokensClean(o: Options)
    requires ValidOptions(o)
    requires PlainGlyph(o.oddChar) && PlainGlyph(o.evenChar) && PlainGlyph(o.startChar)
    requires PlainGlyph(o.endChar) && PlainGlyph(o.sepChar)
    ensures forall i :: 0 <= i < |OptionTokens(o)| ==> ',' !in OptionTokens(o)[i] && '?' !in OptionTokens(o)[i]
  {
    var n := NatToString(o.bitsPerLine);
    forall j | 0 <= j < |n| ensures n[j] != ',' && n[j] != '?' { assert IsDigit(n[j]); }
    var ts := OptionTokens(o);
    KeysClean();
    KeyValueClean("bits", n);
    KeyValueClean("numbers", YesNo(o.printTens));
    KeyValueClean("oddchar", [o.oddChar]);
    KeyValueClean("evenchar", [o.evenChar]);
    KeyValueClean("startchar", [o.startChar]);
    KeyValueClean("endchar", [o.endChar]);
    KeyValueClean("sepchar", [o.sepChar]);
  }

  lemma KeysClean()
    ensures ',' !in "bits" && '?' !in "bits" && ',' !in "numbers" && '?' !in "numbers"
    ensures ',' !in "yes" && '?' !in "yes" && ',' !in "no" && '?' !in "no"
    ensures ',' !in "oddchar" && '?' !in "oddchar" && ',' !in "evenchar" && '?' !in "evenchar"
    ensures ',' !in "startchar" && '?' !in "startchar" && ',' !in "endchar" && '?' !in "endchar"
    ensures ',' !in "sepchar" && '?' !in "sepchar"
  {
  }

  lemma KeyValueClean(key: string, value: string)
    requires ',' !in key && '?' !in key && ',' !in value && '?' !in value
    ensures ',' !in KeyValue(key, value) && '?' !in KeyValue(key, value)
  {
  }

  /** `key=value` with `=`-free sides splits into exactly those sides. */
  lemma KeyValueSplit(key: string, value: string)
    requires '=' !in key && '=' !in value
    ensures Split(KeyValue(key, value), '=') == [key, value]
  {
    SplitAfterFirstPiece(key, value, '=');
    SplitNoSeparator(value, '=');
  }

  lemma ApplyOptionsStep(o: Options, o1: Options, t: string, rest: seq<string>)
    requires ApplyOption(o, t) == Ok(o1)
    ensures ApplyOptions(o, [t] + rest) == ApplyOptions(o1, rest)
  {
    assert ([t] + rest)[0] == t && ([t] + rest)[1..] == rest;
  }

  /** Known keys match whatever their case: `BITS=8` sets the row width
      like `bits=8`. */
  lemma UpperCaseKey(o: Options)
    ensures ApplyOption(o, "BITS=8") == Ok(o.(bitsPerLine := 8))
  {
    assert "BITS=8" == KeyValue("BITS", "8");
    KeyValueSplit("BITS", "8");
    assert Lower("BITS") == "bits";
    assert NatToString(8) == "8";
    ParseIntOfNumeral(8);
  }

  /** `none` is in both token lists; the false list is consulted first, so
      `numbers=none` switches both rulers off. */
  lemma NumbersNone(o: Options, opt: string, rawKey: string)
    requires Lower(rawKey) == "numbers"
    ensures "none" in FalseTokens && "none" in TrueTokens
    ensures ApplyKeyValue(o, opt, rawKey, "none") == Ok(o.(printTens := false, printUnits := false))
  {
    LowerIdentity("none");
  }

  /** Applying `a + b` is applying `a` and then, if that succeeded, `b`
      to the result: the options take effect in order, and an error in
      `a` stops the list before `b` is looked at. */
  lemma {:induction false} ApplyOptionsAppend(o: Options, a: seq<string>, b: seq<string>)
    ensures ApplyOptions(o, a + b) ==
      match ApplyOptions(o, a)
      case Err(e) => Err(e)
      case Ok(o') => ApplyOptions(o', b)
    decreases |a|
  {
    if |a| == 0 {
      assert a + b == b;
    } else {
      assert (a + b)[0] == a[0] && (a + b)[1..] == a[1..] + b;
      match ApplyOption(o, a[0])
      case Err(e) =>
      case Ok(o1) => ApplyOptionsAppend(o1, a[1..], b);
    }
  }

  /** The first option that is rejected rejects the whole list, with its
      own error: if the options before `opts[i]` lead to `o1` and `o1`
      rejects `opts[i]` with `e`, the list is rejected with `e`. */
  lemma ApplyOptionsFirstError(o: Options, opts: seq<string>, i: int, o1: Options, e: ParseError)
    requires 0 <= i < |opts| && ApplyOptions(o, opts[..i]) == Ok(o1) && ApplyOption(o1, opts[i]) == Err(e)
    ensures ApplyOptions(o, opts) == Err(e)
  {
    ApplyOptionsFromPrefix(o, opts, i, o1);
    ApplyOptionsHeadError(o1, opts[i..], e);
  }

  /** Once the first `i` options are accepted with result `o1`, the list
      goes on from `o1` with the options after them. */
  lemma ApplyOptionsFromPrefix(o: Options, opts: seq<string>, i: int, o1: Options)
    requires 0 <= i <= |opts| && ApplyOptions(o, opts[..i]) == Ok(o1)
    ensures ApplyOptions(o, opts) == ApplyOptions(o1, opts[i..])
  {
    assert opts == opts[..i] + opts[i..];
    ApplyOptionsAppend(o, opts[..i], opts[i..]);
  }

  /** A list whose first option is rejected is rejected with that
      option's error. */
  lemma ApplyOptionsHeadError(o: Options, opts: seq<string>, e: ParseError)
    requires |opts| >= 1 && ApplyOption(o, opts[0]) == Err(e)
    ensures ApplyOptions(o, opts) == Err(e)
  {
  }

  /** Option `i` is reached, and the settings before it accept it. */
  predicate StepAccepted(o: Options, opts: seq<string>, i: int)
    requires 0 <= i < |opts|
  {
    ApplyOptions(o, opts[..i]).Ok? && ApplyOption(ApplyOptions(o, opts[..i]).value, opts[i]).Ok?
  }

  /** Once the first option is accepted with result `o1`, option `i` is
      accepted exactly when option `i - 1` of the rest is accepted from
      `o1`. */
  lemma StepAcceptedShift(o: Options, opts: seq<string>, o1: Options, i: int)
    requires 1 <= i < |opts| && ApplyOption(o, opts[0]) == Ok(o1)
    ensures StepAccepted(o, opts, i) == StepAccepted(o1, opts[1..], i - 1)
  {
    var rest := opts[1..];
    assert opts[..i][0] == opts[0] && opts[..i][1..] == rest[..i - 1];
    assert ApplyOptions(o, opts[..i]) == ApplyOptions(o1, rest[..i - 1]);
    assert opts[i] == rest[i - 1];
  }

  /** A list is accepted exactly when every option in it is accepted by the
      settings the options before it produce. */
  lemma {:induction false} ApplyOptionsEveryStep(o: Options, opts: seq<string>)
    ensures ApplyOptions(o, opts).Ok? <==> forall i :: 0 <= i < |opts| ==> StepAccepted(o, opts, i)
    decreases |opts|
  {
    if |opts| > 0 {
      assert opts[..0] == [];
      match ApplyOption(o, opts[0])
      case Err(e) =>
        assert !StepAccepted(o, opts, 0);
      case Ok(o1) =>
        var rest := opts[1..];
        assert ApplyOptions(o, opts) == ApplyOptions(o1, rest);
        ApplyOptionsEveryStep(o1, rest);
        assert StepAccepted(o, opts, 0);
        forall i | 1 <= i < |opts|
          ensures StepAccepted(o, opts, i) == StepAccepted(o1, rest, i - 1)
        {
          StepAcceptedShift(o, opts, o1, i);
        }
        if forall k :: 0 <= k < |rest| ==> StepAccepted(o1, rest, k) {
          forall i | 0 <= i < |opts| ensures StepAccepted(o, opts, i) {
            if i > 0 { assert StepAccepted(o1, rest, i - 1); }
          }
        } else {
          var k :| 0 <= k < |rest| && !StepAccepted(o1, rest, k);
          assert !StepAccepted(o, opts, k + 1);
        }
    }
  }

  lemma GlyphOption(o: Options, key: string, c: char)
    requires key in CharKeys && PlainGlyph(c)
    ensures ApplyOption(o, KeyValue(key, [c])) == Ok(SetGlyph(o, key, c))
  {
    LowerIdentity(key);
    KeyValueSplit(key, [c]);
  }

  lemma BitsOption(o: Options, n: int)
    requires n >= 1
    ensures ApplyOption(o, KeyValue("bits", NatToString(n))) == Ok(o.(bitsPerLine := n))
  {
    var digits := NatToString(n);
    assert '=' !in digits by {
      forall j | 0 <= j < |digits| ensures digits[j] != '=' { assert IsDigit(digits[j]); }
    }
    LowerIdentity("bits");
    KeyValueSplit("bits", digits);
    ParseIntOfNumeral(n);
    BitsOptionFromParts(o, KeyValue("bits", digits), digits, n);
  }

  lemma BitsOptionFromParts(o: Options, opt: string, value: string, n: int)
    requires Split(opt, '=') == ["bits", value] && Lower("bits") == "bits"
    requires n >= 1 && ParseInt(value) == Some(n)
    ensures ApplyOption(o, opt) == Ok(o.(bitsPerLine := n))
  {
  }

  lemma NumbersOption(o: Options, b: bool)
    ensures ApplyOption(o, KeyValue("numbers", YesNo(b))) == Ok(o.(printTens := b, printUnits := b))
  {
    LowerIdentity("numbers");
    LowerIdentity(YesNo(b));
    KeyValueSplit("numbers", YesNo(b));
  }

  /** Each glyph key sets its own glyph and nothing else. */
  lemma SetGlyphKeys(o: Options, c: char)
    ensures SetGlyph(o, "oddchar", c) == o.(oddChar := c)
    ensures SetGlyph(o, "evenchar", c) == o.(evenChar := c)
    ensures SetGlyph(o, "startchar", c) == o.(startChar := c)
    ensures SetGlyph(o, "endchar", c) == o.(endChar := c)
    ensures SetGlyph(o, "sepchar", c) == o.(sepChar := c)
  {
    assert "evenchar"[1] != "oddchar"[1];
    assert "startchar"[0] !in "oe";
    assert "endchar"[1] !in "dv" && "endchar"[0] != "startchar"[0];
    assert "sepchar"[0] !in "oe" && "sepchar"[1] != "startchar"[1];
  }

  /** One glyph option in front of further options. */
  lemma GlyphStep(o: Options, key: string, c: char, rest: seq<string>)
    requires key in CharKeys && PlainGlyph(c)
    ensures ApplyOptions(o, [KeyValue(key, [c])] + rest) == ApplyOptions(SetGlyph(o, key, c), rest)
  {
    GlyphOption(o, key, c);
    ApplyOptionsStep(o, SetGlyph(o, key, c), KeyValue(key, [c]), rest);
  }

  /** The five glyph tokens of `o`, applied in order, set all five glyphs. */
  lemma GlyphTokens(o: Options, start: Options)
    requires ValidOptions(o)
    requires start == o.(oddChar := start.oddChar, evenChar := start.evenChar,
      startChar := start.startChar, endChar := start.endChar, sepChar := start.sepChar)
    requires PlainGlyph(o.oddChar) && PlainGlyph(o.evenChar) && PlainGlyph(o.startChar)
    requires PlainGlyph(o.endChar) && PlainGlyph(o.sepChar)
    ensures ApplyOptions(start, OptionTokens(o)[2..]) == Ok(o)
  {
    var t5 := [KeyValue("endchar", [o.endChar]), KeyValue("sepchar", [o.sepChar])];
    var t4 := [KeyValue("startchar", [o.startChar])] + t5;
    var t3 := [KeyValue("evenchar", [o.evenChar])] + t4;
    var t2 := [KeyValue("oddchar", [o.oddChar])] + t3;
    assert OptionTokens(o)[2..] == t2;
    var o3 := SetGlyph(start, "oddchar", o.oddChar);
    var o4 := SetGlyph(o3, "evenchar", o.evenChar);
    var o5 := SetGlyph(o4, "startchar", o.startChar);
    SetGlyphKeys(start, o.oddChar);
    SetGlyphKeys(o3, o.evenChar);
    SetGlyphKeys(o4, o.startChar);
    GlyphStep(start, "oddchar", o.oddChar, t3);
    GlyphStep(o3, "evenchar", o.evenChar, t4);
    GlyphStep(o4, "startchar", o.startChar, t5);
    GlyphTail(o, o5);
  }

  /** The last two glyph tokens set the end and separator glyphs. */
  lemma GlyphTail(o: Options, o5: Options)
    requires o5 == o.(endChar := o5.endChar, sepChar := o5.sepChar)
    requires PlainGlyph(o.endChar) && PlainGlyph(o.sepChar)
    ensures ApplyOptions(o5, [KeyValue("endchar", [o.endChar]), KeyValue("sepchar", [o.sepChar])]) == Ok(o)
  {
    var t7: seq<string> := [];
    var t6 := [KeyValue("sepchar", [o.sepChar])] + t7;
    assert [KeyValue("endchar", [o.endChar]), KeyValue("sepchar", [o.sepChar])] == [KeyValue("endchar", [o.endChar])] + t6;
    var o6 := SetGlyph(o5, "endchar", o.endChar);
    SetGlyphKeys(o5, o.endChar);
    SetGlyphKeys(o6, o.sepChar);
    GlyphStep(o5, "endchar", o.endChar, t6);
    GlyphStep(o6, "sepchar", o.sepChar, t7);
    assert ApplyOptions(o, t7) == Ok(o);
  }

  lemma ApplyOptionTokens(o: Options, start: Options)
    requires ValidOptions(o) && o.charset == start.charset && o.printTens == o.printUnits
    requires PlainGlyph(o.oddChar) && PlainGlyph(o.evenChar) && PlainGlyph(o.startChar)
    requires PlainGlyph(o.endChar) && PlainGlyph(o.sepChar)
    ensures ApplyOptions(start, OptionTokens(o)) == Ok(o)
  {
    var ts := OptionTokens(o);
    var o1 := start.(bitsPerLine := o.bitsPerLine);
    var o2 := o1.(printTens := o.printTens, printUnits := o.printUnits);
    assert ts == [ts[0]] + ([ts[1]] + ts[2..]);
    BitsOption(start, o.bitsPerLine);
    ApplyOptionsStep(start, o1, ts[0], [ts[1]] + ts[2..]);
    NumbersOption(o1, o.printTens);
    ApplyOptionsStep(o1, o2, ts[1], ts[2..]);
    GlyphTokens(o, o2);
  }

  /** Writing fields and settings as a spec and parsing it gives both
      back: every ASCII setting the option syntax can express survives the
      round trip. */
  lemma OptionsRoundTrip(fs: seq<Field>, o: Options)
    requires Writable(fs)
    requires ValidOptions(o) && o.charset == Ascii && o.printTens == o.printUnits
    requires PlainGlyph(o.oddChar) && PlainGlyph(o.evenChar) && PlainGlyph(o.startChar)
    requires PlainGlyph(o.endChar) && PlainGlyph(o.sepChar)
    ensures ParseSpec(FormatFields(fs) + "?" + FormatOptions(o)) == Ok(ParsedSpec(fs, o))
  {
    var ftext := FormatFields(fs);
    var otext := FormatOptions(o);
    var tokens := FieldTokens(fs);
    FieldTokensClean(fs);
    NoCharInJoin(tokens, ',', '?');
    OptionTokensClean(o);
    NoCharInJoin(OptionTokens(o), ',', '?');
    SplitAfterFirstPiece(ftext, otext, '?');
    SplitNoSeparator(otext, '?');
    var spec := ftext + "?" + otext;
    assert Split(spec, '?') == [ftext, otext];
    FieldListRoundTrip(fs, spec);
    SplitJoin(OptionTokens(o), ',');
    ApplyOptionTokens(o, DefaultOptions);
  }
}
