# protocolpro in Dafny

A model of the diagram generator at the core of protocolpro, with proofs.
protocolpro turns a spec such as `Source:16,Destination:16,Flags:8?bits=16`
into a box diagram of the kind RFCs use to show protocol headers. The
diagram has four parts:

- an optional pair of bit rulers;
- a top border;
- one content line per row of bits, with each field centred in a cell two
  characters per bit wide;
- a border under each row.

A field that does not fit in what is left of a row is split across the row
boundary. A field that starts a row and is an exact multiple of the row
width is drawn as a tall block.

The model follows the class `Protocol` in `src/protocolpro.py`:

| Dafny module | models |
|---|---|
| `Results` | exceptions as `Result` values |
| `Text` | the Python string operations the code uses: `str.split`, `str.join`, `str.count`, `str.center`, `format` alignment, `str(n)`, `str.lower`, `int(s)` |
| `Fields` | field entries, rendering options, and the placed records of the layout pass |
| `SpecParser` | `parse_spec`, and a writer that is its partner for the round-trip proofs |
| `Layout` | `_process_field_list` |
| `Render` | `__str__`, `_get_horizontal`, `_get_separator`, `_get_top_numbers` |
| `Protocol` | the whole pipeline: parse, lay out, render, join with newlines |

Every `raise` and every failing Python `assert` becomes an `Err` value, so
each error path is a value the proofs can talk about. The layout pass is
modelled twice:

- `Layout.LayoutLoop` follows the source's `while` loop step by step;
- `Layout.Groups` places each field on its own.

The two are proved equal. The renderer is proved never to fail on what the
layout pass produces. So the `assert(False)` of the source is unreachable,
and so is the out-of-range lookup of a next fragment. This makes parsing
the only way to get no diagram.

Three behaviours of the code that are easy to get wrong:

- **Centring.** Labels are centred by CPython's `str.center`. For the odd
  cell widths used here, the odd padding space goes to the left, not to
  the right.
- **`numbers=none`.** The value `none` appears in both the false and the
  true token lists. The false list is checked first, so `numbers=none`
  turns both rulers off.
- **Long block labels.** A label is truncated to `2*len-1` characters,
  where `len` is the whole block's bit length. A block label longer than
  one row therefore runs past the block's frame (`Render.BlockOverflow`).

## Model

| member | source | states |
|---|---|---|
| Text.Split | src/protocolpro.py:146-149 | `str.split` with one separator gives one more piece than there are separators. No piece holds the separator, and joining the pieces gives back the input. |
| Text.SplitJoin | src/protocolpro.py:165-168 | Splitting a join of separator-free pieces gives back exactly those pieces. |
| Text.CountZero | src/protocolpro.py:133-137 | The `'?' in spec` test agrees with a zero count of `'?'`. |
| Text.Spaces | src/protocolpro.py:589 | `" " * n` holds `n` spaces, and nothing when `n` is zero or negative. |
| Text.PadRight | src/protocolpro.py:227 | `"{:<w}"` keeps the text as a prefix and fills the rest up to width `w` with spaces. A text already longer than `w` is kept unchanged. |
| Text.PadLeft | src/protocolpro.py:225 | `"{:>w}"` keeps the text as a suffix and fills the columns before it up to width `w` with spaces. A text already longer than `w` is kept unchanged. |
| Text.Center | src/protocolpro.py:455 | `str.center` returns the text unchanged when it is at least as wide as the cell. Otherwise the result is exactly the cell's width: spaces, the text, spaces. The two pads differ by at most one, and the extra space goes left for odd widths and right for even ones. |
| Text.Lower | src/protocolpro.py:169 | Lower-casing maps each character on its own and keeps the length. |
| Text.LowerMatches | src/protocolpro.py:169-203 | Comparing `var.lower()` with a lower-case keyword accepts exactly the texts of the keyword's length whose characters are the keyword's, each letter in either case. |
| Text.NatToString | src/protocolpro.py:225 | `str(n)` is a non-empty string of digits without a leading zero whose decimal value is `n`. |
| Text.ParseIntOfNumeral | src/protocolpro.py:150 | `int(str(n)) == n` for every natural number `n`. |
| Text.ParseIntOfNegativeNumeral | src/protocolpro.py:150 | `int("-" + str(n)) == -n`, so a negative length reaches the "at least one bit" check rather than the syntax error. |
| Text.ParseInt | src/protocolpro.py:150 | `int(s)` rejects text that is empty or only white space. Whatever it accepts contains a decimal digit. |
| Text.ParseIntSpaces | src/protocolpro.py:150 | White space that `int()` skips may surround a number on either side without changing its value. |
| Text.ParseIntNoBreakSpace | src/protocolpro.py:150 | A trailing no-break space is skipped, as CPython's `int()` does: `int("5\u00a0") == 5`. |
| Text.ParseIntFileSeparator | src/protocolpro.py:150 | The separator controls U+001C..U+001F are not skipped: `int("\x1c5\u00a0")` is rejected. |
| SpecParser.ParseField | src/protocolpro.py:149-160 | A field token fails only with the invalid-field-list error or the non-positive-length error, and both quote the whole spec. |
| SpecParser.ParseFieldMeaning | src/protocolpro.py:149-160 | A token is accepted exactly when it has one colon, an integer after it, and that integer is positive. It is then `label:length` with the parsed label and length. The invalid-list error happens exactly when the colon count or the integer is wrong. The non-positive-length error happens exactly when the integer is zero or less. |
| SpecParser.ParseFieldList | src/protocolpro.py:146-161 | A comma list is accepted exactly when every token is, and then gives one field per token, in order. |
| SpecParser.ApplyOption | src/protocolpro.py:166-207 | An option without exactly one `=` is a syntax error. An unknown key changes nothing. An option never changes the box style. The row width only ever becomes a positive integer parsed from the value. The two ruler flags only ever change together. |
| SpecParser.ApplyKeyValue | src/protocolpro.py:168-203 | Keys are compared lower-cased. `bits` is accepted exactly when the value parses to a positive integer, which becomes the row width; a value that does not parse is a syntax error and a non-positive one an invalid-bits error. `numbers` is accepted exactly when the lower-cased value is in one of the token lists: the false list wins and turns both rulers off, the true list turns both on, anything else is an invalid-numbers error. A glyph key is accepted exactly when the value is one character, which becomes that glyph; otherwise it is an invalid-char error. |
| SpecParser.ApplyOptionMeaning | src/protocolpro.py:166-168 | An option with exactly one `=` is the key, `=`, and the value, and applying it is applying that key and value. |
| SpecParser.UpperCaseKey | src/protocolpro.py:168-174 | Keys are case-insensitive: `BITS=8` sets the row width to 8. |
| SpecParser.NumbersNone | src/protocolpro.py:175-181 | `none` is in both token lists, and `numbers=none` turns both rulers off. |
| SpecParser.ApplyOptions | src/protocolpro.py:164-207 | Applying options in order keeps the row width positive, keeps the box style, and keeps the two ruler flags equal. |
| SpecParser.ApplyOptionsAppend | src/protocolpro.py:164-207 | Options apply left to right: applying `a + b` is applying `a`, then `b` to the result, and an error in `a` is the result. |
| SpecParser.ApplyOptionsFromPrefix | src/protocolpro.py:164-207 | Once the first `i` options are accepted, the rest of the list is applied to their result. |
| SpecParser.ApplyOptionsFirstError | src/protocolpro.py:164-207 | When the first `i` options are accepted and option `i` is rejected, the list fails with that option's error, whatever follows. |
| SpecParser.ApplyOptionsHeadError | src/protocolpro.py:164-207 | A rejected first option makes the list fail with its error. |
| SpecParser.ApplyOptionsEveryStep | src/protocolpro.py:164-207 | A list of options is accepted exactly when each option is accepted in the state the ones before it leave. |
| SpecParser.ParseSpec | src/protocolpro.py:124-209 | A second `?` is rejected exactly when the spec has more than one. A parsed spec has at least one field, a positive row width, ASCII style and agreeing ruler flags. A spec without `?` keeps the defaults (32 bits, both rulers, `+ + + - \|`). |
| SpecParser.ParseSpecMeaning | src/protocolpro.py:133-207 | A spec with at most one `?` is its field part, or its field part, `?` and its option part. It parses exactly when the field list and the options (applied to the defaults) both do, and then gives those fields and settings. A field error is reported before any option error. |
| SpecParser.FieldTokenParses | src/protocolpro.py:149-161 | Writing a field as `label:length` and parsing it gives the field back. |
| SpecParser.FieldListRoundTrip | src/protocolpro.py:146-161 | Writing fields as a comma list and parsing the list gives the fields back. |
| SpecParser.FieldsRoundTrip | src/protocolpro.py:133-161 | Parsing a written field list without options gives the fields and the default settings. |
| SpecParser.BitsOption | src/protocolpro.py:169-174 | `bits=n` with `n >= 1` sets the row width to `n` and nothing else. |
| SpecParser.BitsOptionFromParts | src/protocolpro.py:168-174 | Any `bits` option whose value parses to a positive integer sets the row width to that integer and nothing else. |
| SpecParser.NumbersOption | src/protocolpro.py:175-181 | `numbers=yes` turns both rulers on and `numbers=no` turns both off. No other setting changes. |
| SpecParser.GlyphOption | src/protocolpro.py:186-203 | A one-character glyph option sets exactly the glyph its key names. |
| SpecParser.SetGlyphKeys | src/protocolpro.py:194-203 | Each of the five glyph keys sets its own glyph field. |
| SpecParser.ApplyOptionTokens | src/protocolpro.py:164-207 | Writing any settings back as options and applying them reproduces those settings. |
| SpecParser.OptionsRoundTrip | src/protocolpro.py:124-209 | Parsing `fields?options` written from a field list and settings gives that field list and those settings. |
| Layout.LayoutPass | src/protocolpro.py:338-401 | One pass of the loop places a record at the current column. The field is finished exactly when it fits in what is left of the row, or starts a row with a length that is a multiple of the row width (a block). A fitting field ends where its length says; one that fills the row, a block, and a cut piece end at the last column and move to the next line. A field that is cut keeps the label on the first piece when that piece is at least as long as the rest, and on the remainder otherwise. The two pieces add up to the field. |
| Layout.LayoutLoop | src/protocolpro.py:334-402 | The loop produces at least one record per field, and none when there are no fields. |
| Layout.LayoutLoopChain | src/protocolpro.py:338-402 | The records form a chain: each either fits at the current column or is a block at a row start, and the columns and row numbers advance as the source's counters do. Their lengths add up to the fields' total. |
| Layout.Layout | src/protocolpro.py:327-402 | The layout of any fields is a chain from column 0 on row 1, whose lengths add up to the fields' total. |
| Layout.LayoutBlockRule | src/protocolpro.py:327-402 | The layout is the fields' runs in order, and each field is drawn unsplit exactly when it fits at its starting column or is a block at a row start. |
| Layout.LabelIndexFirst | src/protocolpro.py:377-398 | A split field's label sits on its first piece that is at least as long as everything after it. |
| Layout.PlaceFieldShape | src/protocolpro.py:338-401 | The pieces of one field add up to its length. All but the last are marked as having more fragments, and the label appears on exactly one piece. |
| Layout.PlaceFieldWhole | src/protocolpro.py:348-362 | A field's first piece starts at the current column, and the field stays one record exactly when it fits or is a block at a row start. |
| Layout.BlockIsOneRecord | src/protocolpro.py:348-357 | A field at a row start whose length is a multiple of the row width is one unsplit record spanning the row, followed by column 0 on the next line. |
| Layout.GroupsWhole | src/protocolpro.py:334-402 | In the field-by-field placement, each field gives one record exactly when it fits at its starting column or is a block at a row start. |
| Layout.GroupsShape | src/protocolpro.py:334-402 | Placing each field on its own gives, for every field, a non-empty run of pieces that add up to its length and carry its label. |
| Layout.LayoutGroups | src/protocolpro.py:334-402 | The source's loop and the field-by-field placement produce the same records. |
| Layout.FieldsConserved | src/protocolpro.py:327-402 | The layout is the concatenation of one run per field, in order: no field is lost, duplicated or reordered, each keeps its length, and its label appears once. |
| Layout.EndColumnOfChain | src/protocolpro.py:344-357 | After a chain, the column is the starting column plus the total length, modulo the row width. |
| Layout.LayoutEndColumn | src/protocolpro.py:344-357 | After the layout, the last row holds the total bit count modulo the row width. |
| Layout.ChainGeometry | src/protocolpro.py:348-400 | Every record lies inside the row. It ends where its length says, unless it is a block, which is then a multiple of the row width. A fragment with more to come ends the row and is followed by a piece at column 0 on the next line. Line numbers never go below the first. |
| Layout.LayoutGeometry | src/protocolpro.py:327-402 | Every laid-out record has columns `0 <= start <= end < bits_per_line` and a line number of at least 1. A record with more to come ends its row and is followed by a piece at column 0 on the next line. |
| Render.Truncate | src/protocolpro.py:441-444 | A label that fits its cell is kept. A longer one is cut to the cell width `2*len-1`, its last character becomes `.` when more than one character remains, and the rest of it is a prefix of the label. |
| Render.Cell | src/protocolpro.py:441-455 | A cell is exactly `2*len-1` wide and holds the truncated label between spaces. |
| Render.FillAt | src/protocolpro.py:301 | The ASCII border body alternates the even and odd fill glyphs, starting with the even one. |
| Render.ConnectorsPlacement | src/protocolpro.py:277-289 | A border column that no field starts at keeps its fill. A column where a field on the row below, or on the row above, starts mid-row gets a down or an up connector. |
| Render.UnicodeBorder | src/protocolpro.py:236-315 | A Unicode border covering `w` bits is `2*w+1` characters wide. |
| Render.UnicodeBorderShape | src/protocolpro.py:254-312 | The Unicode border opens with `┌` on the top line or after an offset, with `└` on a full-width bottom line, and with `├` otherwise. It closes with `─┐`, `─┘` or `─┤`. Inside it holds only fill and connectors, and top and bottom lines keep plain fill where no field starts. |
| Render.Horizontal | src/protocolpro.py:236-315 | A border of zero or fewer bits is empty; otherwise it is `2*w+1` wide. |
| Render.AsciiBorderShape | src/protocolpro.py:265-314 | The ASCII border is the start glyph, then alternating even and odd fill glyphs, then the end glyph. |
| Render.MergedBorder | src/protocolpro.py:476-517 | The border under a split field is a full row wide. It is blank over the columns the field's next piece continues into, so the two rows read as one box. |
| Render.BlockRows | src/protocolpro.py:563-589 | A block of `k` rows is drawn as `2k-1` lines, each the block line for its index. |
| Render.BlockLineShape | src/protocolpro.py:565-589 | Odd block lines are framed by the start and end glyphs, even ones by separators. The label is centred on line `k-1` and the other lines are blank. A line is a full row wide when the label fits one row, and wider when it does not. |
| Render.BlockShape | src/protocolpro.py:554-598 | A block's `2k-1` lines are all a full row wide when its label fits one row. |
| Render.BlockOverflow | src/protocolpro.py:441-444 | A block label longer than one row keeps up to `2*len-1` characters, so its line is wider than the block's frame. |
| Render.UnitsFrom | src/protocolpro.py:229-231 | The units ruler gives each bit a space and the bit's number modulo 8. |
| Render.TopNumbers | src/protocolpro.py:211-234 | There are no rulers exactly when both flags are off. With only units on, the result is the units ruler alone. |
| Render.TensCellHead | src/protocolpro.py:222-227 | The tens cell of bit `8a` starts with the number `8a`. When another block follows, the rest of the cell is spaces, and the cell is sixteen characters wide provided `8a` has at most sixteen digits. |
| Render.TensPrefix | src/protocolpro.py:222-227 | For rows of at most 10^16 bits, the first `b` blocks of the tens ruler take sixteen characters each. |
| Render.TensAligned | src/protocolpro.py:220-228 | For rows of at most 10^16 bits, the tens label of every bit `i` that is a multiple of 8 starts at column `2*i` of the ruler. |
| Render.TensRulerEnd | src/protocolpro.py:223-225 | The tens ruler closes with the number of the last bit. |
| Render.RulersAligned | src/protocolpro.py:219-233 | With both rulers on, the result is the tens ruler, a newline and the units ruler. For rows of at most 10^16 bits, each tens label starts directly above the `0` of its bit in the units ruler. |
| Render.RowBorderOnChain | src/protocolpro.py:476-528 | On layout output, the border under a full row never fails and is a full row wide. |
| Render.RowBorder | src/protocolpro.py:476-528 | The border under a completed row fails exactly when a fragment with more to come is the last record, with the out-of-range error; otherwise it is a full row wide. |
| Render.FitStep | src/protocolpro.py:448-548 | A fitting record counts as drawn. One that completes the row emits two lines and resets to column 0 on the next text line; it fails only on a last record with more to come. One that leaves room advances the column, and emits lines only when it is the last record. |
| Render.BlockStep | src/protocolpro.py:551-600 | A block of `k` rows emits `2k` lines, the last being a full-width border, and moves to the next text line. |
| Render.BlockBorderCorners | src/protocolpro.py:590-598 | In Unicode, the border under a block opens with `└` and closes with `┘` exactly when it is the last record, and uses `├` and `┤` otherwise. |
| Render.RenderStep | src/protocolpro.py:430-607 | The assertion fails exactly when a record neither fits nor starts a row. A record that starts a row but is not a multiple of the row width is skipped, with no output and no change of state. The out-of-range error only comes from a last record with more to come. |
| Render.RenderFrom | src/protocolpro.py:430-607 | The loop fails only while records remain, and the out-of-range error only when the last record has more to come. |
| Render.RenderLines | src/protocolpro.py:417-430 | The output starts with the rulers when either flag is on, followed by the top border a full row wide. It fails only when there are records. |
| Render.FullRowOnChain | src/protocolpro.py:461-528 | A field that completes a row emits the content line and its border, both a full row wide, and resets the column. |
| Render.PartialRowOnChain | src/protocolpro.py:530-548 | A field that leaves room on the row emits nothing, unless it is the last field. The last field closes the partial line and adds a bottom border as wide as the bits used. |
| Render.FitOnChain | src/protocolpro.py:448-548 | A field that fits keeps the renderer's column in step with the layout's column. |
| Render.ChainBlockHead | src/protocolpro.py:551-607 | On layout output, a record that does not fit always starts a row and is a multiple of the row width, so the `assert(False)` branch is unreachable. |
| Render.BlockOnChain | src/protocolpro.py:551-600 | A block at a row start leaves the column at 0, and all its lines are a full row wide when its label fits. |
| Render.StepOnChain | src/protocolpro.py:430-607 | Every step of the renderer succeeds on layout output and keeps the renderer's column equal to the layout's. |
| Render.RenderOnChain | src/protocolpro.py:425-607 | Rendering any chain succeeds. With fitting block labels, every line is a full row wide, except that a final partial row and its border are as wide as its bits. |
| Render.RenderLayout | src/protocolpro.py:405-607 | Rendering the layout of any fields never fails. With fitting block labels, the last row's width is the total bit count modulo the row width. |
| Protocol.Diagram | src/protocolpro.py:405-610 | A diagram exists exactly when the spec parses, so the renderer itself never raises; a rejected spec reports the parser's error. The diagram is the rendered lines joined with newlines. |
| Protocol.DiagramFailsOnlyOnParse | src/protocolpro.py:405-610 | A spec yields a diagram exactly when it parses, and a rejected spec reports the parser's error. |
| Protocol.DiagramLines | src/protocolpro.py:405-610 | The diagram's lines exist exactly when the spec parses. A rejected spec reports the parser's error, and a parsed one gives at least the top border. |
| Protocol.DiagramShape | src/protocolpro.py:405-610 | The rulers come first when switched on. The top border is a full row wide. The row lines follow the width rule of `Render.RenderLayout`. |

## Left out

- The command-line front end (`Main`), configuration files and the table of stored specs are not modelled. Of the front end's overrides, only the Unicode switch is kept: it is a parameter of `Protocol.Diagram`. Parsing never selects Unicode.
- Overrides the front end applies to a parsed object (bits, numbers, ASCII glyphs) are not modelled. The bits and numbers overrides are equivalent to the matching spec options, and so is a glyph override with any glyph other than `,`, `=` and `?`. Those three glyphs can only come from the front end: a spec option cannot carry them (`sepchar=,` is cut at the comma, `oddchar==` has two `=`, and `startchar=?` is a second `?`). The Render lemmas still cover them, because they take any `Options`.
- `__str__` writes fragment state back into the object's field list, so a second call on the same object can differ. The model is pure, and a diagram is computed from the spec once.
- The row count of a block is computed with float division (`int(((len/bpl)*2)-1)`). The model uses exact arithmetic. Python's `int / int` is correctly rounded, so the two agree while a block spans at most 2^52 rows. Beyond that, `2k-1` is no longer exact in a double.
- Text.ParseIntOfNumeral: `int()` is modelled for ASCII digits, an optional sign, underscores between digits and surrounding white space. Python also accepts other Unicode decimal digits and enforces a 4300-digit limit; neither is modelled.
- Text.Lower: modelled for ASCII letters only. The only non-ASCII characters Python lower-cases to ASCII are the Kelvin sign (to `k`) and the dotted capital I (to `i` plus a combining mark). Neither can change whether a key equals `bits`, `numbers` or a glyph key.
- Render.TensCellHead, Render.TensPrefix, Render.TensAligned and Render.RulersAligned: the width and alignment claims are stated for bit numbers of at most sixteen digits, that is rows of at most 10^16 bits. `"{:<16}"` pads a label to sixteen columns only while the number fits in them. A seventeen-digit number makes its label wider and shifts every label after it, so the bound is the code's own limit, not a proof convenience.
- Render.TopNumbers: the tens-only state (tens on, units off) cannot arise from a spec, because `numbers` switches both rulers together. The contract does not describe it separately.
- Render.RenderOnChain, Render.RenderLayout, Render.BlockShape and Protocol.DiagramShape: the width rule is stated only when every block label fits one row. A longer block label runs past the frame. This is the source's behaviour, and Render.BlockOverflow proves it.
- Render.UnicodeBorder and Render.UnicodeBorderShape: both take start columns of zero or more, which the layout pass always gives. The cross connector is placed as the source does, but its exact columns are not stated beyond "fill or connector".
- `_get_horizontal`'s `width=None` default is modelled by passing the row width explicitly at every call site.
- `_get_separator` is modelled as `Render.Separator`, which picks the Unicode bar or the spec's separator glyph. It has no contract of its own beyond its use in the content lines.
