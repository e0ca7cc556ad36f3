/**
 * Rendering of IPython notebook cells (format 3: cells grouped in worksheets)
 * into Markdown text, one fragment per cell, and of a whole cell list into one
 * document.
 *
 * A cell and an output record are JSON objects whose keys may be absent; every
 * key the renderer reads is an `Option` field here, `None` standing for a key
 * that is not there.
 */
module Notebook {
  import opened Wrappers
  import opened Text

  /** One output record of a code cell. */
  datatype Output = Output(
    html: Option<seq<string>>,  // raw HTML, as a list of lines
    png: Option<string>,        // a base64 PNG payload
    text: Option<seq<string>>   // plain text, as a list of lines
  )

  /** One notebook cell; `cellType` is the `cell_type` tag. */
  datatype Cell = Cell(
    cellType: Option<string>,
    source: Option<seq<string>>,   // markdown and heading cells
    level: Option<int>,            // heading cells
    input: Option<seq<string>>,    // code cells
    outputs: Option<seq<Output>>   // code cells
  )

  /**
   * The options dictionary. Its only key that rendering reads is `keep_input`;
   * passing no dictionary at all is `RenderOptions(None)`.
   */
  datatype RenderOptions = RenderOptions(keepInput: Option<bool>)

  const ParagraphBreak: string := "\n\n"
  const CodeIndent: string := "    "
  const PngPrefix: string := "<img src=\"data:image/png;base64,"
  const PngSuffix: string := "\" />\n\n"

  /** Python truthiness of a value fetched with `.get(key, None)` that holds a list. */
  predicate ListTruthy(v: Option<seq<string>>) {
    v.Some? && |v.value| > 0
  }

  /** Python truthiness of a value fetched with `.get(key, None)` that holds a string. */
  predicate StrTruthy(v: Option<string>) {
    v.Some? && |v.value| > 0
  }

  /** Whether code input is shown: `options.get('keep_input', True)`. */
  predicate KeepsInput(options: RenderOptions) {
    options.keepInput.GetOr(true)
  }

  /** `''.join('    ' + l for l in lines)`: every input line behind four spaces. */
  function Indented(lines: seq<string>): string {
    Join(Prefixed(CodeIndent, lines))
  }

  /** One output record: the first truthy field among html, png and text decides its form. */
  function RenderOutput(o: Output): string {
    if ListTruthy(o.html) then ParagraphBreak + Strip(Join(o.html.value)) + ParagraphBreak
    else if StrTruthy(o.png) then PngPrefix + Strip(o.png.value) + PngSuffix
    else if ListTruthy(o.text) then Join(o.text.value) + ParagraphBreak
    else ""
  }

  /** The outputs of a code cell, rendered one after another (a left fold). */
  function RenderOutputs(outputs: seq<Output>): string {
    if outputs == [] then ""
    else RenderOutputs(outputs[..|outputs| - 1]) + RenderOutput(outputs[|outputs| - 1])
  }

  /** The Markdown fragment of one cell, dispatched on its `cell_type` tag. */
  function RenderCell(cell: Cell, options: RenderOptions): string {
    if cell.cellType == Some("markdown") then
      Join(cell.source.GetOr([])) + ParagraphBreak
    else if cell.cellType == Some("heading") then
      Repeat('#', cell.level.GetOr(0)) + " " + Join(cell.source.GetOr([])) + ParagraphBreak
    else if cell.cellType == Some("code") then
      (if KeepsInput(options) then Indented(cell.input.GetOr([])) + ParagraphBreak else "")
        + RenderOutputs(cell.outputs.GetOr([]))
    else ""
  }

  /**
   * The cell renderer as the source runs it: an accumulator extended branch by
   * branch and then once per output record.
   */
  method ProcessCell(cell: Cell, options: RenderOptions) returns (res: string)
    ensures res == RenderCell(cell, options)
  {
    var cellType := cell.cellType;
    res := "";
    if cellType == Some("markdown") {
      res := res + Join(cell.source.GetOr([])) + ParagraphBreak;
      assert res == RenderCell(cell, options);
    } else if cellType == Some("heading") {
      res := res + Repeat('#', cell.level.GetOr(0)) + " " + Join(cell.source.GetOr([])) + ParagraphBreak;
      assert res == RenderCell(cell, options);
    } else if cellType == Some("code") {
      if options.keepInput.GetOr(true) {
        var c := Indented(cell.input.GetOr([]));
        res := res + c;
        res := res + ParagraphBreak;
        assert res == c + ParagraphBreak;
      }
      var outputs := cell.outputs.GetOr([]);
      ghost var inputPart := res;
      assert inputPart == if KeepsInput(options) then Indented(cell.input.GetOr([])) + ParagraphBreak else "";
      for i := 0 to |outputs|
        invariant res == inputPart + RenderOutputs(outputs[..i])
      {
        ghost var done := res;
        var html, png, text := outputs[i].html, outputs[i].png, outputs[i].text;
        if ListTruthy(html) {
          res := res + ParagraphBreak + Strip(Join(html.value)) + ParagraphBreak;
          ConcatAssoc3(done, ParagraphBreak, Strip(Join(html.value)), ParagraphBreak);
        } else if StrTruthy(png) {
          res := res + PngPrefix + Strip(png.value) + PngSuffix;
          ConcatAssoc3(done, PngPrefix, Strip(png.value), PngSuffix);
        } else if ListTruthy(text) {
          res := res + Join(text.value) + ParagraphBreak;
          ConcatAssoc(done, Join(text.value), ParagraphBreak);
        } else {
          assert res == done + "";
        }
        assert res == done + RenderOutput(outputs[i]);
        RenderOutputsStep(inputPart, outputs, i);
      }
      assert outputs[..|outputs|] == outputs;
      assert res == inputPart + RenderOutputs(outputs);
    }
  }

  /** One more record rendered onto an accumulator that holds the earlier ones. */
  lemma RenderOutputsStep(prefix: string, outputs: seq<Output>, i: nat)
    requires i < |outputs|
    ensures prefix + RenderOutputs(outputs[..i]) + RenderOutput(outputs[i]) == prefix + RenderOutputs(outputs[..i + 1])
  {
    assert outputs[..i + 1][..i] == outputs[..i];
    ConcatAssoc(prefix, RenderOutputs(outputs[..i]), RenderOutput(outputs[i]));
  }

  /** The fragments of all cells, in order. */
  function Renders(cells: seq<Cell>, options: RenderOptions): (r: seq<string>)
    ensures |r| == |cells|
    ensures forall i {:trigger r[i]} :: 0 <= i < |cells| ==> r[i] == RenderCell(cells[i], options)
  {
    seq(|cells|, i requires 0 <= i < |cells| => RenderCell(cells[i], options))
  }

  /** Rendering two runs of cells is rendering each run, one list after the other. */
  lemma RendersAppend(a: seq<Cell>, b: seq<Cell>, options: RenderOptions)
    ensures Renders(a + b, options) == Renders(a, options) + Renders(b, options)
  {
  }

  /** `'\n'.join(process_cell(c, options) for c in cells)`. */
  function NbToMarkdown(cells: seq<Cell>, options: RenderOptions): string {
    JoinWith("\n", Renders(cells, options))
  }

  // ----- cells -----

  /** A markdown cell is its joined source and a paragraph break, whatever the options. */
  lemma MarkdownCell(cell: Cell, options: RenderOptions)
    requires cell.cellType == Some("markdown")
    ensures RenderCell(cell, options) == Join(cell.source.GetOr([])) + "\n\n"
    ensures cell.source == None ==> RenderCell(cell, options) == "\n\n"
  {
  }

  /**
   * A heading cell is `level` hash marks (none when the level is missing, zero
   * or negative), one space, the joined source and a paragraph break.
   */
  lemma HeadingCell(cell: Cell, options: RenderOptions)
    requires cell.cellType == Some("heading")
    ensures var n := if cell.level.GetOr(0) <= 0 then 0 else cell.level.GetOr(0);
      var r := RenderCell(cell, options);
      && |r| == n + 1 + |Join(cell.source.GetOr([]))| + 2
      && (forall k :: 0 <= k < n ==> r[k] == '#')
      && r[n] == ' '
      && r[n + 1..] == Join(cell.source.GetOr([])) + "\n\n"
  {
  }

  /** With the level missing or zero the fragment starts with a bare space. */
  lemma HeadingWithoutLevel(cell: Cell, options: RenderOptions)
    requires cell.cellType == Some("heading")
    requires cell.level == None || cell.level == Some(0)
    ensures RenderCell(cell, options) == " " + Join(cell.source.GetOr([])) + "\n\n"
  {
  }

  /**
   * A code cell shows its input block, followed by a paragraph break, exactly
   * when `keep_input` is truthy; its outputs come after in either case.
   */
  lemma CodeCell(cell: Cell, options: RenderOptions)
    requires cell.cellType == Some("code")
    ensures KeepsInput(options) ==>
      RenderCell(cell, options) == Indented(cell.input.GetOr([])) + "\n\n" + RenderOutputs(cell.outputs.GetOr([]))
    ensures !KeepsInput(options) ==>
      RenderCell(cell, options) == RenderOutputs(cell.outputs.GetOr([]))
  {
  }

  /**
   * Without a `keep_input` entry code input is shown: the default that decides
   * is `True`, and the `False` default of the unused local has no effect.
   */
  lemma MissingKeepInputShowsInput(cell: Cell)
    ensures RenderCell(cell, RenderOptions(None)) == RenderCell(cell, RenderOptions(Some(true)))
  {
  }

  /** Only the three known tags produce text; any other tag, or none, renders as nothing. */
  lemma UnknownCellRendersNothing(cell: Cell, options: RenderOptions)
    requires cell.cellType !in {Some("markdown"), Some("heading"), Some("code")}
    ensures RenderCell(cell, options) == ""
  {
  }

  // ----- code input -----

  /** Indenting distributes over the input lines. */
  lemma {:induction false} IndentedAppend(a: seq<string>, b: seq<string>)
    ensures Indented(a + b) == Indented(a) + Indented(b)
  {
    assert Prefixed(CodeIndent, a + b) == Prefixed(CodeIndent, a) + Prefixed(CodeIndent, b);
    JoinAppend(Prefixed(CodeIndent, a), Prefixed(CodeIndent, b));
  }

  /** Line `i` appears, behind exactly four spaces, between the lines before it and the lines after it. */
  lemma {:induction false} IndentedLine(lines: seq<string>, i: nat)
    requires i < |lines|
    ensures Indented(lines) == Indented(lines[..i]) + "    " + lines[i] + Indented(lines[i + 1..])
  {
    assert lines == lines[..i] + ([lines[i]] + lines[i + 1..]);
    IndentedAppend(lines[..i], [lines[i]] + lines[i + 1..]);
    IndentedAppend([lines[i]], lines[i + 1..]);
    assert Prefixed(CodeIndent, [lines[i]]) == ["    " + lines[i]];
    JoinSingle("    " + lines[i]);
  }

  /** The input block is the joined lines plus four characters per line. */
  lemma {:induction false} IndentedLength(lines: seq<string>)
    ensures |Indented(lines)| == |Join(lines)| + 4 * |lines|
  {
    if lines != [] {
      IndentedLength(lines[1..]);
      assert lines == [lines[0]] + lines[1..];
      IndentedAppend([lines[0]], lines[1..]);
      assert Prefixed(CodeIndent, [lines[0]]) == ["    " + lines[0]];
      JoinSingle("    " + lines[0]);
    }
  }

  // ----- outputs -----

  /** The fragment of each output record, in order. */
  function OutputParts(outputs: seq<Output>): (r: seq<string>)
    ensures |r| == |outputs|
    ensures forall i {:trigger r[i]} :: 0 <= i < |outputs| ==> r[i] == RenderOutput(outputs[i])
  {
    seq(|outputs|, i requires 0 <= i < |outputs| => RenderOutput(outputs[i]))
  }

  lemma OutputPartsSnoc(outputs: seq<Output>)
    requires |outputs| > 0
    ensures OutputParts(outputs)
      == OutputParts(outputs[..|outputs| - 1]) + [RenderOutput(outputs[|outputs| - 1])]
  {
  }

  /** Rendering the outputs is rendering each record and concatenating, in the original order. */
  lemma {:induction false} RenderOutputsInOrder(outputs: seq<Output>)
    ensures RenderOutputs(outputs) == Join(OutputParts(outputs))
  {
    if outputs != [] {
      var init := outputs[..|outputs| - 1];
      var last := RenderOutput(outputs[|outputs| - 1]);
      RenderOutputsInOrder(init);
      OutputPartsSnoc(outputs);
      JoinAppend(OutputParts(init), [last]);
      JoinSingle(last);
    }
  }

  /** The outputs of two runs of records render as the two renders, one after the other. */
  lemma {:induction false} RenderOutputsAppend(a: seq<Output>, b: seq<Output>)
    ensures RenderOutputs(a + b) == RenderOutputs(a) + RenderOutputs(b)
  {
    if b == [] {
      assert a + b == a;
    } else {
      var bInit, last := b[..|b| - 1], b[|b| - 1];
      assert (a + b)[..|a + b| - 1] == a + bInit;
      assert (a + b)[|a + b| - 1] == last;
      assert RenderOutputs(a + b) == RenderOutputs(a + bInit) + RenderOutput(last);
      RenderOutputsAppend(a, bInit);
      ConcatAssoc(RenderOutputs(a), RenderOutputs(bInit), RenderOutput(last));
    }
  }

  /** A record renders as nothing exactly when none of html, png and text is truthy. */
  lemma OutputSilentIffNothingTruthy(o: Output)
    ensures RenderOutput(o) == "" <==> !ListTruthy(o.html) && !StrTruthy(o.png) && !ListTruthy(o.text)
  {
  }

  /**
   * A truthy html field decides the record alone: whatever png and text hold,
   * the record is the stripped html between two paragraph breaks.
   */
  lemma HtmlFirst(o: Output, png: Option<string>, text: Option<seq<string>>)
    requires ListTruthy(o.html)
    ensures RenderOutput(o) == RenderOutput(Output(o.html, png, text))
    ensures var body := Strip(Join(o.html.value));
      && RenderOutput(o) == "\n\n" + body + "\n\n"
      && (body == [] || (!IsSpace(body[0]) && !IsSpace(body[|body| - 1])))
  {
  }

  /**
   * With html falsy, a truthy png decides the record: a `data:` URI image tag
   * around the stripped payload, whatever text holds and whichever falsy html.
   */
  lemma PngSecond(o: Output, html: Option<seq<string>>, text: Option<seq<string>>)
    requires !ListTruthy(o.html) && !ListTruthy(html) && StrTruthy(o.png)
    ensures RenderOutput(o) == RenderOutput(Output(html, o.png, text))
    ensures RenderOutput(o) == "<img src=\"data:image/png;base64," + Strip(o.png.value) + "\" />\n\n"
  {
  }

  /** With html and png falsy, a truthy text is its joined lines, unstripped, and a paragraph break. */
  lemma TextLast(o: Output)
    requires !ListTruthy(o.html) && !StrTruthy(o.png) && ListTruthy(o.text)
    ensures RenderOutput(o) == Join(o.text.value) + "\n\n"
  {
  }

  /** A list holding only an empty line is truthy: the html branch fires with an empty body. */
  lemma EmptyHtmlLineStillRenders(png: Option<string>, text: Option<seq<string>>)
    ensures RenderOutput(Output(Some([""]), png, text)) == "\n\n\n\n"
  {
  }

  // ----- documents -----

  /** A notebook without cells renders as the empty document. */
  lemma NoCellsNoText(options: RenderOptions)
    ensures NbToMarkdown([], options) == ""
  {
  }

  /**
   * The document is the first cell's fragment followed by every later fragment
   * behind one newline; so `n` cells add exactly `n - 1` characters to their fragments.
   */
  lemma {:induction false} NbToMarkdownShape(cells: seq<Cell>, options: RenderOptions)
    requires |cells| > 0
    ensures NbToMarkdown(cells, options)
      == RenderCell(cells[0], options) + Join(Prefixed("\n", Renders(cells[1..], options)))
    ensures |NbToMarkdown(cells, options)| == |Join(Renders(cells, options))| + |cells| - 1
  {
    var parts := Renders(cells, options);
    JoinWithIsFirstThenPrefixed("\n", parts);
    assert parts[1..] == Renders(cells[1..], options);
    JoinWithLength("\n", parts);
  }

  /** Adding a cell at the end adds one newline and that cell's fragment. */
  lemma NbToMarkdownSnoc(cells: seq<Cell>, cell: Cell, options: RenderOptions)
    requires |cells| > 0
    ensures NbToMarkdown(cells + [cell], options) == NbToMarkdown(cells, options) + "\n" + RenderCell(cell, options)
  {
    RendersAppend(cells, [cell], options);
    assert Renders([cell], options) == [RenderCell(cell, options)];
    JoinWithSnoc("\n", Renders(cells, options), RenderCell(cell, options));
  }
}
