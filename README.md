# IPython notebook reader, modelled in Dafny

This project models the part of the Pelican `ipynb` reader plugin that turns an IPython
notebook (format 3, with cells grouped in worksheets) into one Markdown document
(`ipynb/ipynb.py`). It covers:

- `process_cell`. It dispatches on a cell's `cell_type` tag:
  - markdown: the joined source;
  - heading: `level` hash marks, a space, then the joined source;
  - code: the input lines, each behind four spaces, when `keep_input` is truthy; then each
    output record, rendered from its first truthy field among html, png and text;
  - anything else: nothing.
- `nb_to_markdown`. It renders every cell of the first worksheet and joins the fragments with
  newlines.
- `get_metadata`. It turns the first cell, which must be a markdown cell, into metadata text.
- The `keep_input` part of `IPyNbReader.read`. It searches the metadata text with the
  case-insensitive pattern `keep_input[ ]*\:[ ]*([true|false]+)` and sets the option to
  `bool(value.title())`.

Modules:

- `Wrappers` (`wrappers.dfy`): `Option` for a dictionary key that may be absent, and `Result` for
  a read that may raise.
- `Text` (`text.dfy`): the Python string operations the code relies on. These are `''.join`,
  `sep.join`, `n * c`, `str.strip()` with Python 3's whitespace set, and `str.title()`.
- `Notebook` (`notebook.dfy`):
  - the `Cell`, `Output` and `RenderOptions` datatypes, each dictionary key an `Option` field;
  - the specification functions `RenderOutput`, `RenderOutputs`, `RenderCell` and `NbToMarkdown`;
  - `ProcessCell`, the imperative cell renderer. Like the source, it extends an accumulator
    branch by branch and then once per output record in a loop. It is proved to compute
    `RenderCell`.
- `Reader` (`reader.dfy`):
  - `GetMetadata`;
  - the pattern, stated twice. `MentionsKeepInput` says that positions exist where the pattern
    matches. `Search` is the leftmost deterministic search, as `re.search` does it. Lemmas prove
    that the two agree.
  - `ReadKeepInput` and `ReadMarkdown`, the Markdown that `read` hands to the converter.
  - Errors are `ReadError` values:
    - `NoCells`: `cells[0]` of an empty list;
    - `FirstCellNotMarkdown`: the failed assertion on the first cell;
    - `KeepInputUnbound`: `keep_input` read when the pattern did not match.

What the code does, as the model states it:

- A list is truthy when it is non-empty, even when it is `[""]`. A string is truthy when it is
  non-empty.
- Without a `keep_input` entry in the options, code input is shown. The `False` default on line
  29 is assigned to a local that nothing reads.
- A `keep_input` declaration always yields `True`, even for the value `false`: the captured group
  is never empty, and `bool` of a non-empty string is `True`. A first cell with no declaration
  makes the read fail, because `keep_input` is then never assigned.

Further facts about the code that the model keeps:

- Code input is only indented. Each line is put behind four spaces (ipynb/ipynb.py:38); no
  highlighter runs and no container markers are added.
- An html output is its stripped lines between paragraph breaks, with no wrapper (line 47).
- Text outputs are joined unstripped (line 51), so a whitespace-only text still renders.
- No heading is rewritten into a `title:` line, and the joined document is not trimmed (line 60).
- A first cell without a `keep_input` declaration makes `keep_input` unbound when line 78 reads it.

## Model

| member | source | states |
|---|---|---|
| `Notebook.RenderCell` | ipynb/ipynb.py:25-52 | Definition of `process_cell`; characterised by `ProcessCell`, `MarkdownCell`, `HeadingCell`, `CodeCell` and `UnknownCellRendersNothing` |
| `Notebook.RenderOutput` | ipynb/ipynb.py:43-51 | Definition of one output record's fragment; characterised by `OutputSilentIffNothingTruthy`, `HtmlFirst`, `PngSecond` and `TextLast` |
| `Notebook.RenderOutputs` | ipynb/ipynb.py:41-51 | Definition of the output loop as a fold; characterised by `RenderOutputsInOrder` and `RenderOutputsAppend` |
| `Notebook.Indented` | ipynb/ipynb.py:37-38 | Definition of the input block; characterised by `IndentedLine`, `IndentedLength` and `IndentedAppend` |
| `Notebook.NbToMarkdown` | ipynb/ipynb.py:54-62 | Definition of `nb_to_markdown`; characterised by `NoCellsNoText`, `NbToMarkdownShape` and `NbToMarkdownSnoc` |
| `Notebook.ProcessCell` | ipynb/ipynb.py:25-52 | The accumulator built branch by branch, and record by record in the output loop, equals the cell's fragment `RenderCell` |
| `Notebook.MarkdownCell` | ipynb/ipynb.py:31-32 | A markdown cell is its joined source then `"\n\n"`, whatever the options; with no `source` it is exactly `"\n\n"` |
| `Notebook.HeadingCell` | ipynb/ipynb.py:33-34 | A heading cell is exactly max(level, 0) `#` characters, one space, the joined source and `"\n\n"`, and nothing else |
| `Notebook.HeadingWithoutLevel` | ipynb/ipynb.py:34 | With the level missing or 0 the fragment is a bare space, the joined source and `"\n\n"` |
| `Notebook.CodeCell` | ipynb/ipynb.py:35-41 | A code cell is the indented input block and `"\n\n"` followed by its rendered outputs when `keep_input` is truthy, and only the rendered outputs otherwise |
| `Notebook.MissingKeepInputShowsInput` | ipynb/ipynb.py:26-36 | Options without `keep_input` (or no options at all) render every cell as `keep_input = True` does; the `False` default on line 29 has no effect |
| `Notebook.UnknownCellRendersNothing` | ipynb/ipynb.py:28-35 | A cell whose tag is missing or is not markdown, heading or code renders as the empty string |
| `Notebook.IndentedLine` | ipynb/ipynb.py:37-38 | In the input block, line `i` appears behind exactly four spaces, between the block of the lines before it and the block of the lines after it |
| `Notebook.IndentedLength` | ipynb/ipynb.py:38 | The input block is the joined lines plus exactly four characters per line |
| `Notebook.IndentedAppend` | ipynb/ipynb.py:38 | Indenting distributes over concatenation of the input lines |
| `Notebook.RenderOutputsInOrder` | ipynb/ipynb.py:41-51 | The rendered outputs are the records' fragments concatenated in their original order |
| `Notebook.RenderOutputsAppend` | ipynb/ipynb.py:42-51 | Rendering two runs of records is rendering each run, one after the other |
| `Notebook.OutputSilentIffNothingTruthy` | ipynb/ipynb.py:43-51 | A record contributes nothing if and only if none of html, png and text is truthy |
| `Notebook.HtmlFirst` | ipynb/ipynb.py:46-47 | A truthy html field alone decides the record, whatever png and text hold: `"\n\n"`, the stripped joined html (no whitespace at either end), `"\n\n"` |
| `Notebook.PngSecond` | ipynb/ipynb.py:48-49 | With html falsy, a truthy png alone decides the record: `<img src="data:image/png;base64,` + stripped payload + `" />` and `"\n\n"` |
| `Notebook.TextLast` | ipynb/ipynb.py:50-51 | With html and png falsy, a truthy text is its joined lines, unstripped, then `"\n\n"` |
| `Notebook.EmptyHtmlLineStillRenders` | ipynb/ipynb.py:46-47 | An html list holding one empty line is truthy and yields `"\n\n\n\n"` |
| `Notebook.RendersAppend` | ipynb/ipynb.py:60 | The list comprehension over two runs of cells is the fragments of the first run followed by those of the second |
| `Notebook.NoCellsNoText` | ipynb/ipynb.py:59-60 | No cells give the empty document |
| `Notebook.NbToMarkdownShape` | ipynb/ipynb.py:60 | The document is the first fragment and then every later fragment behind one `'\n'`; `n` cells add exactly `n - 1` characters to their fragments |
| `Notebook.NbToMarkdownSnoc` | ipynb/ipynb.py:60 | One more cell adds exactly one `'\n'` and its fragment at the end |
| `Text.Strip` | ipynb/ipynb.py:47-49 | `strip()` never lengthens its argument, and neither end of the result is whitespace |
| `Text.StripExact` | ipynb/ipynb.py:47-49 | Around a core without whitespace at its ends, strip removes exactly the whitespace border and returns the core |
| `Text.StripSplits` | ipynb/ipynb.py:47-49 | Every string is a whitespace border, its strip, and a whitespace border |
| `Text.StripKeepsStripped` | ipynb/ipynb.py:47-49 | A string with no whitespace at either end is unchanged by strip |
| `Text.StripIdempotent` | ipynb/ipynb.py:47-49 | Stripping twice is stripping once |
| `Text.Join` | ipynb/ipynb.py:32 | Definition of `''.join`; characterised by `JoinAppend` |
| `Text.JoinWith` | ipynb/ipynb.py:60 | Definition of `sep.join`; characterised by `JoinWithIsFirstThenPrefixed`, `JoinWithSnoc` and `JoinWithLength` |
| `Text.JoinAppend` | ipynb/ipynb.py:32 | `''.join` distributes over concatenation of the lists |
| `Text.JoinWithIsFirstThenPrefixed` | ipynb/ipynb.py:60 | `sep.join(parts)` is the first part followed by every later part prefixed with `sep` |
| `Text.JoinWithSnoc` | ipynb/ipynb.py:60 | Appending a part appends exactly one separator and that part |
| `Text.JoinWithLength` | ipynb/ipynb.py:60 | `n` parts give their characters plus `(n - 1)` separators |
| `Text.Repeat` | ipynb/ipynb.py:34 | `n * '#'` is `max(n, 0)` characters, each `#` |
| `Text.Title` | ipynb/ipynb.py:75 | `title()` keeps the length of the string |
| `Text.TitleTruthy` | ipynb/ipynb.py:75 | `bool(v.title())` equals `bool(v)` |
| `Reader.GetMetadata` | ipynb/ipynb.py:13-23 | Definition of `get_metadata` on the parsed cells; characterised by `MetadataIsFirstCellRender` |
| `Reader.Search` | ipynb/ipynb.py:73 | Definition of the leftmost `re.search`; characterised by `SearchComplete`, `SearchSound`, `SearchLeftmost` and `SearchIffMentioned` |
| `Reader.MentionsKeepInput` | ipynb/ipynb.py:73 | Definition of "the pattern occurs somewhere"; tied to `Search` by `SearchIffMentioned` |
| `Reader.ReadKeepInput` | ipynb/ipynb.py:72-78 | Definition of the option `read` computes; characterised by `KeepInputOnlyTrue`, `DeclaredFalseShowsInput` and `UndeclaredFails` |
| `Reader.ReadMarkdown` | ipynb/ipynb.py:72-78 | Definition of the Markdown `read` passes on; characterised by `ReadAlwaysShowsInput` |
| `Reader.MetadataIsFirstCellRender` | ipynb/ipynb.py:18-23 | Metadata exists exactly when there is a first cell and it is markdown; an empty cell list fails with `NoCells`; the text equals that cell's render: its joined source and `"\n\n"` |
| `Reader.SkipBlanks` | ipynb/ipynb.py:73 | `[ ]*` read greedily: every position skipped is a blank, and the next one is not |
| `Reader.ValueEnd` | ipynb/ipynb.py:73 | `[true|false]+` read greedily: every position taken is in the class, and the next one is not |
| `Reader.MatchAt` | ipynb/ipynb.py:73 | A match at a position captures a non-empty run of characters from the class |
| `Reader.MatchAtSound` | ipynb/ipynb.py:73 | A match found at `p` is an occurrence of the pattern at `p` |
| `Reader.MatchAtComplete` | ipynb/ipynb.py:73 | Every occurrence of the pattern at `p` is found when `p` is tried |
| `Reader.SearchComplete` | ipynb/ipynb.py:73 | If some position at or after the start matches, the search reports a value |
| `Reader.SearchSound` | ipynb/ipynb.py:73 | A reported value is the match at some position at or after the start |
| `Reader.SearchLeftmost` | ipynb/ipynb.py:73 | The reported value is the match at the leftmost matching position |
| `Reader.SearchIffMentioned` | ipynb/ipynb.py:73-74 | The search succeeds if and only if the text mentions `keep_input` per the pattern, and its value is a non-empty run of class characters |
| `Reader.MentionedInLonger` | ipynb/ipynb.py:73 | A declaration stays found when more text follows it |
| `Reader.KeepInputOnlyTrue` | ipynb/ipynb.py:72-78 | The option is never `False`. It is `True` exactly when the metadata exists and mentions `keep_input`. A metadata failure propagates. Without a mention the read fails with `KeepInputUnbound` |
| `Reader.ReadAlwaysShowsInput` | ipynb/ipynb.py:72-78 | Whenever the read gets as far as the Markdown, the document is exactly the one rendered with default options, which show all code input |
| `Reader.DeclaredFalseMentioned` | ipynb/ipynb.py:73 | `keep_input: false` matches the pattern |
| `Reader.DeclaredFalseShowsInput` | ipynb/ipynb.py:73-75 | A first cell declaring `keep_input: false` yields `keep_input = True` |
| `Reader.UndeclaredFails` | ipynb/ipynb.py:73-78 | A first cell without a declaration makes the read fail with `KeepInputUnbound` |

## Left out

- Opening the file and `json.load` are I/O (ipynb/ipynb.py:15-16, 56-57). The model starts from
  the already parsed cell list of the first worksheet. It does not model the `KeyError` or
  `IndexError` that a notebook without worksheets would raise.
- The Markdown-to-HTML conversion and the metadata parsing (ipynb/ipynb.py:81-86) are calls into
  the `markdown` library and into Pelican, whose code is not part of this model.
- The optional import of `markdown`, the `enabled` flag and the registration with Pelican's
  signals (ipynb/ipynb.py:7-11, 65-68, 88-92) are framework plumbing.
- JSON values are taken to have the types the notebook format gives them: lists of strings for
  `source`, `input`, `html` and `text`, a string for `png`, an integer for `level`. Values of
  other types are not modelled. Examples are a bare string `source`, which `''.join` would give
  back unchanged, and a `null`, which would raise.
- `RenderOptions` holds `keep_input` as a boolean. The truthiness of other Python values that a
  caller could put there is not modelled.
- Reader.Lowered: compares the key ignoring ASCII case only. Python 3's `re.IGNORECASE` also
  lets U+212A (Kelvin sign) match `k`, and U+0130 and U+0131 match `i`.
- Reader.IsValueChar: the class `[true|false]` is matched ignoring ASCII case only. Python 3 also
  lets U+017F (long s) match `s`, so `keep_input: ſ` yields `True` there, while the model reports
  `KeepInputUnbound`.
- Text.Title: models `str.title()` on ASCII letters only. Non-ASCII characters are kept as they
  are. The captured group is always ASCII in this model, so the result is unaffected.
- Text.IsSpace: uses Python 3's whitespace set. Python 2's `unicode.strip()` used an older
  Unicode table.
