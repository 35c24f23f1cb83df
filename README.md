# Embedded-application edits in a wiki editor, and the KPT board

This project models two parts of a wiki editor that embeds small
applications in its pages.

The first part is the reconciler `handleAppEdit`. An embedded
application hands back a new text for the body of the node that owns it,
together with the node's span: the 1-based lines of its opening and
closing delimiters. The reconciler works on the editor session, a buffer
of lines that it touches only through `getLine`, `getTextRange`, `insert`
and `remove`. It does one of two things:

- For a non-empty body, it reads the old region of the body, from
  row `start.line`, column 0, to the end of row `end.line - 2`. It then
  replays a character diff of old against new text on the session. A
  cursor moves by `nextPosition`: removed segments are deleted ahead of
  the cursor, added segments are inserted at it and stepped over, and
  kept segments are stepped over.
- For an empty body, it inserts a newline at the start of the closing
  delimiter's row, then inserts the new text at that same position.

The second part is the KPT ("keep, problem, try") board application. It
has a model with three lists of strings, which it reads from and writes
to YAML. Its handlers ignore an empty input. For any other input they
append the entry to one list, then report the re-serialized model to the
editor together with the node's context.

Modules:

- `LineText` (`line_text.dfy`) covers `split('\n')` and `join('\n')`
  as `Split` and `Join`. It also defines `EndPos`, the (row, column)
  reached after writing a text from (0, 0), and proves the round trips
  and the concatenation laws.
- `SessionBuffer` (`session_buffer.dfy`) models the editor session as a
  class `Buffer` whose only field is its `seq<string>` of rows.
  - `Insert` and `Remove` change the rows in place.
  - Their contracts are stated on the flat text `Join(lines)`: the text
    is spliced at the character offset of a (row, column) position.
  - Lemmas tie offsets and positions together. The text before a
    position ends at that position, and the position at the end of a
    prefix of the text has that prefix's length as its offset.
- `WikiEditorAce` (`wiki_editor_ace.dfy`) holds the span, the edit
  script, `NextPosition`, the replay loop, the two branches and
  `HandleAppEdit`. Its main results:
  - Writing from the end of `a` past `s`, `NextPosition` reaches the end
    of `a + s`.
  - After `HandleAppEdit`, the body's rows are exactly the rows of the
    new text; every row above and below is as it was.
- `WikiEditorExamples` (`wiki_editor_examples.dfy`) applies the
  reconciler, in a verified method, to a concrete two-row session.
- `KptApplication` (`kpt_application.dfy`) has the classes `KPTModel`
  and `KPTApplication`. `safeLoad` and `safeDump` are function-typed
  parameters. The component does not depend on the editor: the node's
  context is a type parameter that it only stores and passes back.

Two points where the code is easy to misread:

- The region's first row is `start.line` itself, the first row after the
  opening delimiter, not `start.line - 1`.
- Nothing checks that a span is still current. Rows the code reads or
  writes are required to exist; no rejection path is invented.

## Model

| member | source | states |
|---|---|---|
| LineText.Split | src/AppEnabledWikiEditorAce.jsx:120 | `str.split('\n')` always gives at least one piece, and no piece holds a newline |
| LineText.SplitCount | src/AppEnabledWikiEditorAce.jsx:120 | there is exactly one more piece than there are newlines in the text |
| LineText.SplitOfLine | src/AppEnabledWikiEditorAce.jsx:127-130 | a text without a newline splits into itself alone |
| LineText.SplitConcat | src/AppEnabledWikiEditorAce.jsx:119-131 | splitting `a + b` keeps the pieces of `a`, glues the last one to the first piece of `b`, then continues with the pieces of `b` |
| LineText.SplitAtLastNewline | src/AppEnabledWikiEditorAce.jsx:120-126 | the text after the last newline is the last piece, and the pieces before it are those of the text before that newline |
| LineText.JoinSplit | src/AppEnabledWikiEditorAce.jsx:120 | joining the pieces of a text with newlines gives the text back |
| LineText.SplitJoin | src/AppEnabledWikiEditorAce.jsx:114-116 | rows without newlines, joined and split again, are the same rows |
| LineText.JoinAppend | src/AppEnabledWikiEditorAce.jsx:116 | joining two row lists one after the other puts one newline between their joins |
| SessionBuffer.Offset | src/AppEnabledWikiEditorAce.jsx:115-116 | the character offset of a valid (row, column) position lies within the session text |
| SessionBuffer.Layout | src/AppEnabledWikiEditorAce.jsx:114 | every row sits between the text of the rows above it (with its newline) and the text of the rows below it |
| SessionBuffer.RegionLayout | src/AppEnabledWikiEditorAce.jsx:115-116 | the joined rows `s..e` sit in the text between the text above row `s` and the text below row `e` |
| SessionBuffer.Splice | src/AppEnabledWikiEditorAce.jsx:132-142 | replacing rows `s..e` by other rows replaces exactly the text between row `s`'s start and row `e`'s end by their join |
| SessionBuffer.OffsetMonotone | src/AppEnabledWikiEditorAce.jsx:115-116 | offsets follow the row-major order of positions |
| SessionBuffer.OffsetSplitsText | src/AppEnabledWikiEditorAce.jsx:115-116 | the offset of a position cuts the text inside its row, exactly at its column |
| SessionBuffer.SplitBefore | src/AppEnabledWikiEditorAce.jsx:144 | the text above a row, split, is the rows above it followed by one empty piece |
| SessionBuffer.EndPosAtOffset | src/AppEnabledWikiEditorAce.jsx:118 | the text before a position, written from (0, 0), ends exactly at that position |
| SessionBuffer.OffsetOfPrefix | src/AppEnabledWikiEditorAce.jsx:132-142 | conversely, the end of any prefix of the text is a valid position whose offset is the prefix's length |
| SessionBuffer.SpliceWellFormed | src/AppEnabledWikiEditorAce.jsx:132-146 | rows replaced by rows without newlines still make a buffer with at least one row and no newline inside a row |
| SessionBuffer.InsertLines | src/AppEnabledWikiEditorAce.jsx:137 | the rows after `insert(p, text)` are well formed, and their text is the old text with `text` spliced in at the offset of `p` |
| SessionBuffer.InsertText | src/AppEnabledWikiEditorAce.jsx:137 | cutting row `p.row` at `p.column` and putting the pieces of `text` between its halves splices `text` into the session text at the offset of `p` |
| SessionBuffer.RemoveLines | src/AppEnabledWikiEditorAce.jsx:135 | the rows after `remove(a, b)` are well formed, and their text is the old text without what lies between the offsets of `a` and `b` |
| SessionBuffer.RemoveText | src/AppEnabledWikiEditorAce.jsx:135 | joining what is left of row `a.row` before `a` with what is left of row `b.row` after `b` removes exactly the text between the two offsets |
| SessionBuffer.SameTextSameLines | src/AppEnabledWikiEditorAce.jsx:132-146 | two well-formed buffers with the same text have the same rows |
| SessionBuffer.Buffer.GetLine | src/AppEnabledWikiEditorAce.jsx:114 | `session.getLine(row)` is row `row` itself: the text of the session is the rows above it (with their newlines), this line, then the rows below it |
| SessionBuffer.Buffer.GetTextRange | src/AppEnabledWikiEditorAce.jsx:115-116 | `session.getTextRange(range)` is exactly the stretch of the joined text between the offsets of the range's two ends: its length is their difference, and the text is what lies before the start, this stretch, and what lies after the end |
| SessionBuffer.Buffer.Insert | src/AppEnabledWikiEditorAce.jsx:137 | `session.insert(p, text)`: the buffer stays well formed and its text becomes the old text with `text` spliced in at the offset of `p` |
| SessionBuffer.Buffer.Remove | src/AppEnabledWikiEditorAce.jsx:135 | `session.remove(range)`: the buffer stays well formed and the text between the offsets of the range's ends is gone, the rest unchanged |
| WikiEditorAce.IsOldTextEmpty | src/AppEnabledWikiEditorAce.jsx:112 | the node's body is empty exactly when `start.line == end.line - 1`, that is, when its closing delimiter is on the row right after its opening one |
| WikiEditorAce.BodyRows | src/AppEnabledWikiEditorAce.jsx:112-116 | for a span inside the session, the flag holds exactly when there are no body rows `start.line .. end.line - 2` |
| WikiEditorAce.NextPosition | src/AppEnabledWikiEditorAce.jsx:119-131 | the cursor never moves backwards in row-major order |
| WikiEditorAce.NextPositionWithinLine | src/AppEnabledWikiEditorAce.jsx:127-130 | past a text without a newline, the row is unchanged and the column grows by the text's length |
| WikiEditorAce.NextPositionRow | src/AppEnabledWikiEditorAce.jsx:120-126 | past any text, the row grows by the number of newlines in it |
| WikiEditorAce.NextPositionAcrossLines | src/AppEnabledWikiEditorAce.jsx:120-126 | past a text whose last newline is at index `i`, the column is the length of what follows that newline, whatever the column was |
| WikiEditorAce.NextPositionAfter | src/AppEnabledWikiEditorAce.jsx:119-131 | moving from the end of `a` past `s` reaches the end of `a + s`: the cursor arithmetic agrees with the text it walks over |
| WikiEditorAce.OldRegionText | src/AppEnabledWikiEditorAce.jsx:112-116 | for a non-empty body, the range from (`start.line`, 0) to the end of row `end.line - 2` is valid, and `getTextRange` of it is exactly the join of those rows |
| WikiEditorAce.ScriptStep | src/AppEnabledWikiEditorAce.jsx:132 | stepping over change `i` moves its old part off the text still to replay and its new part onto the text already replayed |
| WikiEditorAce.RemoveStep | src/AppEnabledWikiEditorAce.jsx:133-135 | where the text is `done + v + rest`, the cursor at the end of `done` and `nextPosition` past `v` are valid, ordered, and removing between them leaves `done + rest` |
| WikiEditorAce.InsertStep | src/AppEnabledWikiEditorAce.jsx:136-137 | where the text is `done + rest`, inserting `v` at the end of `done` gives `done + v + rest` |
| WikiEditorAce.ReplayChange | src/AppEnabledWikiEditorAce.jsx:132-142 | one change turns its old part after the cursor into its new part; a kept segment changes no row; a removed one leaves the cursor where it was; otherwise the cursor becomes `nextPosition(cursor, value)`, the end of the text replayed so far |
| WikiEditorAce.ReplayChanges | src/AppEnabledWikiEditorAce.jsx:118-142 | starting from the end of `prefix`, where the text is `prefix + old + suffix`, the text becomes `prefix + new + suffix`, and the cursor ends just after the new text |
| WikiEditorAce.AnchorEndsPrefix | src/AppEnabledWikiEditorAce.jsx:118 | a position whose offset is the length of a prefix of the text is where that prefix ends |
| WikiEditorAce.RegionBounds | src/AppEnabledWikiEditorAce.jsx:115-116 | the old region starts at the offset just after the rows above it and is followed by the text of the rows below it |
| WikiEditorAce.ReplacedRows | src/AppEnabledWikiEditorAce.jsx:132-142 | rows `s..e` replaced by the pieces of a text make a well-formed buffer whose text has that text between the unchanged surroundings |
| WikiEditorAce.ReplaceBody | src/AppEnabledWikiEditorAce.jsx:113-142 | for a non-empty body on rows `s..e`, replaying the script leaves rows `0..s-1` and the rows after `e` as they were, with the rows of the new text between them |
| WikiEditorAce.EmptyBodyBounds | src/AppEnabledWikiEditorAce.jsx:144-145 | inserting a newline at the start of row `r` puts it between the text above and row `r`, and the text above ends at (`r`, 0) |
| WikiEditorAce.InsertedRows | src/AppEnabledWikiEditorAce.jsx:144-146 | the pieces of a text put right before row `r` make a well-formed buffer whose text has the text and a newline just before row `r` |
| WikiEditorAce.InsertBody | src/AppEnabledWikiEditorAce.jsx:143-147 | for an empty body, the rows of the new text appear as fresh rows just before the original row `end.line - 1`, which keeps its content, and no other row changes |
| WikiEditorAce.HandleAppEdit | src/AppEnabledWikiEditorAce.jsx:109-148 | the body's rows become exactly the rows of the new text (for an empty body, inserted before the closing row), the rows above and below are unchanged, and the rows from `start.line` on read back as the new text |
| WikiEditorAce.RewriteSameText | src/AppEnabledWikiEditorAce.jsx:109-142 | writing back the text a body already holds leaves every row as it was: a repeated edit is a no-op |
| WikiEditorExamples.EmptyBodyExample | src/AppEnabledWikiEditorAce.jsx:143-147 | the session `["A", "B"]`, with a node whose delimiters are rows 0 and 1, becomes `["A", "X", "B"]` when the application writes `"X"` |
| KptApplication.KPTModel.constructor | src/apps/KPTApplication.jsx:7-11 | a new model has all three lists empty |
| KptApplication.KPTModel.AddKeep | src/apps/KPTApplication.jsx:12-14 | `keeps` becomes its old value followed by the entry; `problems` and `tries` are unchanged |
| KptApplication.KPTModel.AddProblem | src/apps/KPTApplication.jsx:15-17 | `problems` becomes its old value followed by the entry; `keeps` and `tries` are unchanged |
| KptApplication.KPTModel.AddTry | src/apps/KPTApplication.jsx:18-20 | `tries` becomes its old value followed by the entry; `keeps` and `problems` are unchanged |
| KptApplication.KPTModel.Serialize | src/apps/KPTApplication.jsx:24-26 | no contract: the text is `dump` applied to the three lists, and `safeDump` is uninterpreted |
| KptApplication.Restored | src/apps/KPTApplication.jsx:28-37 | a text that does not parse gives three empty lists; otherwise each list the parsed object supplies is taken as it is, and each one it lacks is empty |
| KptApplication.KPTModel.Deserialize | src/apps/KPTApplication.jsx:27-38 | a fresh model holding what `Restored` gives for the parsed text |
| KptApplication.KPTApplication.constructor | src/apps/KPTApplication.jsx:47-53 | the component's model is a fresh model deserialized from its `data` |
| KptApplication.KPTApplication.ReceiveProps | src/apps/KPTApplication.jsx:54-59 | new `data` that differs from the current `data` is deserialized into a fresh model; the same `data` keeps the model object and its contents; afterwards the component holds the new `data` and the new `appContext`, which later edits carry |
| KptApplication.KPTApplication.HandleAddKeep | src/apps/KPTApplication.jsx:63-69 | an empty value changes nothing and reports no edit; otherwise the value is appended to `keeps` alone, and one edit is reported: the serialized updated model with the unchanged context |
| KptApplication.KPTApplication.HandleAddProblem | src/apps/KPTApplication.jsx:70-76 | the same, for `problems` |
| KptApplication.KPTApplication.HandleAddTry | src/apps/KPTApplication.jsx:77-83 | the same, for `tries` |

## Left out

- Normalising the new text (`WikiParser.removeLastNewLine` and `indentAppCode`, line 111 of `src/AppEnabledWikiEditorAce.jsx`): this model does not include them. `HandleAppEdit` takes the text as it is after that step.
- `diffChars`: the script is a parameter. For a non-empty body, its kept and removed parts must join to the old region text, and its kept and added parts to the new text. How the script is computed is not modelled.
- HandleAppEdit: requires that the rows the code reads and writes exist and that `start.line < end.line`. Ace clamps positions outside the document, and nothing in the code rejects a stale span, so an out-of-range or reversed span has no modelled behaviour.
- `this.editor.editor.getSession()`: the session is passed in as a `Buffer`. How Ace stores it (a document of rows, change events, undo) is not modelled.
- Line breaks: only `'\n'` separates rows, as in `nextPosition`'s `split('\n')`. Ace also breaks rows at `"\r\n"` and `"\r"`, which the model does not.
- Characters: JavaScript string lengths, Ace columns and `diffChars` segments count UTF-16 code units. A `char` here stands for one such code unit; a segment that splits a surrogate pair cannot be written with Dafny's `char`, but no proof depends on the alphabet.
- Ace's `insert` returning the end position is not modelled; the code does not use it.
- The Yjs binding, the split-pane layout code, rendering, `forceUpdate`, `shouldComponentUpdate` with the model's `equals` (lodash `isEqual`), and `render`/`renderCell`: these are network, floating-point layout, a foreign library and UI, and are not part of the model.
- `setState` is modelled as an immediate assignment of the new model. React's batching of state updates is not modelled.
- `safeLoad`/`safeDump`: they are function-typed parameters.
- KptApplication.KPTModel.Serialize: has no contract of its own. With `safeDump` uninterpreted and no round trip claimed, the only thing to say is which board is dumped. The handlers' contracts say that: the reported text is the serialization of the updated model.
  - Parsing either fails or yields, for each of the three fields, a list of strings or nothing (missing or falsy).
  - A truthy field value that is not a list of strings is not modelled.
  - A text that loads to `undefined` or `null` makes `obj.keeps` throw, which the code catches; this is folded into the parse failure.
  - No serialize/deserialize round trip is claimed.
- `model.keeps = obj.keeps` shares the parsed array. Lists are values here, so that aliasing is not modelled.
- The handlers read `this.inputKeep.value` and the others from the page; that value is a parameter. The `onEdit` callback is not called: the handler returns the arguments it would be called with, or nothing.
