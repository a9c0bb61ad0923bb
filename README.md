# Code snippets extension: verified model of its core logic

This project models the JupyterLab code-snippets extension (`src/index.ts`) in Dafny. Most of that
file wires the extension into the host application. The model covers the pieces of logic that
are stated in the file itself:

- **Save As Code Snippet** (`codeSnippet:save-as-snippet`). The command turns captured text into
  the code lines handed to the snippet input dialog, together with the id -1.
  - A non-empty selection is split on line feeds and nothing else.
  - Otherwise the command reads the inner text of the second selected cell and normalises it:
    1. every U+FFFD is removed;
    2. the text is split on line feeds;
    3. the first piece (the cell prompt) is dropped;
    4. a nested loop blanks, in place, every remaining line that holds a U+200B.
  - Modules `Text` and `SaveSnippet`. The blanking is a method over an `array<string>` with
    nested `while` loops. It is proved against the function `BlankLines`.
- **Editor panels** (`openCodeSnippetEditor`):
  - the panel id `jp-codeSnippet-editor-<id>`, with the snippet id written as a decimal integer
    (module `Decimal`);
  - the tab title;
  - the open-once policy. A linear `find` over the main-area widgets looks for the panel id. If
    the panel is open, it is only activated. Otherwise a new editor is built, the tracker takes
    it, and it is added to the main area and activated.
  - The host shell and the widget tracker are one class, `SnippetEditor.Shell`, holding:
    - the main-area widgets in tab order;
    - the editors the tracker holds;
    - the id last activated;
    - a counter that hands out object identities (handles).
- **Restoration**: the `args` and `name` projections given to the layout restorer. For an editor
  whose metadata is still what it was opened with, reopening from the stored args gives back the
  panel under its restore name.

The two texts the save command reads from the page are parameters:
- the selection string;
- the inner texts of the elements with class `jp-Cell jp-mod-selected`, in document order.

The source indexes that list at `[1]`. With fewer than two selected cells it reads
`innerText` of `undefined` and throws. The model returns `Failure(NoSecondSelectedCell)` in
that case.

Strings are sequences of Unicode scalar values. JavaScript strings are UTF-16 code units, and
`charCodeAt(j) === 8203` compares code units. This makes no difference here. Line feed, U+FFFD
and U+200B are each a single code unit outside the surrogate range, so splitting, removal and
the zero-width-space test give the same lines either way.

Two behaviours of the code are kept as written:
- The code reads `widget.codeSnippetEditorMetadata` with no check for missing metadata, so every
  modelled editor carries metadata and the restore projections are total.
- Blanking the whole line on a U+200B looks unintended (removing only that character seems
  meant). The model blanks the whole line, as the code does.

## Model

| member | source | states |
|---|---|---|
| Text.Split | src/index.ts:194 | `split('\n')` always yields at least one piece, and no piece holds a line feed |
| Text.JoinSplit | src/index.ts:207 | joining the pieces of a split with line feeds gives back the original string, so splitting removes no character |
| Text.SplitJoin | src/index.ts:194 | splitting the join of one or more line-feed-free lines gives back exactly those lines (inverse direction) |
| Text.SplitLength | src/index.ts:194-195 | a split has exactly one more piece than the string has line feeds |
| Text.RemoveAll | src/index.ts:193 | `replace(/\uFFFD/g, '')` leaves no occurrence of the character and shortens the text by exactly its number of occurrences; RemoveAllAbsent (a text without the character is unchanged) and RemoveAllAppend (removal distributes over concatenation) fix which characters survive and in what order |
| Text.RemoveAllAbsent | src/index.ts:193 | removing a character that does not occur returns the text unchanged |
| Text.RemoveAllAppend | src/index.ts:193 | removal works piecewise: removing from `s + t` is removing from `s` followed by removing from `t`, so surviving characters keep their order |
| Text.SplitPiecesAvoid | src/index.ts:193-194 | a character absent from the text is absent from every piece of its split |
| SaveSnippet.CellLines | src/index.ts:193-202 | reference definition of the fallback path: it has one line fewer than the split of the cleaned text, and no line holds a U+200B (per-line promises in CellLinesFromPieces and CellLinesClean) |
| SaveSnippet.SaveRequest | src/index.ts:185-210 | reference definition of the command: it fails exactly when the selection is empty and fewer than two cells are selected, and every success carries the id -1 (the cases are proved in SelectionKeepsText and FallbackNeedsSecondCell) |
| SaveSnippet.BlankZeroWidthLines | src/index.ts:196-202 | the nested loop leaves each array element blanked if it held a U+200B and untouched otherwise; the inner loop stops once its line is blanked |
| SaveSnippet.NormalizeCellText | src/index.ts:192-203 | the fallback path (remove U+FFFD, split, drop the first piece, blank in place) yields exactly `CellLines(text)` |
| SaveSnippet.SaveAsSnippet | src/index.ts:185-210 | the command yields the split selection when one exists, and otherwise the normalised second selected cell, with id -1 in both cases; with no second cell it fails |
| SaveSnippet.SelectionKeepsText | src/index.ts:204-209 | with a non-empty selection the command succeeds, and its lines joined by line feeds equal the selection |
| SaveSnippet.FallbackNeedsSecondCell | src/index.ts:186-192 | with an empty selection the command fails if and only if fewer than two cells are selected, and otherwise normalises the second one |
| SaveSnippet.CellLinesFromPieces | src/index.ts:193-202 | the fallback yields one line per line feed of the cleaned text; line k is empty if piece k+1 holds a U+200B and is that piece otherwise |
| SaveSnippet.CellLinesClean | src/index.ts:193-202 | no fallback line holds U+FFFD, U+200B or a line feed |
| SaveSnippet.BlankLinesOnlyMarked | src/index.ts:196-202 | blanking keeps the number of lines, changes only lines holding U+200B, and leaves its own output unchanged |
| SaveSnippet.CellLinesStable | src/index.ts:196-202 | running the blanking step again over the fallback's output changes nothing |
| SaveSnippet.CellLinesExample | src/index.ts:193-202 | the cell text `"0\n1\uFFFD23\n\u200Babc"` becomes the lines `"123"` and `""` |
| Decimal.NatToStringInjective | src/index.ts:108 | distinct naturals have distinct decimal texts |
| Decimal.IntToString | src/index.ts:108 | `${args.id}` for an integer id: a non-empty text that starts with `-` exactly when the id is negative; IntToStringInjective shows distinct ids give distinct texts |
| Decimal.IntToStringInjective | src/index.ts:108 | distinct integer ids have distinct template-literal texts; the text starts with `-` exactly for negative ids |
| SnippetEditor.PanelId | src/index.ts:108 | the panel id is the prefix `jp-codeSnippet-editor-` followed by at least one character of the snippet id |
| SnippetEditor.PanelIdInjective | src/index.ts:108 | distinct snippet ids give distinct panel ids |
| SnippetEditor.Title | src/index.ts:131-134 | the title is `New Code Snippet` exactly when the name is empty; otherwise it is `[`, the language, `] `, then the name |
| SnippetEditor.RestoreArgsOf | src/index.ts:237-247 | the `args` projection: the stored record, read back by the open command, is exactly the editor's current metadata |
| SnippetEditor.RestoreName | src/index.ts:249-251 | the `name` projection is the widget id, which for an editor built by the open command is the panel id of its snippet id |
| SnippetEditor.MetadataOf | src/index.ts:169-172 | the open command reads each of the seven args fields (name, description, language, code, id, selectedTags, allTags) as the metadata field of the same name |
| SnippetEditor.RestoreRoundTrip | src/index.ts:237-251 | the restore args carry the editor's seven metadata fields unchanged; reopening from them yields the restore name as panel id and the same title |
| SnippetEditor.Find | src/index.ts:110-115 | `find` returns a widget exactly when some main-area widget has the id, and then returns the first such widget |
| SnippetEditor.CountIdDistinct | src/index.ts:110-119 | among widgets with distinct ids, an id occurs once if present and not at all otherwise |
| SnippetEditor.AddEditorKeepsInvariant | src/index.ts:138-146 | with the editor constructor modelled as inert (see Left out), a freshly built editor is neither tracked nor attached; adding it to the tracker and the main area keeps the shell invariant and makes its id occur exactly once |
| SnippetEditor.Shell.Open | src/index.ts:106-150 | if the panel is already open, the widgets and tracker are unchanged and the panel is activated; otherwise exactly one new editor, titled from the metadata, is appended to both and activated; afterwards exactly one main-area widget has the panel id and the tracker holds each id at most once |
| SnippetEditor.OpenTwice | src/index.ts:110-119 | opening the same snippet twice in a shell without its panel creates exactly one panel |
| SnippetEditor.TrackedEditorsRestore | src/index.ts:235-252 | for every editor the tracker holds, the restore args give back its metadata and name the panel id equal to its restore name |

## Left out

- `getSelectedText` (src/index.ts:267-278) and the DOM lookup with `innerText`
  (src/index.ts:188-192): browser access. Their results are the two input strings.
- `CodeSnippetInputDialog` (src/index.ts:203-209): its source is not part of this model. The
  model returns the lines and id the dialog receives.
- Command, keybinding and context-menu registration (src/index.ts:152-225), including the
  editor save command, whose `updateSnippet` belongs to `CodeSnippetEditor`.
  `CodeSnippetEditor` is not part of this model.
- Icons and SVG imports (src/index.ts:15-16, 38-49).
- The explorer widget set-up, `restorer.add` and `shell.add` to the left area
  (src/index.ts:87-103): host wiring with no logic of its own.
- `CodeSnippetContentsService.save` (src/index.ts:96-97): persistence I/O in a class not part of
  this model.
- Settings-registry loading and console logging (src/index.ts:255-265): asynchronous and
  foreign.
- Editor appearance set in `openCodeSnippetEditor`: `addClass`, `title.closable`, `title.icon`
  (src/index.ts:130, 135-136). They have no effect on identity or policy.
- Main-area placement: the `tab-after` mode is modelled as appending to the end of the
  main-area order.
- When the restorer runs and how it persists its state. Closing and disposing panels is host
  behaviour, so the shell model has no close operation.
- Decimal.IntToString: snippet ids are integers. JavaScript's exponent notation for numbers of
  magnitude 1e21 or more, and non-integer ids, are not modelled.
- CodeSnippetEditor is modelled as inert: its constructor (src/index.ts:121-127, source not part
  of this model, and it receives the tracker) neither tracks nor attaches the editor, and the
  editor's metadata, id and title never change after it opens, although `updateSnippet`
  (src/index.ts:156) may change the metadata the `args` projection reads. So the
  `!tracker.has(...)` and `!isAttached` guards always pass in the model.
- SnippetEditor.RestoreRoundTrip: the panel-id half holds for an editor whose metadata is still the
  one it was opened with (WellFormed); an editor whose snippet id changed after opening is not
  modelled.
- SnippetEditor.TrackedEditorsRestore: holds under the inert-editor assumption above; it does not
  cover metadata changed by the editor's own save action.
