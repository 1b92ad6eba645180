# A verified model of the cpymacs editing engine

cpymacs is an editor whose core, written in C, keeps a buffer's text in a
piece-table treap, records every edit as an inverse record, caches lexical
states and display columns, searches without flattening the text, and serves
requests from several clients. This project models that core in Dafny and
proves that each of these fast structures agrees with a much simpler thing.

Check everything with `dafny verify dfyconfig.toml`.

## Layout

| file | what it models |
|---|---|
| Bytes, Utf8 | flat byte sequences, rows, code points; UTF-8 against sections 3 and 4 of RFC 3629 |
| PieceTree | the treap as a value: split, merge, tail extension, and what they do to text, sums, heap order and pieces |
| TextStore | the treap as linked nodes changed in place; every operation proved equal to its effect on a flat byte sequence |
| History, Document | edit records, groups and state ids; a buffer's document as a value; runs of edits, undos, saves and resets |
| Lexer, Columns, CacheRuns | the line scanner and its state cache, column scans and their two checkpoints, runs of edits and queries |
| Diff, Search, Buffer | the minimal replacement, chunked KMP, and the buffer object that ties text, history and caches together |
| Kill, Query, Editor | kill ring, yank and query-replace, as state machines and as commands on the editor object |
| FileFormat | BOM and line endings on load and save |
| Json, Request | escape normalisation, and the check and normalisation between a received line and the editor |
| Framing, Transport, Server | line framing, the bounded line reader and the stdio backend, the multi-client server loop |
| Modulo, BufferTable | the tables of buffers and panes |
| Palette | the contrast-guaranteeing terminal palette |

## How the model is built

The objects the C code updates in place are classes here (`Piece`, `Text`,
`Buffer`, `Editor`, `Connection`, `Backend`, `Table`, `TermPalette`), and its
loops are loops. Each method is proved against a function of the old state;
the properties of interest are lemmas about those functions and invariants
kept by every method. Ghost fields record what the properties speak about: the
text at the last save, the bytes a connection received and was sent.

A text's random priorities are computed as in the source, but nothing depends
on them: heap order holds for any priorities. Input, output and `poll` are
parameters: every cutting of a stream into reads and writes, every order of
events and every failure is covered. The editor behind the server is an
arbitrary function from the requests that reached it so far to the next reply,
and `wcwidth` an arbitrary function from code points to integers. Colours are
triples of components, and luminance is taken over the reals for any transfer
curve that maps 0 to 0 and 255 to 1 and is nowhere negative.

## Findings

- Clean flag, undo, search, query-replace, index functions, framing, buffer
  table and palette meet what the design promises, on all inputs; so do the
  caches, for column queries at code-point boundaries.
- `scan_columns` ends exactly when its end is a code-point boundary
  (`Columns.ScanEnds`); elsewhere the back-off leaves an empty chunk and the
  loop turns for ever. `src/view.c:61-66` passes such an end for a pane that is
  not active and remembers a point that has become stale: in the text a, U+00E9
  with point 1, split the window and delete the first letter
  (`Columns.StalePoint`).
- `strict_json_ascii` turns some malformed string bodies into well-formed ones:
  a backslash before a raw non-ASCII character becomes an escaped backslash
  followed by the text of the escape. `Json.StrayExample` gives an input and
  `Json.NormaliseKeepsMeaning` the exact condition; well-formed bodies are
  never affected.
- A run of kills whose first one removes nothing appends to the older kill-ring
  entry, so yanking does not restore the text; `Kill.KillExample` gives an input
  and `Kill.KillRunRestores` the exact condition.
- `docs/safety.html` promises no fidelity for mixed line endings, but the code
  does reproduce every accepted file byte for byte (`FileFormat.OpenAndSave`).
- `backend_stdio` passes a request on only up to its first NUL byte, while the
  server refuses such a request. The two differ exactly on lines with a NUL
  byte behind valid UTF-8 (`Request.NulDiffers`); `Request.NulExample` gives one.
- Whether `protocol_read_line` accepts a line of exactly one frame depends on
  how the stream is cut: it does exactly when the buffer fills beyond the frame
  rather than up to it (`Transport.Verdict`, a function of the buffer and the
  cuts before the call). `Transport.ExactFrame` reads the same bytes in two ways
  with the two outcomes. Every shorter line is accepted, no longer one is.
- Saving a text and opening the file does not always give the text back: a
  text edited to begin with a byte-order mark loses it, and an LF text edited
  so that a carriage return stands before every newline loses those
  (`FileFormat.SaveLoadRoundTrip` has the exact condition,
  `FileFormat.SaveLoadExample` an input).
- The cursor's fixed RGB pair has contrast 7 under every transfer curve between
  the cube and the identity (`Palette.CursorReadable`). That of sRGB is one: its
  linear branch has slope 1 / 12.92 and ends at 0.04045, and its power branch
  is convex, meets the identity at 1, and has a base no less than the component
  and an exponent below 3.

## Model

| member | source | states |
|---|---|---|
| Bytes.LineRoundTrip | src/text.c:136-164 | the row of a row's start offset is that row, for every existing row |
| Bytes.LineStartLe | src/text.c:136-164 | an offset is at or after a row's start exactly when it lies on that row or a later one |
| Bytes.NoNewlineBefore | src/text.c:136-164 | between the start of an offset's row and the offset there is no newline |
| Bytes.LineHasNoNewline | src/text.c:136-150 | the bytes between two row starts, less the final newline, hold no newline |
| Bytes.LineEndsThere | src/text.c:136-150 | every row ends at its newline, behind which the next one starts; the last row ends at the end of the text |
| Bytes.CharRoundTrip | src/text.c:151-182 | code-point index and byte offset invert each other on every boundary and every index, clamped past the end |
| Bytes.CharAtUnique | src/text.c:166-182 | only one boundary has a given number of code points before it |
| Utf8.Utf8Decode | src/text.c:192-204 | the decoding loop computes the reference decoder on every input |
| Utf8.Utf8Valid | src/text.c:205-208 | the checking loop accepts exactly the valid sequences |
| Utf8.DecodeEncode | src/text.c:192-204 | decoding the RFC 3629 encoding of any scalar value, whatever follows, gives the scalar and its length |
| Utf8.EncodeDecode | src/text.c:192-204 | whatever the decoder accepts is the encoding of what it returns: no overlong form, surrogate or excess value |
| Utf8.ValidExact | src/text.c:205-208 | the accepted inputs are exactly the encodings of sequences of non-NUL scalar values |
| Utf8.DecodeAllInverse | src/text.c:192-208 | encoding the decoded scalars of an accepted text gives the text again |
| Utf8.EncodeAllInverse | src/text.c:192-208 | the encoding of non-NUL scalars is accepted and decodes to them |
| Utf8.ValidConcat | src/text.c:205-208 | accepted texts are closed under concatenation |
| Utf8.ValidCut | src/text.c:86 | cutting an accepted text at a boundary gives two accepted texts |
| Utf8.ValidDrop | src/text.c:205-208 | what follows an accepted prefix of an accepted text is accepted |
| Utf8.ValidSplice | src/text.c:93-112 | replacing between two boundaries by accepted bytes keeps the text accepted |
| Utf8.BoundaryAfterSplice | src/text.c:86 | a boundary that a splice does not delete is, shifted, a boundary afterwards |
| Utf8.BoundaryNear | src/text.c:72 | of any four neighbouring offsets of a valid text one is a boundary, so backing off never reaches 0 |
| Utf8.NextBoundary | src/text.c:134 | the offset after a decoded code point is the next boundary |
| Utf8.BoundaryIsPrefix | src/text.c:86 | the boundaries of a valid text are the offsets before which valid text stands |
| Utf8.CharsAreScalars | src/text.c:151-164 | the code points counted in a valid text are its decoded scalar values |
| Utf8.MatchOnBoundaries | src/text.c:86 | an occurrence of valid UTF-8 in valid UTF-8 starts and ends on boundaries |
| PieceTree.SumsCorrect | src/text.c:29-35 | the cached byte, newline and code-point sums count the in-order text, and that text is valid UTF-8 |
| PieceTree.MergeFlat | src/text.c:46-51 | merging concatenates the two texts |
| PieceTree.MergeKeeps | src/text.c:46-51 | merging keeps heap order and every piece's bounds, length cap, counts and UTF-8 alignment |
| PieceTree.SplitFlat | src/text.c:52-65 | splitting at any offset gives a first tree of that many bytes and loses nothing |
| PieceTree.SplitCorrect | src/text.c:52-65 | splitting at a boundary cuts the text there and gives two well-formed treaps |
| PieceTree.SplitSpans | src/text.c:52-65 | the pieces of both halves are in bounds, of 1 to 4096 bytes and aligned |
| PieceTree.SplitHeap | src/text.c:52-65 | both halves are heap-ordered below the old root's priority |
| PieceTree.CutSpanOk | src/text.c:59-63 | a piece cut at a boundary of its bytes gives two proper pieces |
| PieceTree.AppendRightFlat | src/text.c:87-92 | a successful tail extension appends exactly the new bytes |
| PieceTree.AppendRightSpans | src/text.c:87-92 | the extended piece stays within 4096 bytes, in bounds and aligned |
| PieceTree.AppendRightHeap | src/text.c:87-92 | tail extension keeps heap order and the root |
| PieceTree.GrowKeeps | src/text.c:94-103 | growing the added store changes no existing piece's bytes |
| PieceTree.InsertCorrect | src/text.c:93-108 | insertion splices the text and keeps the treap well formed, whether the tail was extended or new pieces were made |
| PieceTree.DeleteCorrect | src/text.c:109-112 | deletion removes exactly the range and keeps the treap well formed |
| PieceTree.CopyParts | src/text.c:113-122 | a range of a node is the clamped ranges of its left text, own bytes and right text |
| PieceTree.BoundaryInside | src/text.c:86 | a boundary of one piece's bytes is a boundary of the whole text |
| TextStore.Piece.Update | src/text.c:29-35 | recomputes the sums of a node whose child or span changed |
| TextStore.Piece.Merged | src/text.c:46-51 | the in-place merge yields the specified merge and reuses exactly the given nodes |
| TextStore.Piece.ExtendRight | src/text.c:87-92 | the in-place tail extension yields the specified one, sums included |
| TextStore.Tally | src/text.c:43 | counts newlines and code-point starts |
| TextStore.Text.NewPiece | src/text.c:39-45 | a fresh single node with the right counts, whatever its priority |
| TextStore.Text.SplitAt | src/text.c:52-65 | the in-place split yields the specified two trees, in disjoint nodes |
| TextStore.Text.CutMiddle | src/text.c:59-63 | a piece cut in its middle becomes two nodes of the same priority |
| TextStore.Text.BackOff | src/text.c:72 | backing off from a cut inside a code point stops above 0, on a boundary |
| TextStore.Text.FirstPiece | src/text.c:69-73 | one turn takes a non-empty, aligned piece of at most 4096 bytes |
| TextStore.Text.MakePieces | src/text.c:67-76 | cutting a stretch into pieces gives a well-formed treap whose text is the stretch |
| TextStore.Text.constructor | src/text.c:77-81 | a new store holds exactly the given bytes |
| TextStore.Text.Length | src/text.c:83 | the length of the flat text |
| TextStore.Text.ByteAt | src/text.c:129-133 | the byte of the flat text, 0 past its end |
| TextStore.Text.Boundary | src/text.c:86 | true exactly on the boundaries of the flat text |
| TextStore.Text.Join | src/text.c:105-106 | rebuilds the tree with the last piece extended or a new one between the halves |
| TextStore.Text.Insert | src/text.c:93-108 | accepted exactly at a boundary with valid bytes; then the flat text is spliced, otherwise nothing changes |
| TextStore.Text.Delete | src/text.c:109-112 | accepted exactly for a range between boundaries; then the range is gone, otherwise nothing changes |
| TextStore.Text.LineCount | src/text.c:84 | one more than the number of newlines of the flat text |
| TextStore.Text.CharCount | src/text.c:85 | the number of code points of the flat text |
| TextStore.Text.PrefixMetric | src/text.c:151-163 | walking the sums counts the newlines or code points before an offset of the flat text |
| TextStore.Text.LineIndex | src/text.c:164 | the row of an offset |
| TextStore.Text.CharIndex | src/text.c:165 | the code-point index of an offset |
| TextStore.Text.LineOffset | src/text.c:136-150 | the start offset of a row, the end of the text past the last row |
| TextStore.Text.CharOffset | src/text.c:166-182 | the offset of a code-point index, clamped |
| TextStore.Text.Next | src/text.c:134 | the least boundary after an offset |
| TextStore.Text.Prev | src/text.c:135 | the greatest boundary before an offset |
| TextStore.Text.ValidText | src/text.c:93-112 | a store's flat text is valid UTF-8 in every state |
| TextStore.Text.CopyRange | src/text.c:113-122 | writes exactly the requested bytes of a subtree's text into the buffer and nothing else |
| TextStore.Text.Slice | src/text.c:123-128 | the clamped range of the flat text |
| History.RelocateKeepsBoundary | src/buffer.c:61-65 | a point or mark on a boundary is moved to a boundary of the edited text |
| History.RelocateTracks | src/buffer.c:61-65 | the text before a cursor in front of an edit and the text behind a cursor behind it stay the same; a cursor inside goes behind the inserted bytes |
| History.PushKeeps | src/buffer.c:71-83 | recording an edit drops the redo tail, keeps every earlier replayed text and adds the new one |
| History.PushCursors | src/buffer.c:77-82 | recorded points and marks stay boundaries of the texts they belong to |
| History.StatesIncrease | src/buffer.c:78 | state ids strictly increase along a history, so none occurs twice |
| History.PushSaved | src/buffer.c:71-83 | a new edit never makes the saved state id stand for another text |
| History.SaveSaved | src/buffer.c:178 | saving binds the current state id to the current text |
| History.TextAtValid | src/commands.c:121-138 | every text the history passes through is valid UTF-8 |
| History.RevertApplies | src/commands.c:126-130 | the deletion and insertion that revert a record are accepted and restore the text |
| History.GroupStart | src/commands.c:125-133 | the group that ends at a position: one group id, and it cannot be extended |
| History.GroupEnd | src/commands.c:125-133 | the group that starts at a position, likewise |
| History.Target | src/commands.c:121-138 | from a group edge, any number of undos or redos ends on a group edge |
| History.GroupRoundTrip | src/commands.c:125-133 | undoing a group and redoing it, or the reverse, returns to the same position |
| History.UndoRedoInverse | src/commands.c:121-138 | n successful undos are exactly reversed by n redos, and the reverse |
| Bytes.LineStartPrefix | src/syntax.c:63-68 | rows that start inside a common prefix start at the same offset |
| Lexer.Scan | src/syntax.c:18-62 | the scanning loop computes the specified end-of-line state, whose every step the laws below fix |
| Lexer.ScanToClose | src/syntax.c:23-31 | skips to just after the closer of a string or comment, or to the end of the line |
| Lexer.OpensLongest | src/syntax.c:34-42 | the longest comment or string opener of the language that stands at an offset decides the state; none stands there exactly when the state stays normal |
| Lexer.ClosesFirst | src/syntax.c:24-29 | a comment goes on to just after the first occurrence of its closing literal, a string to just after the first one that no backslash escapes; without one it goes on to the end of the line |
| Lexer.ScanCloses | src/syntax.c:23-31 | just after that place the scan goes on in the normal state |
| Lexer.ScanCarries | src/syntax.c:23-61 | a comment or string that does not end on the line is carried over, a plain string only when the line ends with a backslash |
| Lexer.ScanOpens | src/syntax.c:33-42 | in the normal state a line comment of the language ends the line, and otherwise the longest opener goes on behind itself in its state |
| Lexer.ScanSkips | src/syntax.c:43-59 | where nothing opens, one byte is skipped, or two of </ and {{ in markup |
| Lexer.RemarkHere | src/syntax.c:33-34 | a line comment starts exactly where # stands, in Python, Jinja and PHP, or //, in any language but Python |
| Lexer.ScanToken | src/syntax.c:43-58 | the end of the next ordinary token |
| Lexer.ScanIsDelimiters | src/syntax.c:18-62 | the carried state is that of a bare automaton of delimiters: numbers, words, tags and decorators never change it |
| Lexer.RowPrefix | src/syntax.c:63-78 | the state at a row depends only on the text before its start |
| Lexer.InvalidateSound | src/syntax.c:63-68 | keeping the entries up to the edited row, that row included, keeps only correct ones |
| Columns.CheckedSound | src/syntax.c:64-65 | a checkpoint not after the edit offset is still correct after the edit |
| Document.InvalidateKeeps | src/syntax.c:63-68 | after an accepted edit what invalidation leaves of all three caches equals recomputation on the new text |
| CacheRuns.FilledOk | src/syntax.c:69-78 | filling the state cache from its last valid entry gives what a full rescan gives |
| CacheRuns.NextOk | src/syntax.c:63-78 | every edit, reload, option change or query keeps all caches coherent |
| CacheRuns.RunCoherent | src/syntax.c:63-85 | after any interleaving every cached state equals a full rescan, and a column query and a column seek answer as if uncached |
| CacheRuns.NextColumn | src/buffer.c:204-211 | the checkpoint a column query leaves records the uncached column |
| CacheRuns.NextSeek | src/buffer.c:212-220 | the checkpoint a seek leaves records the uncached column of its answer |
| CacheRuns.SeekBelow | src/buffer.c:216 | a checkpoint a seek starts from is not beyond the seek's answer |
| Buffers.Buffer.LexInvalidate | src/syntax.c:63-68 | the specified invalidation of the three caches |
| Buffers.Buffer.StateAtLine | src/syntax.c:69-78 | the state at a row equals a full rescan, and the caches stay coherent |
| Buffers.Buffer.LineSpans | src/syntax.c:79-85 | scanning a row may extend the cache, which stays coherent; its end state is that of a full rescan |
| Buffers.Buffer.LineBytes | src/syntax.c:73-75 | the bytes of a row without its newline |
| Columns.ColumnsConcat | src/buffer.c:185-203 | the columns of a text continue where those of a valid prefix end |
| Columns.ColumnsSplit | src/buffer.c:185-203 | columns counted in two stretches cut at a boundary equal those of the whole |
| Columns.ColumnsMono | src/buffer.c:196-198 | columns never decrease along a line |
| Columns.ColumnAtStart | src/buffer.c:204-210 | a line starts at column 0 |
| Columns.ColumnLaw | src/buffer.c:191-198 | over a tab the column goes to the next tab stop, over any other code point it grows by what wcwidth says, or when that is negative by 2 for a control character and 1 otherwise |
| Columns.ChunkLength | src/buffer.c:189-190 | backs a chunk off to its last boundary, to 0 when it has none, for any end |
| Columns.ChunkProgress | src/buffer.c:189-190 | towards a boundary the chunk is never empty |
| Columns.ScanEnds | src/buffer.c:188-201 | the scan from a boundary reaches its end exactly when the end is a boundary; otherwise it stops moving before it |
| Columns.StalePoint | src/view.c:61-66 | a point that a deletion leaves inside a code point makes the scan turn for ever |
| Columns.ScanChunk | src/buffer.c:191-199 | the inner loop over one chunk continues the count and stops before the first code point that passes the target |
| Columns.ScanColumns | src/buffer.c:185-203 | the 4096-byte chunked scan equals the scan of the whole stretch |
| Columns.ResumeColumn | src/buffer.c:206-208 | resuming from a coherent checkpoint gives the uncached column |
| Columns.StopIsLast | src/buffer.c:212-220 | the seek stops at the last boundary of the row whose column is within the target |
| CacheRuns.ColumnResumed | src/buffer.c:204-211 | a column query with the cache equals the uncached one and leaves a coherent checkpoint |
| CacheRuns.SeekResumed | src/buffer.c:212-220 | a column seek from the cache counts the uncached column and leaves a coherent checkpoint |
| Buffers.Buffer.Column | src/buffer.c:204-211 | the uncached column, with the cache kept coherent |
| Buffers.Buffer.AtColumn | src/buffer.c:212-220 | the last boundary of the row within the target column, and its column |
| Diff.FindDiff | src/buffer.c:91-95 | the two scans find the longest common prefix and remaining suffix, rounded to code points |
| Diff.HeadOf | src/buffer.c:92-93 | the longest common prefix that ends on a code point of the new text |
| Diff.TailOf | src/buffer.c:94-95 | the longest common suffix of the rest that starts on a code point |
| Diff.DiffAccepted | src/buffer.c:88-98 | the minimal replacement always passes the boundary and validity checks and yields the new text |
| Document.EditedOk | src/buffer.c:66-86 | an accepted edit keeps the history replayable, the position on a group edge and the saved state truthful |
| Document.EditShows | src/buffer.c:66-86 | an effective edit splices the text and shows as a modification, whatever was saved; an empty one changes nothing |
| Document.EditCursors | src/buffer.c:61-82 | where an edit leaves point and mark, by the text on their side of it; where the edited range begins, point goes behind the new bytes and mark stays |
| Document.EditedAligned | src/buffer.c:77-82 | an accepted edit keeps point, mark and all recorded cursors on boundaries |
| Document.CleanMeansSaved | src/buffer.c:178 | an unmodified buffer shows the text of its last save |
| Document.NextOk | src/buffer.c:66-86 | every edit, undo, redo, save, cursor move, log reset or change of the read-only flag keeps the buffer invariant |
| Document.RunSound | src/buffer.c:66-86 | over every run: replaying history up to its position gives text and state, the position is on a group edge, a clean flag is truthful |
| Document.NextDoes | src/buffer.c:66-86 | what each step of a run does to text, saved text and cursors; a rejected step changes nothing |
| Document.ReadonlyKeeps | src/buffer.c:68 | over any run that leaves it read-only a buffer keeps text, state and history |
| Document.NextAligned | src/buffer.c:61-86 | one step that puts cursors only on boundaries keeps them there |
| Document.RunAligned | src/buffer.c:61-86 | over every run whose cursor moves land on boundaries, point and mark stay on boundaries |
| Buffers.Buffer.constructor | src/buffer.c:19-27 | a new buffer holds the given text, unmodified, with an empty history and empty caches |
| Buffers.Buffer.Replace | src/buffer.c:66-86 | accepted exactly under the stated checks; the whole new document, caches and counter are given, a refusal changes nothing |
| Buffers.Buffer.Swap | src/buffer.c:79-80 | invalidate, delete, insert: the text is spliced and the caches are coherent with it |
| Buffers.Buffer.Record | src/buffer.c:70-84 | an accepted replacement pushes its inverse record and settles every field |
| Buffers.Buffer.SetText | src/buffer.c:88-98 | succeeds exactly for valid text that is equal or replaceable, leaves the text equal to it, through the minimal replacement |
| Buffers.Buffer.MarkSaved | src/buffer.c:178 | saving makes the current state the saved one and changes nothing else |
| Editors.Editor.Replace | src/buffer.c:66-86 | replacing in the current buffer: accepted exactly when allowed, with the specified document; state ids come from the editor's counter |
| Search.Step | src/buffer.c:235 | one byte of the automaton: the longest matched prefix, at amortised cost |
| Search.FailureTable | src/buffer.c:228-229 | the failure table holds the longest proper borders and takes fewer failure moves than the needle has bytes |
| Search.ScanChunk | src/buffer.c:232-239 | the automaton state carried across a chunk end is that of the whole window |
| Search.Find | src/buffer.c:225-241 | forward the least match at or after start, backward the greatest ending at or before it, none exactly when there is none; failure moves at most the needle's length and the bytes read |
| Search.EndsWithin | src/buffer.c:228-235 | a shorter prefix ends where a longer one does exactly when it is a border of it |
| Search.AfterMatch | src/buffer.c:236 | after a match the automaton rightly goes on from the longest border |
| Search.ReportOnBoundaries | src/buffer.c:225-241 | a match of a valid needle in a valid text has both ends on boundaries |
| Document.LoggedOk | src/python.c:103-112 | replacing a diagnostic buffer's text starts a sound history and a truthful clean flag |
| Buffers.Buffer.ResetLog | src/python.c:103-112 | accepted exactly for valid text; then text, history, stamps and caches are as for a fresh diagnostic buffer |
| Buffers.Buffer.SetTabWidth | src/python.c:66-79 | changing the tab width drops both checkpoints and nothing else, so the caches stay coherent |
| Buffers.Buffer.SetSyntax | src/python.c:80-86 | a mode change drops all cached states and nothing else, so the cache stays coherent |
| Buffers.Buffer.SetReadonly | src/python.c:75 | changes the flag and nothing else |
| Document.MovedOn | src/commands.c:121-138 | moving through records in two parts is moving through them at once |
| Document.UndoneOk | src/commands.c:121-138 | undo and redo by any count keep the buffer invariant and boundary cursors |
| Document.UndoThenRedo | src/commands.c:121-138 | a successful undo(n) then redo(n), or the reverse, restores text, state, history and position |
| Document.EditUndone | src/commands.c:121-138 | after an edit in a group of its own, one undo gives back text, state, point and mark, one redo those right after the edit |
| Document.GroupUndone | src/commands.c:121-138 | after any number of edits in one group, with cursors moved freely between them, one undo gives back text, state and cursors from before the first, one redo those from after the last |
| Document.UndoneShort | src/commands.c:121-138 | undo and redo that find too few groups stop at the end of the history and leave the region active |
| Buffers.RecordReversible | src/commands.c:126-130 | the deletion and insertion inside undo are always accepted and lead to the neighbouring replayed text |
| Buffers.Buffer.UndoRecord | src/commands.c:126-133 | reverts or reapplies one record: text, state id, position, and the recorded point and mark |
| Buffers.Buffer.UndoGroup | src/commands.c:125-133 | the inner loop moves exactly to the other edge of the group |
| Buffers.Buffer.UndoGroups | src/commands.c:124-134 | the outer loop moves by whole groups and stops where the history ends |
| Buffers.Buffer.Undo | src/commands.c:121-138 | undo and redo with any count, negative ones included, compute the specified document |
| Kill.PushKill | src/commands.c:96-107 | the ring is never empty afterwards and never holds more than its limit |
| Kill.NewestFirst | src/commands.c:96-106 | after any kills that start entries the ring holds the newest ones, newest first, and behind them the older entries in their order, 60 in all |
| Kill.AppendsInOrder | src/commands.c:97-101 | a kill that extends the newest entry joins the texts in buffer order and leaves the older entries alone |
| Kill.FreshKill | src/commands.c:96-115 | after a kill that starts an entry, putting the entry back at point restores the text |
| Kill.AppendedKill | src/commands.c:96-115 | a kill that extends the newest entry keeps what putting it back restores |
| Kill.KillRunRestores | src/commands.c:108-115 | after any run of kills, yanking restores the text exactly when the first kill removed something or there was no older entry or it was empty |
| Kill.KillExample | src/commands.c:218-233 | killing the empty rest of a line and then a word backwards: yanking does not restore the text |
| Kill.KillRunYankable | src/commands.c:108-115 | after any run of kills between boundaries point is a boundary and every entry is valid, so a yank is accepted |
| Kill.RotateIsModulo | src/commands.c:238 | the truncating remainder and its correction select the entry modulo the ring size, for negative counts too |
| Kill.InsertHolds | src/commands.c:240-243 | a yank leaves the selected entry at yank_start in the old text, with mark before it and point behind it |
| Kill.PopHolds | src/commands.c:236-243 | a yank-pop replaces the yanked entry by the one count places further |
| Kill.PopsSelect | src/commands.c:234-243 | k yank-pops after a yank leave the entry selected by the sum of all counts |
| Modulo.WrapIsModulo | src/commands.c:238 | the truncating remainder corrected by one ring size is the mathematical modulo |
| Editors.Editor.PushKill | src/commands.c:96-107 | the ring after a kill, newest entry first |
| Editors.Editor.KillTo | src/commands.c:108-115 | a kill command computes the specified document and ring, appending exactly after another kill |
| Editors.Editor.InsertEntry | src/commands.c:241-243 | inserts the selected entry at point and remembers where it stands |
| Editors.YankSelects | src/commands.c:240 | a positive count k selects the k-th newest entry, going round the ring; any other count, or none, the newest |
| Editors.Editor.DoYank | src/commands.c:234-244 | yank with or without a count; it cannot fail on a writable buffer with point on a boundary |
| Editors.Editor.DoYankPop | src/commands.c:234-244 | yank-pop only after a yank, replacing the yanked text; it cannot fail when that text is still there, and changes no document when its range no longer fits |
| Query.FirstFromReports | src/commands.c:146-151 | the least match from an offset on meets the search contract |
| Query.ReportsUnique | src/commands.c:146-151 | the search contract determines the result |
| Query.QueryNext | src/commands.c:146-151 | asks about a match at or after point, with point after it and the text unchanged |
| Query.ReplaceOne | src/commands.c:420 | one accepted replacement: the text after point shrinks whenever another match is asked about |
| Query.AcceptTracks | src/commands.c:418-421 | accepting settles the text up to the inserted bytes, which are never searched again |
| Query.RefuseTracks | src/commands.c:422 | refusing settles the text up to the end of the match |
| Query.RestRebuilds | src/commands.c:418-421 | the loop of ! replaces every remaining match |
| Query.RestEnds | src/commands.c:418-421 | the loop of ! ends with nothing left to ask |
| Query.AnswersRebuild | src/commands.c:416-423 | from any point of the dialogue, the remaining answers decide the remaining matches |
| Query.QueryReplaceCorrect | src/commands.c:416-423 | for every answer sequence the final text is the original with exactly the accepted leftmost non-overlapping matches replaced |
| Query.KeyDecides | src/commands.c:416-423 | the k-th key decides the k-th match; ! accepts it and all later ones, q none from there on |
| Query.RefusedKeeps | src/commands.c:422 | refusing every match leaves the text as it is |
| Editors.Editor.QueryNext | src/commands.c:146-151 | asks about the first match at or after point, with mark before it, point behind it and the region active; without a match nothing but the prompt changes |
| Editors.Editor.AcceptOne | src/commands.c:418-421 | answer y: a new undo group, exactly one recorded replacement, the next match; a read-only buffer ends the dialogue unchanged |
| Editors.Editor.AcceptAll | src/commands.c:418-421 | answer !: the loop terminates with every remaining match replaced |
| Editors.Editor.QueryKey | src/commands.c:416-423 | each key changes text, point and pending match as the dialogue specifies; n leaves text and history alone, q only ends the dialogue and the region |
| FileFormat.Load | src/buffer.c:126-135 | rejects exactly what is not valid UTF-8 after the BOM; otherwise strips carriage returns exactly for uniform CRLF |
| FileFormat.Detect | src/buffer.c:128-130 | true exactly when every newline follows a carriage return and there is one |
| FileFormat.StripInPlace | src/buffer.c:130-130 | the in-place compaction drops exactly the carriage returns before newlines |
| FileFormat.StripValid | src/buffer.c:130-130 | stripping keeps the text valid UTF-8 |
| FileFormat.AddAfterStrip | src/buffer.c:130-130 | adding carriage returns back restores a uniform CRLF text, runs like CR CR LF included |
| FileFormat.LoadSaveRoundTrip | src/buffer.c:126-135 | for every accepted byte string, saving the unedited file writes the same bytes |
| FileFormat.StripAfterAdd | src/buffer.c:130-130 | carriage returns added before newlines are stripped again, for every text |
| FileFormat.SaveLoadRoundTrip | src/buffer.c:126-162 | loading a saved text gives it back exactly when the file has its own byte-order mark or the text begins with none, and it is written with CRLF or its newlines are not all CRLF |
| FileFormat.SaveLoadExample | src/buffer.c:126-162 | a text that begins with a byte-order mark, saved without one of its own |
| FileFormat.Write | src/buffer.c:161-162 | writes the BOM if there was one and the text with its line endings as far as the medium takes them, and fails exactly when it does not take all |
| FileFormat.OpenAndSave | src/buffer.c:113-162 | loading, building the piece tree and writing it back to a medium with room reproduces every accepted file; without, the save fails |
| FileFormat.WritePiece | src/text.c:183-190 | the recursive writer emits the in-order text, with a carriage return before each newline when asked, up to the first failing write |
| FileFormat.WriteData | src/text.c:186-188 | a node's own bytes, likewise |
| Json.PutUnit | src/main.c:73 | a code unit becomes \u and four hexadecimal digits |
| Json.PutEscapes | src/main.c:69-73 | a scalar becomes its one or two UTF-16 code units, escaped |
| Json.PutOne | src/main.c:67-74 | one turn of the loop extends the output by one code point and stays within the buffer |
| Json.StrictJsonAscii | src/main.c:62-76 | the buffer-filling loop computes the specified normalisation |
| Json.NormaliseAscii | src/main.c:62-76 | the output is plain ASCII of at most three times the length |
| Json.NormaliseConcat | src/main.c:67-74 | normalising a valid prefix and the rest separately gives the same output |
| Json.UnescapeUnits | src/main.c:71-73 | strictly unescaping written escapes gives the code units back, surrogate pairs included |
| Json.HexKept | src/main.c:67-74 | normalising never completes or destroys a \uXXXX escape of the input |
| Json.NormaliseMeaning | src/main.c:62-76 | reading the output strictly is reading the input with a backslash allowed before raw non-ASCII |
| Json.StrayReadings | src/main.c:62-76 | well-formed bodies have no such backslash, and without one both readings agree |
| Json.NormaliseKeepsMeaning | src/main.c:62-76 | the meaning is kept exactly when no backslash escapes a raw non-ASCII character or the body is malformed anyway; always for well-formed bodies |
| Json.Utf16Read | src/main.c:69-72 | the code units written for a scalar value are read as that value, surrogate pairs high before low |
| Json.EscapeForm | src/main.c:73 | an escape is a backslash, u and four lower-case hexadecimal digits, the most significant first |
| Json.NormaliseKeepsScalars | src/main.c:62-76 | every well-formed body and its normalised form say the same scalar values, those of the text itself when it has no escapes |
| Json.StrayExample | src/main.c:62-76 | a malformed body that normalising makes well formed: a backslash before U+00E9 |
| Framing.SplitJoins | src/main.c:136 | splitting a stream at newlines loses nothing and leaves newline-free lines |
| Framing.LinesConcat | src/main.c:136 | the lines of a stream do not depend on how it is cut |
| Framing.LinesUnique | src/main.c:136 | newline-free lines and remainder are recovered exactly from their joined bytes |
| Framing.FirstLine | src/main.c:136 | taking the bytes before the first newline takes the first line |
| Framing.FindNewline | src/main.c:136 | the offset of the first newline |
| Request.CString | src/main.c:92 | what strlen leaves of a line: the part before its first NUL |
| Request.CStringWhole | src/main.c:92 | exactly the lines without a NUL byte are kept whole |
| Request.NulDiffers | src/main.c:77-92 | a line with a NUL byte never reaches the editor from the server; the two backends differ exactly when its part before the NUL is valid UTF-8 |
| Request.NulExample | src/main.c:77-92 | such a line |
| Request.Parse | src/main.c:77-87 | malformed UTF-8 and NUL bytes are refused without the editor, other lines reach it normalised |
| Request.ReachedAscii | src/main.c:77-87 | every request that reaches the editor is plain ASCII |
| Server.BadLineRefused | src/main.c:77-87 | in every run of the server a line with a NUL byte or malformed UTF-8 is refused and leaves the editor as it was |
| Transport.BackendStdio | src/main.c:88-97 | for every cutting of input and output: the requests executed are the lines received in order, none after the editor has quit, the output is their replies in order and complete unless a write fails, and all lines before the first one of a frame or more are executed |
| Transport.RepliesAt | src/main.c:77-96 | the k-th reply is the editor's answer to the k-th request after the valid ones before it, or the refusal of malformed UTF-8 |
| Server.RequestsPrefix | src/main.c:136 | a connection's requests among the first k executed are a prefix of its requests |
| Server.SequentialSnoc | src/main.c:136 | each reply is the editor's answer after all requests executed before |
| Server.Received | src/main.c:133-135 | bytes that arrive continue the pending line |
| Server.Served | src/main.c:136 | executing the first buffered line and queueing its reply keeps order and conserves bytes |
| Server.Refused | src/main.c:136 | a request whose reply did not fit was still executed in order |
| Server.Sent | src/main.c:138-140 | a partial write moves bytes from the queue to the written ones |
| Server.ClientReads | src/main.c:136-140 | a client reads exactly the replies to its requests, in order, none missing while it is connected |
| Server.PlaceInOrder | src/main.c:136 | the k-th executed request, the j-th of its connection, is the j-th line that connection sent, and its reply is the editor's answer to it after the k requests before it |
| Server.OthersKeep | src/main.c:136 | executing a request of one peer leaves every other connection's state intact |
| Server.WorldReceives | src/main.c:131-135 | receiving on one slot keeps the whole table sound |
| Server.WorldServes | src/main.c:136 | serving one line keeps the whole table sound |
| Server.WorldRefuses | src/main.c:136 | closing on a full queue keeps the whole table sound |
| Server.WorldWrites | src/main.c:138-140 | writing on one slot keeps the whole table sound |
| Server.WorldAccepts | src/main.c:121-126 | a new connection takes a free slot and starts with nothing received or written |
| Server.WorldCloses | src/main.c:99 | closing a slot keeps the record of its connection truthful |
| Server.Backend.Queue | src/main.c:100-105 | refuses exactly when more than four frames would wait; otherwise appends the reply after the unsent bytes |
| Server.Backend.Drain | src/main.c:136 | executes the complete buffered lines of one peer, in order, and nothing of another: all of them, or up to the first whose reply does not fit, which closes the connection |
| Server.Backend.Read | src/main.c:130-137 | closes at end of stream, on a hard error or beyond one frame; otherwise records the bytes and executes the complete lines |
| Server.Backend.WriteOut | src/main.c:138-142 | writes a prefix of the queue, frees an empty one, closes on a hard error |
| Server.Backend.Accept | src/main.c:121-126 | a trusted client takes the first free slot, if any |
| Server.Backend.Turn | src/main.c:128-144 | what one turn does to its connection, and to no other: bytes received, requests executed, bytes written and whether it stays open |
| Server.DueIsQueued | src/main.c:98-105 | what an open connection is still owed is exactly what its queue holds, at most four frames |
| Server.Overflows | src/main.c:100-105 | a reply that does not fit leaves more than four frames due, though all before it fitted |
| Server.FinishedTurn | src/main.c:128-144 | a turn that reads and writes: received grows by what arrived, written by the first n bytes owed |
| Server.ProgressStep | src/main.c:127-144 | a turn leaves the effects of the earlier turns and the state of the later slots as they are |
| Server.ProgressEnds | src/main.c:116-145 | the turns of all slots together are one iteration |
| Server.Backend.Poll | src/main.c:116-145 | one iteration of the loop, for every slot: each connection open before it receives, is answered, written to and closed as poll reported, slot by slot; a trusted client gets the first free slot; every other record stays |
| Server.Backend.Serve | src/main.c:116-145 | every run is a sequence of such iterations through sound tables; it ends in the first state in which the editor has quit and every open connection was sent every reply, and in no other |
| Server.RunGrows | src/main.c:116-145 | over a run nothing executed, received or written is taken back |
| Server.DoneIs | src/main.c:118-119 | the loop ends exactly when the editor has quit and nothing is owed to an open connection |
| Transport.ProtocolWrite | src/transport.c:21 | writes everything, or on failure a proper prefix; it fails only when a call of write does |
| Transport.Connection.Reserve | src/transport.c:26 | growing the buffer keeps its contents, never exceeds a frame and one byte, and leaves room for at least one byte |
| Transport.Connection.Consume | src/transport.c:24 | shifting the rest of the buffer to its front |
| Transport.Connection.ReadLine | src/transport.c:22-29 | however the stream is cut, no byte is lost or reordered; the outcome is given for every stream, for a line of exactly one frame by how far the buffer fills |
| Transport.Connection.Receive | src/transport.c:26-27 | one read appends to what is buffered, and reports the end only when nothing is left |
| Transport.FillsExactly | src/transport.c:26-27 | reads that fill the buffer double it to exactly one frame |
| Transport.FillsBeyond | src/transport.c:26-27 | reads of 4095 bytes fill it beyond the frame |
| Transport.ExactFrame | src/transport.c:22-29 | the same line of one frame refused under one cutting and delivered under another |
| Transport.Waiting | src/transport.c:25-27 | without a newline in the buffer the next line is at least as long as what is buffered |
| BufferTable.CreatedOk | src/buffer.c:20-27 | a new buffer gets an id never used before and keeps the table consistent |
| BufferTable.SwitchedOk | src/buffer.c:17-19 | switching to a live buffer makes it current and shown in the active pane |
| BufferTable.DroppedOk | src/buffer.c:44-53 | killing a buffer retires its id, keeps every other buffer live and keeps the current one if it was another |
| BufferTable.DroppedBuffers | src/buffer.c:51 | killing one of several buffers leaves all others as they were, in the same order |
| BufferTable.DroppedPanes | src/buffer.c:46-50 | panes on the killed buffer show the first remaining one, all others are untouched |
| BufferTable.StartOk | src/buffer.c:28-36 | the initial table is consistent |
| BufferTable.RunKeeps | src/buffer.c:17-53 | over every run ids stay distinct, at least one buffer is live, panes name live buffers, the active pane names the current one, and retired ids never return |
| BufferTable.Table.constructor | src/buffer.c:28-36 | the initial table |
| BufferTable.Table.Switch | src/buffer.c:17-19 | computes the specified switch, nothing for an unknown buffer |
| BufferTable.Table.NewBuffer | src/buffer.c:20-27 | refuses exactly when 256 buffers are open |
| BufferTable.Table.RedirectPanes | src/buffer.c:50 | the loop over panes redirects exactly those showing the killed buffer |
| BufferTable.Table.Drop | src/buffer.c:44-53 | computes the specified table, making a scratch buffer when the last one goes |
| BufferTable.Around | src/commands.c:305 | the place count further round a ring, modulo its size, for negative counts too |
| BufferTable.StepKeeps | src/commands.c:299-331 | each command keeps the table consistent |
| BufferTable.StepEffect | src/commands.c:299-331 | where every command ends up, and that it changes nothing else: which buffer is current, which panes show what, which buffers exist |
| BufferTable.ChooseEffect | src/commands.c:299-304 | switch-to-buffer ends on the first buffer of the name, on the next one for an empty name, or on a new empty one of that name |
| BufferTable.GoneEffect | src/buffer.c:44-53 | what killing a buffer leaves: the other buffers, the current one, and what every pane shows |
| BufferTable.CloseEffect | src/commands.c:327-331 | delete-window leaves the other panes in order and goes to the next one, the first after the last |
| BufferTable.OtherWindowOk | src/commands.c:322-325 | going to another window keeps the table consistent |
| BufferTable.SplitOk | src/commands.c:318-326 | splitting and keeping a single window keep the table consistent |
| BufferTable.ClosedOk | src/commands.c:327-331 | deleting a window keeps the table consistent |
| BufferTable.CycleBack | src/commands.c:305 | going back in the ring of buffers undoes going forward |
| BufferTable.OtherBack | src/commands.c:322-325 | going to another window and back restores window, buffer and a point inside the buffer |
| BufferTable.Table.SwitchByName | src/commands.c:299-304 | computes the specified choice, creating a buffer for an unknown name |
| BufferTable.Table.KillByName | src/commands.c:306-312 | kills the last buffer of that name, or asks first when it is modified |
| BufferTable.Table.GoToOther | src/commands.c:322-325 | computes the specified window, buffer and clamped point |
| BufferTable.Table.SplitActive | src/commands.c:318-321 | computes the specified panes, refusing a ninth |
| BufferTable.Table.CloseActive | src/commands.c:327-331 | computes the specified panes, refusing to delete the only one |
| BufferTable.Table.Dispatch | src/commands.c:299-331 | each command computes its specified table |
| Palette.BlackOnWhite | src/term_style.c:24-27 | black and white have contrast 21 |
| Palette.Primaries | src/term_style.c:20-23 | the weights of red, green and blue |
| Palette.ContrastLaw | src/term_style.c:24-27 | the lighter colour is, with 0.05 added to both, contrast times as light as the darker one; contrast is at least 1 |
| Palette.Mix | src/term_style.c:31-32 | a blended component lies between its ends and reaches them at 0 and 255 |
| Palette.BlendColours | src/term_style.c:28-35 | each component is the integer nearest to the exact point between the two ends |
| Palette.BlendIsNearest | src/term_style.c:31-32 | the nearest colour is unique and is the one the blend computes |
| Palette.FirstGood | src/term_style.c:39-43 | the first blend with the wanted contrast, or the target when there is none |
| Palette.ReachesTarget | src/term_style.c:39-43 | the blend reaches its target, so a good target makes the search succeed |
| Palette.ContrastText | src/term_style.c:36-44 | a readable colour is kept, another is moved as little as needed |
| Palette.TextReadable | src/term_style.c:36-44 | on a readable background the text has contrast 7 |
| Palette.ContrastBackground | src/term_style.c:45-55 | the least blend towards black or white whose contrast with the opposite extreme is 7.5 |
| Palette.BackgroundFound | src/term_style.c:48-54 | some blend always reaches contrast 7.5, so the return after the loop is never reached |
| Palette.BackgroundSide | src/term_style.c:45-55 | a background of luminance below 0.18 gets no lighter and carries white text, any other gets no darker and carries black |
| Palette.ExtremeIsBest | src/term_style.c:38 | changed text moves towards whichever of black and white has the greater contrast |
| Palette.Quantize | src/term_style.c:64-76 | the nearest feasible slot, the first of several |
| Palette.TableLaw | src/term_style.c:6-15 | the colour cube and the grey ramp by the levels of the terminal table |
| Palette.DistanceLaw | src/term_style.c:56-63 | the sum of the squared differences of the components, zero for equal colours only |
| Palette.NearestUnique | src/term_style.c:64-76 | the chosen slot is determined |
| Palette.SlotExists | src/term_style.c:66-74 | a feasible background slot exists, and a feasible text slot on each of them |
| Palette.MakeFace | src/term_style.c:107-121 | one face of the palette |
| Palette.Sources | src/term_style.c:109-114 | which source colours each face takes |
| Palette.FaceReadable | src/term_style.c:103-123 | for every palette: RGB contrast 7 on every face, on the cursor's under a curve like that of sRGB, indexed contrast 7 on every face, slots 16 to 255 |
| Palette.CursorReadable | src/term_style.c:115-118 | the cursor's fixed pair has contrast 7 under every curve between the cube and the identity |
| Palette.TermPalette.Update | src/term_style.c:103-123 | the cached faces are those of the last source colours; the same colours again change nothing |

## Left out

- Capacity bookkeeping of growing arrays other than the line reader's and a peer's input buffer (the added store, history, lexical states): out-of-memory aborts and `size_t` wrap-around are not modelled.
- `text_free`, `destroy`, `text_check` and all other freeing: memory is not reclaimed in the model.
- Balance and expected cost of the treap.
- The spans and keyword styles that `scan` produces, and `visible_line`: presentation.
- Hooks and plugins: modelled as absent; `py_log`, the tab-width option and mode changes are kept as steps.
- How word, line and region commands compute the other end of a kill, and copying without killing: the other end is a parameter.
- File-system steps of saving (temporary file, permissions, external-change checks, rename): only the bytes written and the saved state.
- isearch, the prompt's editing keys, completion, macros, key tables and the dispatch of protocol operations.
- Point on a boundary across pane switching, case commands and protocol cursor moves: the code does not re-check there, so it is an assumption on cursor moves in `Document.RunAligned` and a premise of the commands that need it.
- BufferTable.Table.Dispatch: buffers carry an id, name, size, point and modified flag; their texts are in `Buffer.dfy`, and the two are not joined into one object.
- Server.Backend.Serve: signals and failures of `poll` itself are not modelled; a run is the list of what `poll` returned.
- Palette.FaceReadable: rounding of floating-point numbers is not modelled.
- Lexer.Scan: spans and keyword styles are left out; bytes from 128 on are not letters or digits for `isalpha` and `isalnum`, as in UTF-8 locales.
- Buffers.Buffer.LineSpans: the spans it returns are left out, only the carried state and the cache are modelled.
- Columns.ScanColumns: the end is required to be a boundary, because the source's loop ends exactly there (`Columns.ScanEnds`) and a method must end.
- Buffers.Buffer.Column: the offset is required to be a boundary, for the same reason.
- Writing escape sequences, colour-mode negotiation, the X11 frontend, sockets, processes and the command line.
