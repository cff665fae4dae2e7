# corehost: a verified model

corehost is a headless console host. This project models its screen, its terminal semantics, its VT
parser and printer, its line editor, its request loop and its input plumbing in Dafny 4.11, and proves
what they promise. `dafny verify dfyconfig.toml` checks all of it.

## How it is built

- **Rows.** `Cells` is the abstract row: one cell per column, each knowing its glyph, its place in it and
  its attribute, and one operation, `Splice`, that is the meaning of every write. `Encoding` says when text,
  offsets and trailing bits store such a row, and `RunLayouts` how they store a measured run.
  `ScreenRows.ScreenRow` is the row with all its representations (filled, single-width, column map; uniform and
  per-column attributes) and all its writers, each proved against `Splice`. `RowCopy` and `CharInfos` add copying
  and CHAR_INFO.
- **Screen.** `Scrolling`, `Resizing` and `LinearText` specify what happens to a screen of rows;
  `RowStores.RowStore` owns the row objects, one `ScreenRow` each, and `ScreenBuffers.ScreenBuffer` is the ring
  over them that implements what is specified.
- **Terminal.** `Terminals` is the terminal one code point at a time, with delayed wrap and scroll region;
  `TextRows` and `TerminalSessions.Session` are the form that works a row at a time. `CursorOnlyText`,
  `ScrollRegions` and `RowEdits` cover the cursor-only path, line moves and column edits.
- **VT.** `SgrPayloads`, `VtMessages`, `VtDispatch` and `VtParsers` are the parser of ECMA-48 control sequences
  (section 5.4 of ECMA-48) and OSC strings, one step per code point, and the class that parses ranges;
  `VtMeanings` says byte for byte what every sequence is delivered as; `VtPrinters` is the printer.
  `OutputStreams` joins parser and terminal.
- **Line editor.** `Histories`, `HostTerminals` (the terminal in front of the editor) and `LineEditors`.
- **Requests and input.** `IoLoops`, `ReaderQueues` and `Utf8`.

The main results: every row writer from every representation has one meaning; all scroll paths obey one
pointwise law; every cell is known after a code point, a line feed, a line or column edit and a resize; every
sequence is delivered as what it means; text, escape sequences and CR LF may be cut into writes anywhere
without changing the screen; print then parse is the identity exactly where stated; after any editing keys the
terminal shows the line, and the keys undo each other; no request is completed twice, no live buffer is read
into and a deferred read gets its turn; bytes and UTF-8 characters pass through in order.

## Where the code does less than one would expect

Each of these has a lemma, the last but one a method contract, with the exact condition.

- Growing and shrinking a buffer does not restore a row whose wide glyph has two attributes
  (`Resizing.GrowShrinkOnlyLevel`).
- The cursor-only path drops a text, of any length, whose first code point has no room
  (`CursorOnlyText.CursorOnlyExact`).
- RI, CUD, CUF and CNL can take the cursor out of the viewport (`ScrollRegions.ReverseIndexStays`,
  `ScrollRegions.CursorMoveStays`).
- A reset parser is not a new one after a broken ESC ( (`VtParsers.ResetIsFresh`).
- ANSI cursor save and restore, line feed, soft reset, 0 as a 1-based payload and control characters that end a
  title do not survive printing and parsing (`VtPrinters.RoundTrip`); printed text comes back under the id of a text run
  (`VtPrinters.TextComesBackAsRun`). SGR comes back with a reset in front
  (`SgrPayloads.OnlyResetAdded`), and with more than sixteen parameters not at all (`VtPrinters.SgrReadBack`).
- When the insertion point would stand behind the last column, the cursor stays on it, and Backspace then deletes the
  wrong column, of the line or of the prompt (`LineEditors.TypingFits`, `LineEditors.BackspaceOnFullRow`).
- A waiting read that arrives right after terminal input has finished the held one, in the same turn, is dispatched
  before an older deferred one (`IoLoops.IoLoop.Handle`, `IoLoops.IoLoop.Turn`).
- A wide code point in the last column of a buffer 32767 columns wide makes a linear write lose the text behind it
  (`LinearText.WrittenIsLaid`).

## Model

| member | source | states |
|---|---|---|
| Cells.SpliceOk | libcorehost/screen_buffer_row.hpp:235-302 | A write of whole glyphs leaves the row a partition of its columns into whole glyphs |
| Cells.SpliceCompose | libcorehost/screen_buffer_row.hpp:486-564 | Writing one run and then another right behind it equals writing both as one run: a row write may be cut at any glyph edge |
| Cells.SpliceAligned | libcorehost/screen_buffer_row.hpp:279-341 | Between glyph edges a write replaces exactly its columns and cuts nothing |
| Cells.SpliceByBlanking | libcorehost/screen_buffer_row.hpp:279-341 | Blanking the glyphs cut by the two ends of a write and then replacing whole glyphs is the write: the two-step form of the code has the one-step meaning |
| Cells.RunIsGlyphByGlyph | libcorehost/screen_buffer_row.hpp:486-564 | A measured run written as a whole equals its n glyphs written one after another |
| Encoding.EncodingUnique | libcorehost/screen_buffer_row.hpp:65-93 | Text, offsets and trailing bits determine the glyph, its place and its width in every column: two rows stored alike show the same glyphs |
| Encoding.OffsetsMonotone | libcorehost/screen_buffer_row.hpp:65-93 | Offsets never decrease along the row, and the sentinel offset is the length of the text |
| Encoding.SingleCodepointOffsets | libcorehost/screen_buffer_row.hpp:65-70 | Every offset of a row of single-codepoint glyphs with up to 32767 columns, the sentinel included, fits the 15 offset bits |
| Encoding.SpliceDemand | libcorehost/screen_buffer_row.hpp:279-341 | A write of any glyphs needs no more offset space than the old row and the new run together, less the columns it covers; so a run of single code points fits wherever the row fitted |
| Encoding.ReplacedEncodes | libcorehost/screen_buffer_row.hpp:304-341 | Replacing the text between two glyph edges and shifting the offsets behind it stores the replaced row |
| ScreenRows.ScreenRow.constructor | libcorehost/screen_buffer_row.hpp:97-101 | A new row shows spaces in one attribute in every column |
| ScreenRows.ScreenRow.ResetFill | libcorehost/screen_buffer_row.hpp:103-116 | The row shows the given character and attribute in every column, whatever it held |
| ScreenRows.ScreenRow.GlyphAt | libcorehost/screen_buffer_row.hpp:149-172 | The glyph of the column, from its trailing columns too, in every representation; nothing outside the row |
| ScreenRows.ScreenRow.GlyphWidth | libcorehost/screen_buffer_row.hpp:174-190 | The width of the glyph that starts in the column, 0 in trailing columns and outside the row |
| ScreenRows.ScreenRow.AttrAtIs | libcorehost/screen_buffer_row.hpp:192-200 | The attribute read from either attribute representation is the attribute of the column |
| ScreenRows.ScreenRow.ReadsCells | libcorehost/screen_buffer_row.hpp:126-147 | The stored offset and trailing bit read from each representation are those of the abstract row |
| ScreenRows.ScreenRow.SpanLead | libcorehost/screen_buffer_row.hpp:761-774 | The leftward search from a trailing column ends at the first column of its glyph |
| ScreenRows.ScreenRow.SpanEnd | libcorehost/screen_buffer_row.hpp:774-778 | The rightward search ends behind the last column of the glyph |
| ScreenRows.ScreenRow.MaterializeFilled | libcorehost/screen_buffer_row.hpp:704-717 | Leaving the filled representation changes nothing that is shown |
| ScreenRows.ScreenRow.MaterializeColumnsFromSingleWidthLayout | libcorehost/screen_buffer_row.hpp:719-729 | Leaving the single-width representation changes nothing that is shown |
| ScreenRows.ScreenRow.MaterializeAttrs | libcorehost/screen_buffer_row.hpp:731-738 | Leaving the uniform attribute changes nothing that is shown |
| ScreenRows.ScreenRow.SetAttr | libcorehost/screen_buffer_row.hpp:202-210 | One column takes the attribute, every glyph and every other attribute stays |
| ScreenRows.ScreenRow.FillAttrs | libcorehost/screen_buffer_row.hpp:212-231 | The columns of the range, cut at the right edge, take the attribute; nothing else changes |
| ScreenRows.ScreenRow.WriteAttrRange | libcorehost/screen_buffer_row.hpp:740-759 | The same for the attributes of a write |
| ScreenRows.ScreenRow.ShiftColumnsFrom | libcorehost/screen_buffer_row.hpp:784-794 | Offsets from a column on, sentinel included, move by the length difference and keep their trailing bits |
| ScreenRows.ScreenRow.BlankGlyphCutAt | libcorehost/screen_buffer_row.hpp:761-782 | A wide glyph cut at a column becomes one space per column with its attributes kept; the column is then a glyph edge; nothing else changes |
| ScreenRows.ScreenRow.WriteGlyph | libcorehost/screen_buffer_row.hpp:277-341 | From every representation: the glyph takes its columns, cut at the right edge, glyphs partly covered become spaces, nothing else changes |
| ScreenRows.ScreenRow.OverwriteSingle | libcorehost/screen_buffer_row.hpp:287-315 | Replacing one code point by another in place is that write |
| ScreenRows.ScreenRow.WriteGlyphGeneric | libcorehost/screen_buffer_row.hpp:317-341 | Splicing text, offsets and attributes is that write |
| ScreenRows.ScreenRow.TryWriteSingleWidthRun | libcorehost/screen_buffer_row.hpp:233-275 | Succeeds exactly where the run fits and its columns all hold single-codepoint glyphs one column wide, and then writes the run; otherwise nothing that is shown changes |
| ScreenRows.ScreenRow.SingleColumn | libcorehost/screen_buffer_row.hpp:248-262 | The stored tests of the fast path hold exactly for a glyph of one column and one code point |
| ScreenRows.ScreenRow.TryWriteMeasuredRunOnFilledRow | libcorehost/screen_buffer_row.hpp:343-385 | Taken exactly on a filled row that has room; then it is the run write, otherwise nothing changes |
| ScreenRows.ScreenRow.TryWriteMeasuredRunOnSingleWidthLayout | libcorehost/screen_buffer_row.hpp:387-441 | Taken exactly on the single-width layout with room and one width per code point; then it is the run write, otherwise nothing changes |
| ScreenRows.ScreenRow.TryOverwriteMatchingMeasuredRun | libcorehost/screen_buffer_row.hpp:443-482 | Taken exactly where the columns of a row that is not filled hold glyphs of one code point and of the widths of the run; then replacing the text alone is the run write, otherwise nothing changes |
| Encoding.MatchingLaysOut | libcorehost/screen_buffer_row.hpp:443-482 | Such columns are stored, offset by offset, as the run would be |
| Encoding.LaidOutMatches | libcorehost/screen_buffer_row.hpp:443-482 | And columns stored so, up to the offset behind them, hold such glyphs |
| ScreenRows.ScreenRow.WriteMeasuredRun | libcorehost/screen_buffer_row.hpp:484-564 | Whichever of the five paths is taken, from every representation, the effect is the one run write |
| ScreenRows.ScreenRow.WriteFullRow | libcorehost/screen_buffer_row.hpp:502-530 | A run as wide as the row replaces the whole row |
| ScreenRows.ScreenRow.WriteTextRun | libcorehost/screen_buffer.hpp:193-217 | Text output on one row: every choice among the writers has the effect of the one run write |
| ScreenRows.ScreenRow.ClearCell | libcorehost/screen_buffer_row.hpp:566-573 | A cleared column is a single space; a wide glyph it cuts becomes spaces |
| ScreenRows.ScreenRow.CopyFrom | libcorehost/screen_buffer_row.hpp:575-591 | Copies glyph by glyph from the source columns, each under its leading attribute |
| ScreenRows.ScreenRow.ToCharInfo | libcorehost/screen_buffer_row.hpp:611-637 | One CHAR_INFO per column, with the leading and trailing flags of wide glyphs |
| ScreenRows.ScreenRow.FromCharInfo | libcorehost/screen_buffer_row.hpp:660-698 | Writes the records back column by column, a leading and trailing pair as one wide glyph |
| RowCopy.CopiedIsSplice | libcorehost/screen_buffer_row.hpp:575-591 | A copy that starts at a glyph edge and has room for the last glyph is one write of those glyphs, each levelled to its leading attribute, which can reach past the requested count |
| RowCopy.CopiedIsClipped | libcorehost/screen_buffer_row.hpp:277-285 | Without room for it, of the last glyph the columns there is room for are written, as a glyph that wide |
| RowCopy.CopiedSkips | libcorehost/screen_buffer_row.hpp:575-591 | A copy that starts inside a glyph is the copy from the glyph behind it |
| RowCopy.CopiedOk | libcorehost/screen_buffer_row.hpp:575-591 | A copy of any columns leaves whole glyphs |
| CharInfos.SaveScribbleRestore | libcorehost/screen_buffer_row.hpp:613-699 | Export columns, write and repaint anything inside them, import the saved records: the whole row is back, glyphs cut by either edge and every attribute included |
| CharInfos.ExportShows | libcorehost/screen_buffer_row.hpp:613-637 | Exactly the first column of a glyph wider than one is marked as leading and exactly its others as trailing; the record holds the code point of the basic plane, or U+FFFD, and the attribute |
| CharInfos.ImportAlone | libcorehost/screen_buffer_row.hpp:660-698 | One record on its own: a character, either half of a wide one with the column beside it, a half without one, a high surrogate, an unmarked zero |
| CharInfos.ImportOk | libcorehost/screen_buffer_row.hpp:660-698 | Importing any records leaves whole glyphs |
| Scrolling.ScrollPointwise | libcorehost/screen_buffer.hpp:571-697 | After any scroll a cell that the clip lets through holds what moved onto it, else the fill where that was left behind, else its old value: on any content when whole rows move, on single-column content otherwise |
| Scrolling.ShiftRowsPointwise | libcorehost/screen_buffer.hpp:586-655 | The two whole-row paths obey that law on any content |
| Scrolling.ScrollRectPointwise | libcorehost/screen_buffer.hpp:657-697 | The saved-rectangle path obeys it on single-column content |
| Scrolling.ScrolledOk | libcorehost/screen_buffer.hpp:571-697 | A scroll leaves every row a partition into whole glyphs |
| Scrolling.ScrollFrame | libcorehost/screen_buffer.hpp:571-697 | Rows outside the clip never change, whatever they hold |
| RowStores.CopyStays | libcorehost/screen_buffer_row.hpp:575-591 | A copy of any columns between rows of single code points leaves single code points, whole glyphs and offsets that fit |
| RowStores.SavedCopy | libcorehost/screen_buffer.hpp:668-680 | A new row holds the saved columns on the fill attribute, and the row it comes from is as it was |
| RowStores.RowStore.WriteText | libcorehost/screen_buffer.hpp:193-217 | Text output changes one row object, by the one run write |
| RowStores.RowStore.PutGlyph | libcorehost/screen_buffer.hpp:123-139 | One glyph write changes one row object |
| RowStores.RowStore.ResetRow | libcorehost/screen_buffer.hpp:815-821 | The storage of one row is reused for the fill, the other rows stay |
| RowStores.RowStore.CopyInto | libcorehost/screen_buffer.hpp:692-697 | Columns copied into one row object from a row outside the store; the source and the other rows stay |
| RowStores.RowStore.Rotate | libcorehost/screen_buffer.hpp:616-655 | A range of row objects is rotated: no row is copied, none is lost, each place shows the row the rotation brings there |
| RowStores.RowStore.Resize | libcorehost/screen_buffer.hpp:56-82 | New row objects of the new size show the resized rows |
| ScreenBuffers.ScreenBuffer.WriteRun | libcorehost/screen_buffer.hpp:162-232 | Text output on a logical row, from any ring origin, changes that row by the one run write and no other |
| ScreenBuffers.PhysicalIsRemainder | libcorehost/screen_buffer.hpp:753-759 | The ring index is the remainder of origin plus row |
| ScreenBuffers.RingRotates | libcorehost/screen_buffer.hpp:586-613 | Moving the ring origin rotates the rows that are seen |
| ScreenBuffers.RotateIsShift | libcorehost/screen_buffer.hpp:586-613 | Rotating the ring and refilling the rows that left is the row shift of the scroll law |
| ScreenBuffers.BandIsShift | libcorehost/screen_buffer.hpp:616-655 | Moving rows inside a band and refilling is the same row shift |
| ScreenBuffers.ScreenBuffer.constructor | libcorehost/screen_buffer.hpp:42-52 | Every row is blank in the default attribute and the viewport is the whole buffer |
| ScreenBuffers.ScreenBuffer.LinearizeRows | libcorehost/screen_buffer.hpp:761-772 | Bringing the ring into order changes nothing that is seen and leaves the origin at 0 |
| ScreenBuffers.ScreenBuffer.FillRow | libcorehost/screen_buffer.hpp:817-821 | The row shows the fill in every column, the others stay |
| ScreenBuffers.ScreenBuffer.ScrollRing | libcorehost/screen_buffer.hpp:586-613 | The ring rotation is the row shift over the whole screen |
| ScreenBuffers.ScreenBuffer.ScrollBand | libcorehost/screen_buffer.hpp:616-655 | The whole-row move is the row shift inside its band |
| ScreenBuffers.ScreenBuffer.ScrollRectangle | libcorehost/screen_buffer.hpp:657-697 | Saving, filling and copying back gives, row by row, the specified rectangle scroll although source and destination may overlap |
| ScreenBuffers.ScreenBuffer.SaveRows | libcorehost/screen_buffer.hpp:668-680 | The saved rows are the moving columns of the source rows |
| ScreenBuffers.ScreenBuffer.FillRectangle | libcorehost/screen_buffer.hpp:682-690 | Exactly the rows of the rectangle are filled, over its columns |
| ScreenBuffers.ScreenBuffer.Scroll | libcorehost/screen_buffer.hpp:571-697 | Whichever path is taken the screen is the specified scroll of the old one, from any ring origin |
| ScreenBuffers.ScreenBuffer.FittedView | libcorehost/console_viewport.hpp:82-93 | The viewport lies inside the buffer; a size that fits is kept, and so is a rectangle inside the buffer |
| ScreenBuffers.ScreenBuffer.FittedIsNearest | libcorehost/console_viewport.hpp:82-93 | No rectangle of its size inside the buffer begins nearer to where it was asked for |
| ScreenBuffers.ScreenBuffer.Resize | libcorehost/screen_buffer.hpp:56-82 | The new size is at least one column and one row; the screen is the resized old one, from any ring origin; the viewport fits |
| Resizing.ResizeKeeps | libcorehost/screen_buffer_row.hpp:577-591 | A glyph that fits the new width keeps its columns through a resize, under its leading attribute |
| Resizing.ResizeClips | libcorehost/screen_buffer_row.hpp:277-285 | A glyph cut by the new right edge keeps the columns there is room for, as a glyph that wide, under its leading attribute |
| Resizing.ResizeFills | libcorehost/screen_buffer.hpp:56-82 | Columns the row did not have are spaces in the default attribute |
| Resizing.ResizedShows | libcorehost/screen_buffer.hpp:56-82 | Every cell of a resized screen, by these three cases; rows that were not there are blank |
| Resizing.GrowShrink | libcorehost/screen_buffer.hpp:56-82 | Growing the buffer and shrinking it back restores every row whose wide glyphs have one attribute each |
| Resizing.GrowShrinkOnlyLevel | libcorehost/screen_buffer_row.hpp:577-591 | The condition is exact: a row that comes back has one attribute per glyph |
| ScreenBuffers.ScreenBuffer.WriteChar32Linear | libcorehost/screen_buffer.hpp:390-419 | Writes across row ends, with a SHORT column counter, as specified and returns the number of code points counted as written |
| ScreenBuffers.ScreenBuffer.ReadWcharsLinear | libcorehost/screen_buffer.hpp:479-509 | Reads across row ends as specified: one unit per glyph, a space for a half cut by either end |
| LinearText.WrittenIsLaid | libcorehost/screen_buffer.hpp:392-419 | On every screen the text is laid out row after row and counted, as it should be, exactly when no wide code point with text behind it starts in the last column of a buffer 32767 columns wide |
| LinearText.LosesNext | libcorehost/screen_buffer.hpp:407-414 | Such a code point makes the column counter start over from its least value: the code point behind it is counted and lost |
| LinearText.NarrowIsStraight | libcorehost/screen_buffer.hpp:392-419 | In a narrower buffer that cannot happen |
| LinearText.WriteThenRead | libcorehost/screen_buffer.hpp:392-509 | Under that condition text of the basic plane written across row ends and read back over the cells it covered is the text that was consumed |
| LinearText.ReadAlone | libcorehost/screen_buffer.hpp:479-509 | One cell read on its own: the code point of the basic plane, else U+FFFD, and a space for half a glyph |
| LinearText.WrittenKeepsAttrs | libcorehost/screen_buffer.hpp:392-419 | No attribute changes anywhere |
| LinearText.WrittenFrame | libcorehost/screen_buffer.hpp:392-419 | Under that condition nothing before the starting cell changes |
| Terminals.LineFeedOk | libcorehost/api_handlers.hpp:368-399 | A line feed keeps the screen well formed, puts the cursor at the left edge inside the viewport and leaves the delayed wrap alone |
| Terminals.LineFeedShows | libcorehost/api_handlers.hpp:368-399 | On the last line of the region every line of it shows what the line below held, the last one is blank in the current attribute and nothing else changes; elsewhere the screen stays and the cursor goes down, to the last line of the viewport at most: on any content in a viewport as wide as the buffer, on single-column content in any |
| Terminals.PutCharShows | libcorehost/screen_buffer.hpp:193-219 | A code point with room: its columns hold it in the current attribute, a glyph it cuts becomes spaces, no other cell changes, and the cursor goes behind it or waits on the last column |
| Terminals.ClampedIsNearest | libcorehost/api_handlers.hpp:465-475 | Text begins at the cursor, or at the nearest column and row of the viewport |
| Terminals.PutTextOk | libcorehost/api_handlers.hpp:465-507 | Text keeps the screen well formed and the cursor in the viewport |
| Terminals.TextCutAnywhere | libcorehost/api_handlers.hpp:465-507 | Text a and then text b leave the cells, attributes, cursor and delayed wrap of a followed by b as one text |
| Terminals.FitIsMaximal | libcorehost/screen_buffer.hpp:175-191 | The code points taken for a row fit, and one more would not |
| Terminals.ProgressAtLeftEdge | libcorehost/api_handlers.hpp:479-506 | At the left edge a row takes at least one code point exactly where the viewport has two columns or the code point needs one |
| Terminals.PutRow | libcorehost/screen_buffer.hpp:193-219 | Code points that fit are one measured run at the cursor, and the wrap behind the last column is delayed |
| TextRows.RowStep | libcorehost/api_handlers.hpp:479-506 | A row of text, and then the rest after a line feed, is the text code point by code point |
| TextRows.RowFed | libcorehost/api_handlers.hpp:479-506 | After a full row either the rest is shorter or the cursor has come to the left edge: the loop ends |
| TextRows.TakeWrap | libcorehost/api_handlers.hpp:476-477 | A delayed wrap is taken by the first code point of the next text and by nothing else |
| TerminalSessions.Session.LineFeed | libcorehost/api_handlers.hpp:368-399 | The line feed as specified, on the ring buffer |
| TerminalSessions.Session.MeasureRow | libcorehost/screen_buffer.hpp:175-191 | The consumed count, the cell count and the widths, which are an array only once one of them is not 1 |
| TerminalSessions.Session.WriteTextRow | libcorehost/screen_buffer.hpp:160-232 | Consumes the maximal prefix, draws it at the cursor, moves the cursor by its width, and reports the end of the row exactly when it is full or text is left |
| TerminalSessions.Session.ApplyText | libcorehost/api_handlers.hpp:465-507 | The loop over rows ends and leaves the state that code point by code point output leaves |
| TerminalSessions.Session.ApplyTextCursorOnly | libcorehost/api_handlers.hpp:412-461 | The cursor and delayed wrap as specified; the screen untouched |
| TerminalSessions.Session.LineFeedCursorOnly | libcorehost/api_handlers.hpp:401-410 | The cursor goes to the next row, or stays on the last one, at the left edge |
| TerminalSessions.Session.Perform | libcorehost/api_handlers.hpp:811-851 | The region operations as specified, on the ring buffer |
| TerminalSessions.Session.EditRow | libcorehost/api_handlers.hpp:546-605 | ICH, DCH and ECH as specified, on the ring buffer |
| CursorOnlyText.CursorOnlyAgrees | libcorehost/api_handlers.hpp:412-461 | The cursor-only path ends where the full path ends, for every text whose first code point has room, without a scroll region in a viewport of two or more columns |
| CursorOnlyText.CursorOnlyMisfit | libcorehost/api_handlers.hpp:449-451 | A first code point without room, whatever follows it, leaves the two paths together exactly where the cursor is on the last row and the text, laid out from the left edge of that row, ends on the last column with no wrap delayed |
| CursorOnlyText.CursorOnlyExact | libcorehost/api_handlers.hpp:412-461 | So for every text the two paths agree exactly in these two cases |
| CursorOnlyText.CursorOnlyAboveLastRow | libcorehost/api_handlers.hpp:449-451 | From above the last row they agree exactly where the first code point has room |
| CursorOnlyText.CursorOnlyMisfitAlone | libcorehost/api_handlers.hpp:449-451 | A code point without room, alone, leaves them together exactly in a viewport of three columns on its last row |
| ScrollRegions.RegionFrame | libcorehost/api_handlers.hpp:323-399 | No sequence of LF, RI, SU, SD, IL and DL changes a row outside the DECSTBM region, in a viewport of any width |
| ScrollRegions.PerformShows | libcorehost/api_handlers.hpp:323-399 | Every cell after LF, RI, SU, SD, IL and DL: which lines move, which way and how far, for every count, and that what they leave is blank; on any content in a viewport as wide as the buffer, on single-column content in any |
| ScrollRegions.PerformMoves | libcorehost/api_handlers.hpp:607-623 | The cursor: LF to the left edge and down, RI up, the others leave it; a delayed wrap ends |
| ScrollRegions.InsertThenDelete | libcorehost/api_handlers.hpp:832-851 | IL n then DL n restores every row but the last n of the region, which are blank, on any content and also where the SHORT sum of row and count wraps |
| ScrollRegions.ReverseIndexStays | libcorehost/api_handlers.hpp:609-623 | RI leaves the viewport exactly on its top row when the region starts further down |
| ScrollRegions.SetRegionSelects | libcorehost/api_handlers.hpp:658-680 | Margins in order select their rows of the viewport, others all of it, and the cursor goes home |
| ScrollRegions.CursorMoveStays | libcorehost/api_handlers.hpp:757-776 | CUU, CUD, CUF, CUB, CNL and CPL take the cursor as far as asked or to the edge of the viewport exactly where, moving down or right, the sum of place and count is a SHORT; where it is not, CUD, CUF and CNL leave the viewport |
| RowEdits.RowEditedOk | libcorehost/api_handlers.hpp:554-605 | ICH, DCH and ECH leave whole glyphs, whatever the row holds |
| RowEdits.RowEditedCell | libcorehost/api_handlers.hpp:554-605 | On single-column content every column of the edited row |
| RowEdits.EditedShows | libcorehost/api_handlers.hpp:546-605 | They act on the row of the cursor, from its column to the last one of the viewport, for every count; the cursor stays, no other cell changes |
| RowEdits.InsertThenDeleteColumns | libcorehost/api_handlers.hpp:554-591 | On single-column content ICH n then DCH n restores all but the last n columns of the viewport, which are blank |
| VtMessages.MergeSplit | libcorehost/vt_parser.hpp:463-471 | Cutting text runs into code points does not change the messages once adjacent runs are merged |
| VtMessages.SplitSource | libcorehost/vt_parser.hpp:463-471 | Nor the input they stand for |
| VtParsers.StepsConcat | libcorehost/vt_parser.hpp:458-487 | Parsing a stream in two parts gives the messages and the state of parsing it whole |
| VtParsers.StepsPartition | libcorehost/vt_parser.hpp:458-519 | The texts of the messages and the unfinished sequence held are, concatenated, the input |
| VtParsers.ResetIsFresh | libcorehost/vt_parser.hpp:868-892 | Between messages the parser is as good as new exactly when no ESC ( was broken off |
| VtParsers.BrokenDesignation | libcorehost/vt_parser.hpp:779-824 | ESC ( and a NUL leave a parser that is not |
| VtParsers.VtParser.constructor | libcorehost/vt_parser.hpp:454-456 | A new parser is on the ground with nothing held |
| VtParsers.VtParser.ParseEsc | libcorehost/vt_parser.hpp:777-824 | One code point behind ESC |
| VtParsers.VtParser.ParseCsi | libcorehost/vt_parser.hpp:715-757 | One code point inside a control sequence: parameters are SHORTs, the seventeenth spoils the sequence |
| VtParsers.VtParser.ReadSgr | libcorehost/vt_parser.hpp:1377-1464 | The loop over SGR parameters reads them as specified: flags set and cleared, colours, extended colours with their arguments |
| VtParsers.VtParser.ParseOsc | libcorehost/vt_parser.hpp:646-699 | One code point inside an OSC string |
| VtParsers.VtParser.ParseOscSt | libcorehost/vt_parser.hpp:701-713 | ESC inside an OSC string: a backslash ends it, anything else starts over |
| VtParsers.VtParser.ParseSs3 | libcorehost/vt_parser.hpp:759-775 | One code point behind ESC O |
| VtParsers.VtParser.DispatchOscString | libcorehost/vt_parser.hpp:1132-1195 | Reading the operation code and dispatching on it |
| VtParsers.VtParser.ParseSequenceChar | libcorehost/vt_parser.hpp:620-644 | One code point in whichever mode |
| VtParsers.VtParser.ParseGroundControl | libcorehost/vt_parser.hpp:826-866 | ESC starts a sequence, every other control character is a message |
| VtParsers.VtParser.GroundTextRunLength | libcorehost/vt_parser.hpp:488-494 | The text run ends at the first control character |
| VtParsers.VtParser.Reset | libcorehost/vt_parser.hpp:868-892 | Back to the ground; parameters and intermediate stay |
| VtParsers.VtParser.Parse | libcorehost/vt_parser.hpp:458-487 | Consumes at least one code point of any input; what it delivers is what those code points deliver one by one, a text run as a whole |
| VtParsers.VtParser.ParseAll | libcorehost/api_handlers.hpp:1624-1661 | The parse and reset loop delivers what the input delivers code point by code point |
| VtParsers.VtParser.ParseChunks | libcorehost/vt_parser.hpp:18-42 | A stream cut anywhere gives the same messages after merging text runs, and the delivered texts with the unfinished tail are the stream |
| VtMeanings.CursorMovesMeant | libcorehost/vt_parser.hpp:1235-1264 | CSI A to F with any parameters: the move, its count, absent or 0 for 1, and the second parameter as key modifier |
| VtMeanings.PositionsMeant | libcorehost/vt_parser.hpp:1266-1290 | CSI G, d, H and f, with f and H the same, and CSI s and u |
| VtMeanings.MarkedCursorUnknown | libcorehost/vt_parser.hpp:1235-1290 | Behind ? all of these are unknown text |
| VtMeanings.ScrollsMeant | libcorehost/vt_parser.hpp:1331-1368 | CSI S, T, L and M |
| VtMeanings.TabsMeant | libcorehost/vt_parser.hpp:1476-1491 | CSI I, Z and g |
| VtMeanings.EditsMeant | libcorehost/vt_parser.hpp:1354-1362 | CSI @, P and X |
| VtMeanings.ErasesMeant | libcorehost/vt_parser.hpp:1369-1497 | CSI J, K and r |
| VtMeanings.ModesMeant | libcorehost/vt_parser.hpp:1293-1328 | CSI ? h and l: modes 1, 3, 12, 25 and 1049 on and off, anything else unknown |
| VtMeanings.ReportsMeant | libcorehost/vt_parser.hpp:1339-1516 | CSI n, c, R and t: status request, device attributes, cursor report, window size, and when each is unknown |
| VtMeanings.IntermediatesMeant | libcorehost/vt_parser.hpp:1467-1523 | CSI q needs a space and p an exclamation mark as the last intermediate |
| VtMeanings.TildeKeysMeant | libcorehost/vt_parser.hpp:1540-1571 | CSI ~: the key of every number, with its modifier |
| VtMeanings.Win32KeyMeant | libcorehost/vt_parser.hpp:1525-1537 | CSI _: the six fields of the key record |
| VtMeanings.OtherFinalsUnknown | libcorehost/vt_parser.hpp:1572-1574 | Every other final is unknown |
| VtMeanings.SgrCodesMeant | libcorehost/vt_parser.hpp:1382-1462 | What every SGR parameter means on its own |
| VtMeanings.ExtendedColorsMeant | libcorehost/vt_parser.hpp:1416-1456 | 38 and 48 with 5;n and 2;r;g;b, and that the sequence is unknown without their arguments |
| VtMeanings.Ss3Meant | libcorehost/vt_parser.hpp:1036-1063 | ESC O and a final: the key, or unknown |
| VtMeanings.EscMeant | libcorehost/vt_parser.hpp:1014-1033 | ESC and a final: M, 7, 8, H, = and >, or unknown |
| VtMeanings.CharsetMeant | libcorehost/vt_parser.hpp:1066-1075 | ESC ( and 0 or B, or unknown |
| VtMeanings.OscMeant | libcorehost/vt_parser.hpp:1132-1215 | OSC n ; string, ended by BEL or by the string terminator: title, palette colour, hyperlink or unknown |
| VtMeanings.PaletteMeant | libcorehost/vt_parser.hpp:1179-1206 | index ; rgb: with components of one or two hexadecimal digits in either case |
| VtMeanings.ControlsMeant | libcorehost/vt_parser.hpp:826-866 | Every control character between sequences; BS carries the Ctrl modifier |
| VtMeanings.BrokenOff | libcorehost/vt_parser.hpp:717-754 | A control or a foreign character ends a control sequence as unknown text |
| VtPrinters.DigitsRead | libcorehost/vt_parser.hpp:725-730 | A parameter of any number of digits is read as the number cast to SHORT |
| VtPrinters.FieldsRead | libcorehost/vt_parser.hpp:731-733 | The first sixteen parameters are read in order, an absent one as 0; with more the sequence is marked as spoiled |
| VtPrinters.CsiParses | libcorehost/vt_parser.hpp:715-757 | Any control sequence of up to sixteen parameters is one message of its dispatch, and leaves the parser as new |
| VtPrinters.CsiSpoiled | libcorehost/vt_parser.hpp:715-757 | Any longer one is delivered as unknown with its whole text, and leaves the parser as new |
| SgrPayloads.ParamsReadBack | libcorehost/pipe_bridge.hpp:1128-1218 | The parameters printed for an SGR payload read as a reset and what the order of printing leaves of the payload, with both colours as they were |
| SgrPayloads.OnlyResetAdded | libcorehost/pipe_bridge.hpp:1137-1172 | The reset is all that is added exactly where no attribute is switched both ways and bold and faint are switched off together |
| VtPrinters.SgrReadBack | libcorehost/pipe_bridge.hpp:1128-1218 | A printed SGR message parses as that payload, unless it takes more than sixteen parameters, and then as unknown text |
| VtPrinters.SgrComesBack | libcorehost/pipe_bridge.hpp:1128-1140 | An SGR message comes back exactly when it is a reset and nothing else |
| VtPrinters.RoundTrip | libcorehost/pipe_bridge.hpp:886-1244 | Print then parse gives back the same message, alone, with id and payload, and leaves the parser as new, for every message, exactly for: text of one C0 control without a message of its own, titles as below, counts and positions from 1, modes and margins from 0, palette colours, a plain SGR reset, carriage return, and payload-free messages other than ANSI save and restore and soft reset |
| VtPrinters.TextComesBack | libcorehost/vt_parser.hpp:463-471 | A text message comes back as text exactly when it is one such control: no other input is delivered under that id |
| VtPrinters.TextComesBackAsRun | libcorehost/pipe_bridge.hpp:893-896 | Text without control characters, and no other, comes back as a text run: one run once adjacent ones are merged |
| VtPrinters.TitleComesBack | libcorehost/pipe_bridge.hpp:838-847 | A title comes back and leaves the parser as new exactly when it is not empty and every control character in it is an ESC with ] behind it (one with ESC ( ] in it is delivered, but leaves the intermediate of ESC ( behind) |
| VtPrinters.PaletteParses | libcorehost/pipe_bridge.hpp:1219-1231 | A printed palette colour parses back to its index and components |
| VtPrinters.SoftResetIsTwo | libcorehost/pipe_bridge.hpp:1232-1234 | Soft reset is printed with a second sequence and does not come back alone |
| VtPrinters.VtOutput.AppendInt | libcorehost/output_buffer.hpp:131-142 | Appends the decimal digits without leading zeros |
| VtPrinters.VtOutput.AppendCup | libcorehost/pipe_bridge.hpp:700-711 | CUP from a 0-based position, printed 1-based |
| VtPrinters.VtOutput.Send | libcorehost/pipe_bridge.hpp:886-1244 | Appends the VT of the message and nothing else |
| VtPrinters.VtOutput.SendSgr | libcorehost/pipe_bridge.hpp:1128-1218 | A reset alone, or 0 and every attribute and colour of the payload, with semicolons between them |
| OutputStreams.PlayedConcat | libcorehost/api_handlers.hpp:1624-1661 | An output stream cut in two leaves the same parser and terminal |
| OutputStreams.ApplySplitText | libcorehost/api_handlers.hpp:465-507 | A text run does to the terminal what its code points do one at a time |
| OutputStreams.CrLfIsLf | libcorehost/api_handlers.hpp:1648-1656 | CR before LF changes nothing, so taking both as one line feed is sound |
| OutputStreams.StreamShows | libcorehost/api_handlers.hpp:1624-1661 | CR goes to the left edge and ends a delayed wrap, LF is a line feed, controls without a meaning are dropped, printable text is put on the terminal |
| OutputStreams.Next | libcorehost/api_handlers.hpp:1624-1661 | One turn of the consumer: what the consumed code points do |
| OutputStreams.Write | libcorehost/api_handlers.hpp:1624-1661 | One write does what its code points do one at a time |
| OutputStreams.WriteAll | libcorehost/api_handlers.hpp:1624-1661 | Writes cut anywhere, in text, between CR and LF or inside an escape sequence, end in the same cells, attributes, cursor, delayed wrap, parser and whatever else other messages change |
| Histories.UpsReach | libcorehost/command_history_state.hpp:82-100 | k Ups show the k-th newest command, or the oldest |
| Histories.UpsThenDowns | libcorehost/command_history_state.hpp:82-121 | Any number of Ups is undone, line and history, by as many Downs as there were commands |
| Histories.PushedOk | libcorehost/command_history_state.hpp:70-79 | The history stays within its capacity and ends in the command pushed |
| Histories.PushedKeeps | libcorehost/command_history_state.hpp:62-79 | The commands before it are kept in order, as many of the newest as there is room for; an empty or repeated command changes nothing |
| Histories.TrimmedKeeps | libcorehost/command_history_state.hpp:17-22 | A smaller capacity keeps the newest commands in order |
| Histories.CommandHistory.Push | libcorehost/command_history_state.hpp:70-79 | Keeps a non-empty command that differs from the last one, dropping the oldest beyond the capacity |
| Histories.CommandHistory.SetCapacity | libcorehost/command_history_state.hpp:17-22 | Drops the oldest commands beyond the capacity |
| Histories.CommandHistory.BrowseUp | libcorehost/command_history_state.hpp:82-100 | The command before, remembering the line the first time; false only without commands |
| Histories.CommandHistory.BrowseDown | libcorehost/command_history_state.hpp:103-121 | The command after, or the remembered line behind the newest |
| LineEditors.MovesUndo | libcorehost/pipe_bridge.hpp:2050-2078 | Left and Right undo each other inside the line |
| LineEditors.LeftDelete | libcorehost/pipe_bridge.hpp:2014-2062 | Delete behind Left is Backspace |
| LineEditors.TypedBack | libcorehost/pipe_bridge.hpp:1887-2034 | Backspace, or Left and Delete, takes back what was typed |
| LineEditors.EndAndHome | libcorehost/pipe_bridge.hpp:2050-2099 | n Lefts after End stand n places before the end, n Rights after Home behind the first n characters |
| LineEditors.TypedText | libcorehost/pipe_bridge.hpp:1887-1911 | A text typed key by key stands at the insertion point, which is then behind it |
| LineEditors.TypedAlone | libcorehost/pipe_bridge.hpp:1887-2099 | So it is the line if that was empty, in front of it after Home, behind it after End |
| LineEditors.UpsShow | libcorehost/pipe_bridge.hpp:2116-2128 | k Ups show the k-th newest command or the oldest, with the insertion point behind it |
| LineEditors.DownsBack | libcorehost/pipe_bridge.hpp:2116-2135 | As many Downs bring back the line, with the insertion point at its end |
| HostTerminals.OpsParse | libcorehost/pipe_bridge.hpp:1833-1938 | A VT parser reads the editor's output as exactly the operations it meant |
| HostTerminals.ExecutedThroughVt | libcorehost/pipe_bridge.hpp:1833-1938 | A terminal that parses that output and executes the messages does what the editor meant |
| LineEditors.ShownThroughVt | libcorehost/pipe_bridge.hpp:1833-1938 | What the terminal shows after parsing and executing is the line behind the prompt |
| LineEditors.TypingFits | libcorehost/pipe_bridge.hpp:1887-1911 | Typing at the end shows the new line with the cursor behind it exactly where that column exists |
| LineEditors.OnlyRowsThatHold | libcorehost/pipe_bridge.hpp:1833-1938 | A terminal that shows the line behind the prompt in one row, its cursor at the insertion point, has columns for the line and a column for the insertion point, whatever was sent to it |
| LineEditors.BackspaceOnFullRow | libcorehost/pipe_bridge.hpp:2014-2034 | After a character typed in the last column, Backspace leaves the edited line shown exactly when the column before it, of the line or of the prompt, holds that character or there is none |
| LineEditors.TerminalCursor.Advance | libcorehost/terminal_cursor_state.hpp:39-46 | One column on, the end of the input with it; nothing without a trusted position |
| LineEditors.TerminalCursor.Retreat | libcorehost/terminal_cursor_state.hpp:49-55 | One column back, not into the prompt |
| LineEditors.TerminalCursor.RetractBounds | libcorehost/terminal_cursor_state.hpp:115-119 | The end of the input one column back, not into the prompt |
| LineEditors.LineEditor.CookedAppend | libcorehost/pipe_bridge.hpp:1604-1609 | The character at the insertion point, which moves behind it |
| LineEditors.LineEditor.CookedPopBefore | libcorehost/pipe_bridge.hpp:1611-1616 | The character before the insertion point goes |
| LineEditors.LineEditor.CookedPopAt | libcorehost/pipe_bridge.hpp:1618-1623 | The character at the insertion point goes |
| LineEditors.LineEditor.InsertChar | libcorehost/pipe_bridge.hpp:1887-1911 | The line is edited and the terminal, executing the VT sent, shows it with the cursor at the insertion point |
| LineEditors.LineEditor.InsertCodepoint | libcorehost/pipe_bridge.hpp:1913-1938 | The same for a code point |
| LineEditors.LineEditor.BackspaceKey | libcorehost/pipe_bridge.hpp:2014-2034 | The same for Backspace |
| LineEditors.LineEditor.DeleteKey | libcorehost/pipe_bridge.hpp:2037-2047 | The same for Delete |
| LineEditors.LineEditor.MoveLeftKey | libcorehost/pipe_bridge.hpp:2050-2062 | The same for Left |
| LineEditors.LineEditor.MoveRightKey | libcorehost/pipe_bridge.hpp:2066-2078 | The same for Right |
| LineEditors.LineEditor.HomeKey | libcorehost/pipe_bridge.hpp:2081-2089 | The same for Home |
| LineEditors.LineEditor.EndKey | libcorehost/pipe_bridge.hpp:2091-2099 | The same for End |
| LineEditors.LineEditor.LoadHistoryLine | libcorehost/pipe_bridge.hpp:1849-1881 | Replaces the line shown and puts the cursor behind it |
| LineEditors.LineEditor.HistoryUpKey | libcorehost/pipe_bridge.hpp:2116-2128 | The same for Up |
| LineEditors.LineEditor.HistoryDownKey | libcorehost/pipe_bridge.hpp:2130-2135 | The same for Down |
| LineEditors.LineEditor.PerformAll | libcorehost/pipe_bridge.hpp:1957-1997 | Any sequence of editing keys on printable text, as long as the row has columns for the line and one for the insertion point: buffer, insertion point, history and tracked bounds are what the keys mean, and the terminal shows exactly the line and nothing else has changed |
| IoLoops.Server.OnMessage | libcorehost/message_router.hpp:53-70 | The bridge contract: false only for a request that may wait and is now held; a request that does not wait may finish or drop the held one |
| IoLoops.Server.Complete | libcorehost/io_loop.hpp:252-259 | A completion is sent only for a message still open, so never twice |
| IoLoops.IoLoop.InOnePlace | libcorehost/io_loop.hpp:214-240 | Between turns a message is settled or in exactly one of awaiting, held and deferred; completions have no duplicates and are exactly the completed messages |
| IoLoops.IoLoop.NextFree | libcorehost/io_loop.hpp:235-240 | A buffer outside the three uses always exists and is found |
| IoLoops.IoLoop.DispatchDeferred | libcorehost/io_loop.hpp:247-265 | The deferred read is answered at once or becomes the held one |
| IoLoops.IoLoop.ReadIo | libcorehost/io_loop.hpp:311-334 | Submits the waiting completion once; every buffer in use at the call (completion to submit, held or deferred request) keeps its message |
| IoLoops.IoLoop.Fill | libcorehost/io_loop.hpp:311-334 | The filled buffer is not live and the others keep their messages |
| IoLoops.IoLoop.Defer | libcorehost/io_loop.hpp:397-405 | The second waiting read keeps its buffer and a free one is taken |
| IoLoops.IoLoop.FinishPendingReads | libcorehost/io_loop.hpp:406-432 | A third waiting read goes on only with nothing held, pending or deferred |
| IoLoops.IoLoop.ServeDeferred | libcorehost/io_loop.hpp:242-266 | With nothing held the deferred read is dispatched: it is held or answered afterwards |
| IoLoops.IoLoop.BeforeRead | libcorehost/io_loop.hpp:242-299 | So a read is still deferred at READ_IO only if another was held when the turn began; terminal input has been served unless an answer is due and nothing held |
| IoLoops.IoLoop.Handle | libcorehost/io_loop.hpp:391-480 | A request is answered, held or deferred, and the loop invariant holds again; behind a held request the second waiting read is deferred and a third comes after both, and with nothing held a waiting read is dispatched at once: a read deferred before stays deferred exactly then |
| IoLoops.IoLoop.Turn | libcorehost/io_loop.hpp:242-505 | One turn under any behaviour of clients, terminal and bridge keeps the invariant and takes no message a step back; a deferred read is dispatched once nothing is held; a later read comes to be held before it only where terminal input finished the held one in that turn |
| IoLoops.IoLoop.Run | libcorehost/io_loop.hpp:242-505 | In every run no message takes a step back, and as long as the loop goes on, every message is settled or in exactly one place and the buffer of the next READ_IO is free; no completion is sent twice |
| ReaderQueues.StepKeeps | libcorehost/pipe_bridge_io.hpp:289-331 | Every section under the lock keeps the queue invariant |
| ReaderQueues.EveryRun | libcorehost/pipe_bridge_io.hpp:262-354 | In every interleaving the bytes taken, then queued, then in the thread's hand are the bytes of the pipe in order, until the thread is stopped; the queue holds at most 2^20 - 1 + 4096 bytes |
| ReaderQueues.EofMeansAll | libcorehost/pipe_bridge_io.hpp:337-344 | In every run a caller, who offers room, is told of the end of input exactly when the pipe is closed and the queue empty, and then has taken all bytes of the pipe |
| ReaderQueues.EofIsFinal | libcorehost/pipe_bridge_io.hpp:262-344 | Whatever happens later, it stays the end and no byte comes after it |
| ReaderQueues.DryMeansAll | libcorehost/pipe_bridge_io.hpp:337-354 | At end of input with an empty queue all bytes of the pipe have been taken |
| ReaderQueues.ReaderState.TrySpace | libcorehost/pipe_bridge_io.hpp:293-300 | The thread goes on exactly when stopped or below the limit |
| ReaderQueues.ReaderState.StoreResult | libcorehost/pipe_bridge_io.hpp:301-331 | A chunk is appended, an empty read is not, a closed pipe ends the thread, a stop drops the chunk |
| ReaderQueues.ReaderState.TakeQueued | libcorehost/pipe_bridge_io.hpp:337-354 | Takes the oldest bytes, as many as fit |
| ReaderQueues.ReaderState.TryConsumeByte | libcorehost/pipe_bridge_io.hpp:212-226 | Takes the next byte exactly when it is the expected one |
| ReaderQueues.ReaderState.PeekAvailable | libcorehost/pipe_bridge_io.hpp:146-157 | The queued count; closed only at end of input with an empty queue |
| Utf8.IncompleteTailLength | libcorehost/char_convert.hpp:218-233 | The loop finds the specified tail |
| Utf8.TailIsUnfinished | libcorehost/char_convert.hpp:216-233 | Behind whole characters exactly the unfinished one is the tail |
| Utf8.EncodedIsChar | libcorehost/char_convert.hpp:216-233 | The bytes of every code point, as section 3 of RFC 3629 lays them out, are one character, and its lead byte allows no other length |
| Utf8.LeadBytes | libcorehost/char_convert.hpp:216-233 | The ranges of lead and continuation bytes |
| Utf8.PrefixSplits | libcorehost/pipe_bridge.hpp:1726-1738 | Every prefix of a stream of characters is whole characters and one unfinished one |
| Utf8.NextPiece | libcorehost/pipe_bridge.hpp:1726-1738 | Behind what is written so far the next write completes characters and keeps the beginning of the next one |
| Utf8.NothingKept | libcorehost/pipe_bridge.hpp:1726-1738 | At the end of the stream nothing is kept |
| Utf8.Utf8Joiner.JoinWrite | libcorehost/pipe_bridge.hpp:1726-1738 | The piece and the new tail are the old tail and the write |
| Utf8.Utf8Joiner.JoinWrites | libcorehost/pipe_bridge.hpp:1726-1738 | A valid stream cut at any bytes: each piece is whole characters in order, the tail is at most three bytes, pieces and tail are the stream, and nothing is kept at its end |

## Left out

- Win32 handles, pipes, events, ConDrv calls, COM handoff, locks and condition variables themselves: the
  model starts where bytes, messages and outcomes are known; what the environment may do is nondeterministic.
- Storage reuse: rows saved by a rectangle scroll are new row objects, where the code keeps a list of them to reuse;
  a band move rotates row objects, where the code leaves emptied ones behind (they are refilled at once in both).
- A screen buffer holds glyphs of one code point, which is all its writers are given; `ScreenRows.ScreenRow` takes longer
  ones.
- Rows with glyphs of several code points are covered while the sum over glyphs of the larger of code points and
  columns stays within 32767 (`Encoding.TextFits`); a row that needs more would overflow its offsets.
- `screen_buffer_row::fill` (libcorehost/screen_buffer_row.hpp:596-609) has no caller and is not modelled.
- Scrolling.ScrollRectPointwise: single-column content only, because copying a rectangle levels the attributes of
  wide glyphs and may write one column past it; `RowCopy.CopiedIsSplice` says exactly what a copy of wide glyphs does.
- Terminals.LineFeedShows: in a viewport narrower than the buffer single-column content only, for the same reason.
- ScrollRegions.PerformShows: likewise.
- RowEdits.EditedShows: single-column content only, likewise.
- VtMeanings.CursorMovesMeant: here and for the other sequences parameters up to 32767; a larger one is cut to a SHORT, as
  `VtPrinters.DigitsRead` says.
- Unicode width tables, grapheme segmentation and code pages: a width is an arbitrary function, clamped to 1 or 2 as
  the code does.
- The OSC operation code and buffer that the parser collects while it reads, and never uses to dispatch, are not
  modelled; neither is the start offset of a sequence in the raw buffer, which is 0 throughout the parse and reset loop.
- VtPrinters.RoundTrip: payloads from 0 to 32767 (colours to 255); the printer works on code points, and their UTF-8
  encoding is not modelled.
- RowEdits.InsertThenDeleteColumns: single-column content only, as the copy it makes levels wide glyphs.
- OutputStreams.WriteAll: messages other than text, CR and LF act by an arbitrary function of the terminal and of any
  further state (saved cursor, tab stops, the other screen); only the path that updates the screen is covered, for
  viewports of two or more columns.
- LineEditors.LineEditor.PerformAll: narrow printable text, a trusted cursor, an empty row behind the prompt, and after
  each key columns in that row for the line and one for the insertion point, without which no terminal can show it
  (`LineEditors.OnlyRowsThatHold`); Enter, aliases and wide characters are not modelled.
- IoLoops.IoLoop.Run: whether a request may wait and what the bridge does with it are nondeterministic within the
  bridge contract; waits and flushes have no effect in the model, and a wait for pending input is taken to return.
- Console API decoding, fonts, tab stops, colours, titles, logging, inline images: marshalling and plain state.
