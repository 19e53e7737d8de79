# HEVC ES Browser ingestion and input normalisation, in Dafny

This project models the two pieces of logic in HEVCESBrowser that sit between
the user interfaces and the HEVC bitstream parser. It proves properties of
both.

**Windowed ingestion (GUI, `MainWindow::process`).** The file is read in
windows of at most 4 MiB (4 * 2^20 bytes). Each window starts at the current
`position`. The window and `position` go to the parser, and `position` grows
by the number of bytes the parser accepted. The file is then re-seeked to
`position`, so a record that straddles a window's end is read again at the
start of the next window. The loop stops when a read reaches end of file, or
when the user has closed the progress bar. After that, the last row of the
info table gets a new length cell: `position` minus the offset written in that
row's "...(N)" text, computed in size_t arithmetic. The model has:

- a `File` class for the QFile cursor;
- a `MainWindow` class holding the files on disk, the info-table rows and the
  hex-viewer bytes;
- the loop as a method. It is proved against `Resume`, the loop written as
  a function that appends to what has already been collected. `Resume` is
  proved equal to the specification function `Run`;
- lemmas about `Run`: no accepted byte is skipped or repeated, every window is
  a non-empty read of at most 4 MiB starting where the previous one's accepted
  bytes ended, `position <= fileSize`, progress values stay in 0..100 and
  never decrease, why the loop stopped, what tail is dropped at end of file,
  and how many windows a whole-window parser needs.

The parser is a function `(window, base) -> Step(accepted, rows)`. One parser
call is made per base offset in a run, and bases strictly increase, so a
function of `(window, base)` covers a parser that keeps state between calls.
The answers to the `isVisible()` polls are an input sequence.

**Input normalisation.**

- `MainWindow::openFile` first checks whether the name ends in `.265` or
  `.h265`. Any other name is transcoded into `<name>_output.265`. The ladder
  covers wait failure, abnormal exit and a zero-size output. The temporary
  file is removed on every path; on success that happens after the file has
  been processed.
- In the console tool, `isMp4` is modelled as a function.
- `convertToH265_Pipe` is a method. It copies each fread into a 4096-byte
  scratch array and appends the bytes read to a caller-owned buffer.
- `main` is a method that returns its exit code and the single parser call it
  makes.

The model follows the code, including where it behaves differently from what
one might expect of it:

- The suffix tests are case-sensitive, not case-insensitive. `x.H265` is
  transcoded, and `.Mp4` is not an MP4 name.
- The GUI does not treat a non-zero transcoder exit code as a failure. It
  rejects a conversion only when `waitForFinished` fails, the exit is
  abnormal, or the output file's size is 0. A clean exit with a non-zero code
  goes on to the size check, and `Ffmpeg.exitCode` appears in no contract. If
  the transcoder writes nothing, a stale `<name>_output.265` left by an
  earlier run is processed when it is not empty, and then removed.
- `convertToH265_Pipe` returns false on a non-zero close code but keeps the
  captured bytes. `main` uses any non-empty capture, whatever the result was.
- `main` always passes the input file's size as the length, even when the
  bytes are the converted buffer (`Feed.length` against `Converted(bytes)`).
- `main` exits with 3 when nothing was captured and the input file is empty.
  This rests on the assumption that `data()` of a vector that never allocated
  is null, as it is in libstdc++.
- `main` opens the output file, creating or truncating it, before it opens
  the input. An output given by the same path string as the input therefore
  leaves an empty input: `-i x -o x` exits with 3 rather than 2 or 0.

## Model

| member | source | states |
|---|---|---|
| `Ingestion.Run` | utils/hevc_es_browser_gui/MainWindow.cpp:115-133 | the window loop from a loop head: `position` never moves backwards and never passes the file size |
| `Ingestion.ResumeIsRun` | utils/hevc_es_browser_gui/MainWindow.cpp:115-133 | carrying the loop on from any head adds exactly the windows, progress values, rows, final `position` and stop reason that `Run` gives from there |
| `Ingestion.RunChain` | utils/hevc_es_browser_gui/MainWindow.cpp:117-125 | the windows of a run form a chain: each starts at the `position` the previous one left, is as long as a 4 MiB read from there can be, is non-empty, and accepts no more than it holds |
| `Ingestion.ChainDelivers` | utils/hevc_es_browser_gui/MainWindow.cpp:118-119 | along such a chain, the accepted bytes are exactly the file's bytes from start to end, and their count is the distance covered |
| `Ingestion.NoByteSkippedOrRepeated` | utils/hevc_es_browser_gui/MainWindow.cpp:101-125 | over a whole run, the accepted bytes are exactly the first `position` bytes of the file, `position` is the sum of accepted counts, and `position <= fileSize` |
| `Ingestion.RunParses` | utils/hevc_es_browser_gui/MainWindow.cpp:116-118 | each window's accepted count is the parser's answer for that window with its start as base offset, and the rows of a run are the parser's rows in window order |
| `Ingestion.WindowsAreReads` | utils/hevc_es_browser_gui/MainWindow.cpp:117-125 | the first window starts at 0, each later one at the previous start plus its accepted count, and each is non-empty, at most 4194304 bytes and inside the file |
| `Ingestion.PercentIsDivision` | utils/hevc_es_browser_gui/MainWindow.cpp:126 | the progress value computed by repeated subtraction is `position*100/fileSize` in integer division |
| `Ingestion.PercentBounds` | utils/hevc_es_browser_gui/MainWindow.cpp:126 | `position*100/fileSize` (integer division) is monotone in `position` and at most 100 when `position <= fileSize` |
| `Ingestion.RunProgress` | utils/hevc_es_browser_gui/MainWindow.cpp:109-126 | each progress value is `position*100/fileSize` as it stands after its window, one value per window at most |
| `Ingestion.RunProgressRises` | utils/hevc_es_browser_gui/MainWindow.cpp:109-126 | every progress value lies in 0..100, none is below the starting position's percentage, and the values never decrease |
| `Ingestion.RunStop` | utils/hevc_es_browser_gui/MainWindow.cpp:115-133 | at end of file the last window reaches the end and gets no progress update and no poll; a cancelled run stops at a poll that found the bar hidden, after its window's progress update |
| `Ingestion.RunPolls` | utils/hevc_es_browser_gui/MainWindow.cpp:128-133 | every poll before the last one found the bar visible, and every poll of a run that reached the end of the file did |
| `Ingestion.TailDroppedAtEnd` | utils/hevc_es_browser_gui/MainWindow.cpp:120-123 | when the loop stops at end of file, the bytes past `position` are exactly the last window's unaccepted tail |
| `Ingestion.WholeWindowsReadEverything` | utils/hevc_es_browser_gui/MainWindow.cpp:115-123 | a parser that accepts whole windows, with the bar never closed, ends at the file size after ceil(size/4 MiB) windows, so a size that is a multiple of 4 MiB gets no empty final window |
| `Ingestion.StraddlingRecordScenario` | utils/hevc_es_browser_gui/MainWindow.cpp:117-125 | a 10 MiB file whose second window leaves a 3-byte tail is read in three windows at 0, 4194304 and 8388605, ending at 10485760 |
| `Ingestion.BackFilled` | utils/hevc_es_browser_gui/MainWindow.cpp:135-144 | the back-fill keeps the table's size and every offset cell, and changes only the last row |
| `Ingestion.BackFillGivesLastLength` | utils/hevc_es_browser_gui/MainWindow.cpp:137-143 | when the last offset cell reads "<caption>(N)", the new length cell reads back as `position - N` |
| `Ingestion.ElementaryNames` | utils/hevc_es_browser_gui/MainWindow.cpp:186 | names ending in `.265` or `.h265` skip conversion; `.H265` and `.mp4` names are transcoded (the test is case-sensitive) |
| `Ingestion.File.Read` | utils/hevc_es_browser_gui/MainWindow.cpp:117 | QFile::read returns the next bytes, at most the requested count and none past the end, and advances the cursor by as many |
| `Ingestion.File.Seek` | utils/hevc_es_browser_gui/MainWindow.cpp:125 | QFile::seek puts the cursor at `position` |
| `Ingestion.File.ReadAll` | utils/hevc_es_browser_gui/MainWindow.cpp:145-146 | after the seek to 0, readAll returns the whole file for the hex viewer |
| `Ingestion.MainWindow.ReadWindows` | utils/hevc_es_browser_gui/MainWindow.cpp:101-133 | the loop leaves `position`, the progress values and the stop reason as `Run` gives them, and appends the parser's rows to the table |
| `Ingestion.MainWindow.Process` | utils/hevc_es_browser_gui/MainWindow.cpp:81-153 | a file that does not open changes nothing; otherwise the table is back-filled from the final `position`, whether the loop ended at end of file or by cancellation, the hex viewer gets the whole file, and the disk is unchanged |
| `Ingestion.MainWindow.OpenFile` | utils/hevc_es_browser_gui/MainWindow.cpp:170-246 | an empty or missing name does nothing; elementary names are processed as they are; other names are processed through the temp file exactly when waitForFinished succeeds, the exit is normal and the temp file is non-empty; the temp file is gone on every path; a failure leaves the table cleared and the hex viewer untouched |
| `Ingestion.MainWindow.Transcode` | utils/hevc_es_browser_gui/MainWindow.cpp:185-232 | the conversion succeeds exactly when waitForFinished succeeds, the exit is normal and the temp file is non-empty; on success the temp file holds what the transcoder wrote (or a stale non-empty file), on failure it is removed |
| `OffsetCell.FirstIndex` | utils/hevc_es_browser_gui/MainWindow.cpp:138 | indexOf('('): the first position holding the character, or the length when there is none |
| `OffsetCell.RemoveAll` | utils/hevc_es_browser_gui/MainWindow.cpp:141 | remove(")"): no ')' is left and every other character survives |
| `OffsetCell.ToULongLong` | utils/hevc_es_browser_gui/MainWindow.cpp:142 | toULongLong: below 2^64; a non-empty run of decimal digits whose value fits reads as that value (leading zeros included), and any other text reads as 0 |
| `OffsetCell.Decimal` | utils/hevc_es_browser_gui/MainWindow.cpp:143 | QString::number: a non-empty run of decimal digits without a leading zero |
| `OffsetCell.DecimalRoundTrip` | utils/hevc_es_browser_gui/MainWindow.cpp:142-143 | the digits QString::number writes have the value written |
| `OffsetCell.ToULongLongOfDecimal` | utils/hevc_es_browser_gui/MainWindow.cpp:142-143 | toULongLong reads back any 64-bit value QString::number wrote |
| `OffsetCell.OffsetRecovered` | utils/hevc_es_browser_gui/MainWindow.cpp:137-142 | a cell "<caption>(N)" whose caption has no '(' yields the offset N |
| `OffsetCell.LengthCellValue` | utils/hevc_es_browser_gui/MainWindow.cpp:143 | the length cell reads back as `position - offset`, or as that plus 2^64 when the offset lies beyond `position` (size_t wrap) |
| `Console.IsMp4` | utils/hevc_es_browser_console/src/main.cpp:67-71 | true exactly when the path ends in `.mp4` or `.MP4`, so paths shorter than 4 characters are false |
| `Console.IsMp4Spellings` | utils/hevc_es_browser_console/src/main.cpp:69-70 | `.mp4` and `.MP4` names are MP4; mixed-case `.Mp4` and `.mP4` are not |
| `Console.Fread` | utils/hevc_es_browser_console/src/main.cpp:43-50 | one fread puts the read's bytes at the front of the 4096-byte scratch buffer and returns their count |
| `Console.ConvertToH265Pipe` | utils/hevc_es_browser_console/src/main.cpp:22-64 | a failed popen returns false and leaves the buffer untouched; otherwise the buffer ends up holding exactly the captured reads, and the result is true iff the close code is 0 |
| `Console.CapturedStopsAtFirstEmpty` | utils/hevc_es_browser_console/src/main.cpp:50-52 | reading stops at the first empty read; nothing after it is captured |
| `Console.CapturedIsPrefix` | utils/hevc_es_browser_console/src/main.cpp:50-52 | the capture is an in-order prefix of everything the pipe produced, and all of it when no read is empty |
| `Console.CapturedUpTo` | utils/hevc_es_browser_console/src/main.cpp:48-50 | when the first reads returned bytes and the next returned none, the capture is exactly those reads, concatenated in order |
| `Console.CapturedBound` | utils/hevc_es_browser_console/src/main.cpp:43-51 | at most 4096 bytes are captured per read |
| `Console.OutputOverInput` | utils/hevc_es_browser_console/src/main.cpp:142-154 | an output that opens and has the input's path string leaves that input present and empty when it is opened |
| `Console.RunConsole` | utils/hevc_es_browser_console/src/main.cpp:102-229 | exit codes in check order: an option-parsing exception gives 1, help 0, no input 1, an output that will not open 2, an input that will not open (after the output has been created or truncated) 2; past the checks, the parser gets the non-empty capture (even after a failed conversion) or else the input file, always with the input file's size as the length; 3 when there is no data, and 1 or 0 depending on whether ingestion throws |

## Left out

- Qt presentation is not modelled: toolbar, menus, dialogs, message boxes, the progress-bar and progress-dialog widgets, drag-and-drop, the `slotShow*` slots, `slotAbout` and the window title. The only part kept is the answer of each `isVisible()` poll.
- QSettings persistence is not modelled: the previous directory written by `openFile` and the geometry. It is configuration with no logic.
- The HEVC parser's internals and its consumers are external. The parser is a function returning `Step(accepted, rows)`. Consumers show up only as the rows they append to the info table. Clearing the other viewers in `openFile` is not modelled.
- Ingestion.ParserContract: the model requires that the parser never accepts more than the window, and accepts something of every full window that does not reach end of file. A parser that accepts nothing of such a window makes the source read the same window again, and it keeps doing so until the user closes the progress bar. Those runs are excluded, including the ones the user ends by cancelling.
- Ingestion.MainWindow.ReadWindows: `QCoreApplication::processEvents` is modelled as running no handler of this window other than the progress bar's close, seen as the next `isVisible()` answer. A nested `openFile` during a run (the toolbar's Open or a drop while the non-modal progress bar is up) is excluded; it would clear the table, run its own `process` and could rewrite or remove the temp file the outer loop is reading.
- Console.RunConsole: a path string is a file's identity. Two spellings of one file (`./x`, a symlink, a hard link) are modelled as two files, so an output that reaches the input under another spelling is not seen to truncate it.
- Ingestion.Run: `position` is an unbounded natural. The size_t overflow of `position * 100` only happens for files over 2^64/100 bytes and is not modelled.
- OffsetCell.ToULongLong: QString::toULongLong also accepts surrounding whitespace and a leading '+'. The model reads such text as 0.
- Running the transcoder (QProcess, popen/pclose) and real file I/O are not modelled. What they report is an input: `Ffmpeg` for the GUI, `PipeRun` for the console. A `waitForFinished` that times out after its default 30 seconds appears as `finished == false`, the same as a failed launch.
- The transcoder command line is not modelled. It is unescaped shell text.
- cxxopts option parsing is reduced to `Option<Args>`, with None for a parse exception. The writer's output and the `--altwriter` choice are not modelled, because the writers are external.
- Exceptions are modelled only at two points: option parsing, and the parser or writer throwing (`ingestThrows`). Allocation failure inside the capture is not modelled.
- `main2` is not modelled. It is a hard-coded demo of the same conversion path.
- The fallback read in `main` reads into `data()` of a vector whose size is 0. It is modelled only as the choice of the input file as the source (`Source.InputFile`).
