# ReceiptSweeper core, modelled in Dafny

ReceiptSweeperMac is a 10×10 minesweeper game for macOS that prints a receipt
after every move on a Bluetooth thermal printer. The player types a cell
such as `C7` and picks an action, test or flag. The game applies the move,
and the board is formatted as text. The text is rendered to a
1-bit raster 384 pixels wide and streamed to the printer as framed commands,
with flow control.

This project models the deterministic core of that pipeline and proves its
properties:

| file | module | models |
|---|---|---|
| `wrappers.dfy` | `Wrappers` | the `Option` result type |
| `sequences.dfy` | `Sequences` | facts about concatenation used by the job controller and the formatter |
| `text.dfy` | `Text` | decimal interpolation `"\(n)"`, `Int(_:)` on digits, ASCII `uppercased()` |
| `protocol.dfy` | `Protocol` | CRC-8 (`calculateCRC8`), the command frame written by `sendCommand`, the flow-control test of the notification handler |
| `print_job.dfy` | `PrintJob` | the print-job controller (`printImageLines`, `sendNextChunk`, `finishPrintJob`, pause/resume), as a pure state machine over events |
| `printer.dfy` | `Printer` | class `BluetoothPrinterManager` with the fields `dataQueue`, `isPaused` and `isPrinting`; each method is proved to do what the `PrintJob` function of the same name does |
| `raster.dfy` | `Raster` | `reverseByte` and the threshold/pack/reverse loop of `renderTextToPrinterLines`, over a given grayscale canvas |
| `minesweeper.dfy` | `Minesweeper` | class `MinesweeperGame`: `init`/`reset`, `getAdjacentMines`, `floodReveal`, `checkWinCondition`, `applyAction` |
| `receipt_formatter.dfy` | `ReceiptFormatter` | `cellToken`, `charLabel`, `formatBoard` |
| `coordinate_input.dfy` | `CoordinateInput` | the trimming and uppercasing in `performMove`, and `parseCoordinate` |

Where the source changes state in place, the model does too:

- `BluetoothPrinterManager` and `MinesweeperGame` are classes whose methods
  assign their fields.
- The CRC, the packing loop, `getAdjacentMines`, the flood fill, the win count
  and `formatBoard` are methods with loops. Each loop except the flood fill
  is proved against a specification function. The flood fill is proved
  against the predicate `Flooded`, and `FloodDetermined` shows that at most one
  board meets it, so the contract fixes the result.
- The packing loop ORs bits into a byte array in place.

Properties of those specification functions are proved as lemmas.

## Model

| member | source | states |
|---|---|---|
| Protocol.CalculateCrc8 | ReceiptSweeperMac/BluetoothPrinterManager.swift:203-216 | The byte loop with its eight shift/XOR-0x07 rounds computes `Crc8(data)`: each byte is XORed into the register, followed by eight rounds. |
| Protocol.Crc8Empty | ReceiptSweeperMac/BluetoothPrinterManager.swift:204 | The checksum of the empty payload is the initial value 0. |
| Protocol.Crc8CheckValue | ReceiptSweeperMac/BluetoothPrinterManager.swift:203-216 | The parameter set is CRC-8/SMBUS: ASCII "123456789" gives 0xF4. |
| Protocol.Crc8Residue | ReceiptSweeperMac/BluetoothPrinterManager.swift:203-216 | The checksum of the data followed by its own checksum is 0. |
| Protocol.Crc8DetectsSingleByteError | ReceiptSweeperMac/BluetoothPrinterManager.swift:203-216 | Changing any single byte of the data changes the checksum. |
| Protocol.EncodePacket | ReceiptSweeperMac/BluetoothPrinterManager.swift:188-198 | A frame is 8 bytes longer than its payload. The payload must fit the one-byte length field. |
| Protocol.PacketLayout | ReceiptSweeperMac/BluetoothPrinterManager.swift:188-198 | The frame is `51 78 cmd 00 len 00`, then the payload, `crc8(payload)` and `FF`, with byte 4 equal to the payload length. |
| Protocol.ChecksumCoversPayloadOnly | ReceiptSweeperMac/BluetoothPrinterManager.swift:196 | Two frames with the same payload agree in every byte except the command byte, including the checksum byte. |
| Protocol.ParseEncode | ReceiptSweeperMac/BluetoothPrinterManager.swift:188-198 | Parsing an encoded frame gives back its command and payload. |
| Protocol.EncodeParse | ReceiptSweeperMac/BluetoothPrinterManager.swift:188-198 | Every byte string the parser accepts is exactly the encoding of what it returns. |
| Protocol.ClassifyNotification | ReceiptSweeperMac/BluetoothPrinterManager.swift:117-124 | Pause if and only if there are at least 9 bytes, starting `51 78 AE 01`, with bytes 6,7 = `10 70`. Resume if and only if the same holds with `00 00`. Everything else is ignored. |
| Protocol.ClassificationIgnoresOtherBytes | ReceiptSweeperMac/BluetoothPrinterManager.swift:117-124 | Only bytes 0–3, 6 and 7 decide the classification. |
| Protocol.OutboundFrameIsNotFlowControl | ReceiptSweeperMac/BluetoothPrinterManager.swift:117-124 | No outbound frame is ever classified as pause or resume. |
| Protocol.FramesParseBack | ReceiptSweeperMac/BluetoothPrinterManager.swift:185-201 | The i-th frame written parses back to the i-th command sent. |
| Protocol.FramesAppend | ReceiptSweeperMac/BluetoothPrinterManager.swift:185-201 | The frames for `a + b` are the frames for `a` followed by those for `b`. |
| PrintJob.FinishPrintJob | ReceiptSweeperMac/BluetoothPrinterManager.swift:170-181 | Every teardown command it sends fits a frame. |
| PrintJob.SendNextChunk | ReceiptSweeperMac/BluetoothPrinterManager.swift:153-168 | If the queued rows fit a frame, they still do afterwards, and every command sent fits a frame. |
| PrintJob.PrintImageLines | ReceiptSweeperMac/BluetoothPrinterManager.swift:129-151 | If the queued rows and `lines` fit a frame, the new queue does, and every command sent fits a frame. |
| PrintJob.Tick | ReceiptSweeperMac/BluetoothPrinterManager.swift:165-167 | If the queued rows fit a frame, they still do afterwards, and every command sent fits a frame. |
| PrintJob.Notify | ReceiptSweeperMac/BluetoothPrinterManager.swift:112-125 | If the queued rows fit a frame, they still do afterwards, and every command sent fits a frame. |
| PrintJob.RunPendingClear | ReceiptSweeperMac/BluetoothPrinterManager.swift:178-180 | If the queued rows fit a frame, they still do afterwards, and nothing unencodable is sent. |
| PrintJob.ControlCommandsDrawNothing | ReceiptSweeperMac/BluetoothPrinterManager.swift:134-147 | The seven setup commands and the three teardown commands send no row. |
| PrintJob.DrawsOfBitmapCommands | ReceiptSweeperMac/BluetoothPrinterManager.swift:161-162 | The rows sent as DRAW_BITMAP payloads are the given rows, in order. |
| PrintJob.SendNextChunkBehaviour | ReceiptSweeperMac/BluetoothPrinterManager.swift:153-168 | Not paused with rows left: removes exactly the first row, sends it as one DRAW_BITMAP and schedules one more call. Paused with rows left: changes nothing. Empty queue: tears down if and only if printing. The flags are kept. |
| PrintJob.PrintImageLinesBehaviour | ReceiptSweeperMac/BluetoothPrinterManager.swift:129-151 | Without TX: nothing changes and nothing is sent. With TX: sends the seven setup commands first, and leaves the job printing and unpaused. The rows sent, followed by the rows queued, are exactly `lines` (the queue is replaced). |
| PrintJob.PrintImageLinesStart | ReceiptSweeperMac/BluetoothPrinterManager.swift:129-151 | A request sends setup plus the first row, or setup plus teardown when `lines` is empty. The resulting job is given exactly. |
| PrintJob.TickBehaviour | ReceiptSweeperMac/BluetoothPrinterManager.swift:165-167 | A tick with nothing scheduled does nothing. Otherwise it is one `sendNextChunk`, and a paused job with rows left sends nothing. |
| PrintJob.NotifyBehaviour | ReceiptSweeperMac/BluetoothPrinterManager.swift:112-125 | Pause only sets the flag. Any frame that is neither pause nor resume changes nothing and sends nothing. Resume clears the flag. |
| PrintJob.ResumeSendsNextRow | ReceiptSweeperMac/BluetoothPrinterManager.swift:120-122 | Resume on a paused job with rows left sends exactly the next row and unpauses. |
| PrintJob.RunPendingClearBehaviour | ReceiptSweeperMac/BluetoothPrinterManager.swift:178-180 | The deferred clear sends nothing, keeps the queue and the pause flag, and clears `isPrinting` when one was pending. |
| PrintJob.StepConservesRows | ReceiptSweeperMac/BluetoothPrinterManager.swift:153-168 | For any event, the rows sent followed by the new queue are the old queue. |
| PrintJob.RunConservesRows | ReceiptSweeperMac/BluetoothPrinterManager.swift:153-168 | For any interleaving of ticks, notifications and main-queue runs, no row is lost, duplicated or reordered. |
| PrintJob.RunEncodable | ReceiptSweeperMac/BluetoothPrinterManager.swift:192 | When every row fits a frame, so does every command sent. |
| PrintJob.PausedJobSendsNoRows | ReceiptSweeperMac/BluetoothPrinterManager.swift:154-159 | A paused job sends no row, keeps its queue and stays paused until a resume frame arrives, whatever the other events. |
| PrintJob.DrainWithoutPause | ReceiptSweeperMac/BluetoothPrinterManager.swift:153-181 | With one tick scheduled and no flow control, the timer sends the queued rows in order, then the teardown. |
| PrintJob.NoPauseJob | ReceiptSweeperMac/BluetoothPrinterManager.swift:129-181 | A job of N rows without flow control sends setup, then the N rows in order, then teardown. An empty job sends setup then teardown. |
| PrintJob.NoPauseJobCount | ReceiptSweeperMac/BluetoothPrinterManager.swift:129-181 | That job sends 10 + N commands. |
| PrintJob.NoPauseJobEndsIdle | ReceiptSweeperMac/BluetoothPrinterManager.swift:153-181 | Afterwards the queue is empty, no tick is scheduled and one deferred clear is pending. |
| Printer.BuildPacket | ReceiptSweeperMac/BluetoothPrinterManager.swift:188-198 | The successive appends plus the CRC loop build exactly `EncodePacket(cmd, payload)`. |
| Printer.WireAppend | ReceiptSweeperMac/BluetoothPrinterManager.swift:186 | What goes out for two command lists in a row is what goes out for each. |
| Printer.BluetoothPrinterManager.constructor | ReceiptSweeperMac/BluetoothPrinterManager.swift:14-33 | The queue starts empty, not paused and not printing, with nothing sent. |
| Printer.BluetoothPrinterManager.DidDisconnect | ReceiptSweeperMac/BluetoothPrinterManager.swift:82-86 | The TX characteristic is dropped. The job and the log are unchanged. |
| Printer.BluetoothPrinterManager.SendCommand | ReceiptSweeperMac/BluetoothPrinterManager.swift:185-201 | One command is logged if the peripheral and TX are bound, otherwise nothing. |
| Printer.BluetoothPrinterManager.SendSetup | ReceiptSweeperMac/BluetoothPrinterManager.swift:134-147 | The seven setup commands are logged, in order. |
| Printer.BluetoothPrinterManager.PrintImageLines | ReceiptSweeperMac/BluetoothPrinterManager.swift:129-151 | The new fields and the log extension are exactly those of `PrintJob.PrintImageLines`. |
| Printer.BluetoothPrinterManager.SendNextChunk | ReceiptSweeperMac/BluetoothPrinterManager.swift:153-168 | The new fields and the log extension are exactly those of `PrintJob.SendNextChunk`. |
| Printer.BluetoothPrinterManager.FinishPrintJob | ReceiptSweeperMac/BluetoothPrinterManager.swift:170-181 | Logs the three teardown commands and defers one `isPrinting = false`. |
| Printer.BluetoothPrinterManager.Tick | ReceiptSweeperMac/BluetoothPrinterManager.swift:165-167 | One scheduled `sendNextChunk` runs, as `PrintJob.Tick`. |
| Printer.BluetoothPrinterManager.OnNotify | ReceiptSweeperMac/BluetoothPrinterManager.swift:112-125 | The flow-control branch does exactly what `PrintJob.Notify` does. |
| Printer.BluetoothPrinterManager.RunPendingClear | ReceiptSweeperMac/BluetoothPrinterManager.swift:178-180 | The deferred clear does exactly what `PrintJob.RunPendingClear` does. |
| Raster.MaskIsShift | ReceiptSweeperMac/TextRenderer.swift:75 | The bit table used by the model is the shift `1 << i`. |
| Raster.ReverseByte | ReceiptSweeperMac/TextRenderer.swift:88-94 | For each of the eight bits, bit i of the result is bit 7−i of the input. |
| Raster.ReverseByteMirrorsBits | ReceiptSweeperMac/TextRenderer.swift:88-94 | Bit i of `reverseByte(b)` is bit 7−i of b. |
| Raster.ReverseByteInvolution | ReceiptSweeperMac/TextRenderer.swift:88-94 | `reverseByte(reverseByte(b)) == b`. |
| Raster.ReverseByteExamples | ReceiptSweeperMac/TextRenderer.swift:88-94 | 0x80 ↔ 0x01, and 0x00 and 0xFF are fixed. |
| Raster.ReverseBytePreservesPopCount | ReceiptSweeperMac/TextRenderer.swift:88-94 | The reversal keeps the number of set bits. |
| Raster.MsbPackBits | ReceiptSweeperMac/TextRenderer.swift:70-76 | MSB-first packing sets bit i exactly when pixel 7−i is ink (< 128). |
| Raster.PackRows | ReceiptSweeperMac/TextRenderer.swift:63-85 | The row loop returns exactly `PackedImage`: one packed row per canvas row, top first. |
| Raster.PackRow | ReceiptSweeperMac/TextRenderer.swift:67-82 | One iteration yields exactly `PackedRow`. |
| Raster.ThresholdRow | ReceiptSweeperMac/TextRenderer.swift:68-77 | After the pixel loop, each byte holds its eight pixels packed MSB first. |
| Raster.ReverseBytesInPlace | ReceiptSweeperMac/TextRenderer.swift:79-81 | The in-place pass turns the array into `PackedRow`, each byte bit-reversed. |
| Raster.PackedImage | ReceiptSweeperMac/TextRenderer.swift:66-82 | As many output rows as canvas rows. |
| Raster.PackedRow | ReceiptSweeperMac/TextRenderer.swift:64-67 | Every row has `width / 8` bytes. |
| Raster.PrinterRowsAre48Bytes | ReceiptSweeperMac/TextRenderer.swift:14 | At width 384 every row has 48 bytes. |
| Raster.PackedImageBits | ReceiptSweeperMac/TextRenderer.swift:66-82 | Bit `x % 8` of byte `x / 8` of output row y is set if and only if canvas pixel (x, y) is below 128. |
| Raster.WhiteRowPacksToZeros | ReceiptSweeperMac/TextRenderer.swift:67-80 | A row without ink packs to all-zero bytes. |
| Raster.PackedRowCountsInk | ReceiptSweeperMac/TextRenderer.swift:67-80 | A row's set-bit count equals its number of ink pixels. |
| Minesweeper.IndexRoundTrip | ReceiptSweeperMac/MinesweeperGame.swift:31 | The index `y * 10 + x` of an on-board cell is in 0..<100 and decodes back to the cell. |
| Minesweeper.SetCell | ReceiptSweeperMac/MinesweeperGame.swift:142 | Assigning `board[y][x]` changes that cell and no other. |
| Minesweeper.FreshBoard | ReceiptSweeperMac/MinesweeperGame.swift:34 | The new board is 10×10 and all hidden. |
| Minesweeper.AdjacentMines | ReceiptSweeperMac/MinesweeperGame.swift:57-72 | The count of mines around a cell is at most 8. |
| Minesweeper.AdjacentMinesIgnoresSelf | ReceiptSweeperMac/MinesweeperGame.swift:61 | A mine on the cell itself is never counted. |
| Minesweeper.EdgeDoesNotWrap | ReceiptSweeperMac/MinesweeperGame.swift:64 | In the last column, the next index (first cell of the next row) is not counted. |
| Minesweeper.MinesAroundLocal | ReceiptSweeperMac/MinesweeperGame.swift:57-72 | The count depends only on the on-board neighbours. |
| Minesweeper.NoMinesAround | ReceiptSweeperMac/MinesweeperGame.swift:57-72 | A count of 0 means no on-board neighbour holds a mine. |
| Minesweeper.RevealedState | ReceiptSweeperMac/MinesweeperGame.swift:88-91 | A safe cell shows `.empty` exactly when its count is 0, and `.revealed(n)` with 0 < n ≤ 8 otherwise. |
| Minesweeper.RevealsOnlyKeepsConsistent | ReceiptSweeperMac/MinesweeperGame.swift:74-107 | Opening hidden safe cells keeps the board consistent with the mines and free of explosions. |
| Minesweeper.WinMeansAllSafeCellsOpen | ReceiptSweeperMac/MinesweeperGame.swift:109-122 | With no explosion: 15 hidden or flagged cells if and only if every safe cell is open. |
| Minesweeper.ToggleFlag | ReceiptSweeperMac/MinesweeperGame.swift:160-169 | The state changes exactly for hidden and flagged cells, and covered stays covered. |
| Minesweeper.FlagTwiceRestores | ReceiptSweeperMac/MinesweeperGame.swift:160-169 | Flagging twice restores any cell. |
| Minesweeper.EnqueuedCovers | ReceiptSweeperMac/MinesweeperGame.swift:92-104 | After the neighbour scan, every neighbour is visited, open or queued. |
| Minesweeper.MinesweeperGame.constructor | ReceiptSweeperMac/MinesweeperGame.swift:33-36 | All hidden, both flags false, the given 15-mine set. |
| Minesweeper.MinesweeperGame.Reset | ReceiptSweeperMac/MinesweeperGame.swift:38-43 | All hidden, both flags false, the given 15-mine set, invariant restored. |
| Minesweeper.MinesweeperGame.GetAdjacentMines | ReceiptSweeperMac/MinesweeperGame.swift:57-72 | The two offset loops compute `AdjacentMines`. |
| Minesweeper.MinesweeperGame.EnqueueNeighbours | ReceiptSweeperMac/MinesweeperGame.swift:92-104 | The queue is extended by exactly the unvisited hidden on-board neighbours, in loop order. |
| Minesweeper.MinesweeperGame.FloodReveal | ReceiptSweeperMac/MinesweeperGame.swift:74-107 | Terminates. Only hidden safe cells change, each to its revealed state. The start cell is opened. Every cell turned blank is left with no hidden neighbour. The opened cells can be listed so that each is the start or touches an earlier one that came out blank, so nothing beyond the blanks' reach is opened. |
| Minesweeper.FloodDetermined | ReceiptSweeperMac/MinesweeperGame.swift:74-107 | Two boards that both meet the flood's contract from the same start on the same board are equal: the contract determines the flood's result. |
| Minesweeper.SingleOpen | ReceiptSweeperMac/MinesweeperGame.swift:146-148 | Opening a hidden safe cell with a nonzero count, and nothing else, is the flood from that cell. |
| Minesweeper.SafeTestDetermined | ReceiptSweeperMac/MinesweeperGame.swift:145-157 | A safe test's new board, and so whether it wins, is determined by the board before it. |
| Minesweeper.MinesweeperGame.Visit | ReceiptSweeperMac/MinesweeperGame.swift:79-83 | One dequeue keeps the flood invariant and makes progress (fewer queued or more visited). |
| Minesweeper.MinesweeperGame.OpenCell | ReceiptSweeperMac/MinesweeperGame.swift:85-105 | The dequeued cell shows its count, is marked visited, and its hidden neighbours are queued when it is blank. |
| Minesweeper.MinesweeperGame.CountHiddenOrFlagged | ReceiptSweeperMac/MinesweeperGame.swift:110-117 | The counting loops return the number of hidden or flagged cells. |
| Minesweeper.MinesweeperGame.CheckWinCondition | ReceiptSweeperMac/MinesweeperGame.swift:109-123 | Sets `isWon` and `isGameOver` exactly when 15 cells are covered, and keeps `isWon ⇒ isGameOver`. |
| Minesweeper.MinesweeperGame.ApplyAction | ReceiptSweeperMac/MinesweeperGame.swift:125-171 | Game over is absorbing. Flag toggles one cell. Testing a flagged or open cell changes nothing. Testing a mine explodes only that cell and ends the game unwon. A safe test leaves the flood from the tested cell (only that cell when its count is nonzero), a board that `SafeTestDetermined` shows is unique. It wins exactly at 15 covered cells. Every message is given. |
| ReceiptFormatter.CellToken | ReceiptSweeperMac/ReceiptFormatter.swift:4-13 | Every token is non-empty, and a revealed count prints as its decimal digits. |
| ReceiptFormatter.CellTokenInjective | ReceiptSweeperMac/ReceiptFormatter.swift:4-13 | Different cell states never print the same token. |
| ReceiptFormatter.NarrowTokens | ReceiptSweeperMac/ReceiptFormatter.swift:4-13 | A token is one character exactly for the non-count states and counts 0–9. |
| ReceiptFormatter.ReadTokenRoundTrip | ReceiptSweeperMac/ReceiptFormatter.swift:4-13 | A one-character token reads back as its cell. |
| ReceiptFormatter.CharLabel | ReceiptSweeperMac/ReceiptFormatter.swift:15-17 | The label is the single character with code 65 + index. The force-unwrap requires a valid scalar. |
| ReceiptFormatter.RowLabels | ReceiptSweeperMac/ReceiptFormatter.swift:15-17 | Rows 0–9 are labelled A–J. |
| ReceiptFormatter.HeaderText | ReceiptSweeperMac/ReceiptFormatter.swift:25 | The header is `"   0 1 2 3 4 5 6 7 8 9\n"`. |
| ReceiptFormatter.ActionWords | ReceiptSweeperMac/ReceiptFormatter.swift:36 | The uppercased action words are TEST and FLAG. |
| ReceiptFormatter.FormatBoard | ReceiptSweeperMac/ReceiptFormatter.swift:19-42 | The appending loop builds exactly `Receipt`: header, ten board lines, blank line, ACTION, STATUS, TIME, rule. It needs at least ten rows. |
| ReceiptFormatter.Receipt | ReceiptSweeperMac/ReceiptFormatter.swift:39 | Every receipt ends with the rule: 25 dashes and three newlines. |
| ReceiptFormatter.ReceiptStartsWithHeader | ReceiptSweeperMac/ReceiptFormatter.swift:25 | Every receipt begins with the header. |
| ReceiptFormatter.ReceiptEndsWithRule | ReceiptSweeperMac/ReceiptFormatter.swift:37-39 | Every receipt ends with the STATUS line, the TIME line, 25 dashes and three newlines. |
| ReceiptFormatter.ActionLineText | ReceiptSweeperMac/ReceiptFormatter.swift:36 | The move line is `ACTION: TEST|FLAG @ <letter><digit>`. |
| ReceiptFormatter.BoardLineLayout | ReceiptSweeperMac/ReceiptFormatter.swift:29-31 | On a printable board each board line has 23 characters, with the letter at column 1 and cell x at column 3 + 2x. |
| ReceiptFormatter.ReceiptShowsCell | ReceiptSweeperMac/ReceiptFormatter.swift:28-32 | Cell (x, y) sits at offset 23 + 23y + 3 + 2x of the receipt and reads back as that cell. |
| ReceiptFormatter.ConsistentIsPrintable | ReceiptSweeperMac/ReceiptFormatter.swift:11 | Every board the game can reach has single-digit counts, so it lays out on the grid. |
| Text.Decimal | ReceiptSweeperMac/ReceiptFormatter.swift:11 | `"\(n)"` is non-empty and all digits, with a leading `-` when n is negative. It is a single digit if and only if 0 ≤ n < 10. |
| Text.DecimalInjective | ReceiptSweeperMac/ReceiptFormatter.swift:11 | `"\(n)"` never writes the same text for two numbers. |
| Text.ParseNatDigits | ReceiptSweeperMac/ContentView.swift:327 | `Int(_:)` reads back the digits interpolation writes. |
| Text.Upper | ReceiptSweeperMac/ContentView.swift:287 | Uppercasing keeps the length and maps each character on its own, `a`–`z` to `A`–`Z`. |
| Text.UpperIdempotent | ReceiptSweeperMac/ContentView.swift:287 | Uppercasing twice is uppercasing once. |
| CoordinateInput.Trim | ReceiptSweeperMac/ContentView.swift:287 | The trimmed text is no longer than the input, and neither starts nor ends with whitespace. |
| CoordinateInput.TrimRemovesOnlySpaces | ReceiptSweeperMac/ContentView.swift:287 | The trimmed text is one contiguous slice of the input, with only whitespace before and after it. |
| CoordinateInput.Normalize | ReceiptSweeperMac/ContentView.swift:287 | The normalised input holds no lower-case letter. |
| CoordinateInput.ReadMove | ReceiptSweeperMac/ContentView.swift:287-289 | A move read from typed text is always on the board. |
| CoordinateInput.ParseCoordinate | ReceiptSweeperMac/ContentView.swift:314-345 | Every returned coordinate is on the board. |
| CoordinateInput.ParseAcceptsExactly | ReceiptSweeperMac/ContentView.swift:315-344 | Accepted if and only if the input is two characters: a row letter A–J (either case) and a digit, in either order. |
| CoordinateInput.ParseReadsLetterAndDigit | ReceiptSweeperMac/ContentView.swift:322-331 | Letter then digit gives `Coordinate(x: digit, y: letter − 'A')`. |
| CoordinateInput.ParseEitherOrder | ReceiptSweeperMac/ContentView.swift:332-341 | "A3" and "3A" give the same result. |
| CoordinateInput.ParseIgnoresCase | ReceiptSweeperMac/ContentView.swift:316-318 | Uppercasing the input does not change the result. |
| CoordinateInput.ParseRejects | ReceiptSweeperMac/ContentView.swift:344 | Any length but two, two digits, and letters K–Z give nil. |
| CoordinateInput.LabelParsesBack | ReceiptSweeperMac/ContentView.swift:314-345 | The cell named on a receipt's ACTION line parses back as that cell, in either order. |
| CoordinateInput.ReceiptCoordinateRoundTrip | ReceiptSweeperMac/ContentView.swift:287-289 | That text, typed with any whitespace around it, reads back as the cell. |

## Left out

- CoreBluetooth scanning, connection and discovery (BluetoothPrinterManager.swift:35-110) are left out. Whether a peripheral and its TX characteristic are bound is a pair of booleans. `writeValue` is an append to the ghost log `sent` of commands; the bytes on the wire are `Frames(sent)`, and `Printer.BuildPacket` is proved to build them.
- The `DispatchQueue.main.asyncAfter` pacing and the `DispatchQueue.main.async` clear of `isPrinting` are counters of pending callbacks (`pendingTicks`, `pendingClears`). They are run by `Tick` and `RunPendingClear` in any order the caller chooses. Real time, the 10 ms delay and concurrency with other main-queue work are not modelled.
- Resume while not paused: the source starts a second `sendNextChunk` chain in that case. The model allows it as an ordinary interleaving and claims neither a single chain nor at most one teardown per job.
- `rxCharacteristic`, `connectionState` and `discoveredPeripherals` are bookkeeping for the UI and are not modelled.
- Protocol.EncodePacket: requires a payload of at most 255 bytes, because `UInt8(payload.count)` traps beyond that. The rows the printer class queues are required to fit for the same reason.
- Text drawing with AppKit, the font, the CGFloat height computation and the bitmap context (TextRenderer.swift:16-61) are left out. The grayscale canvas, its width and its height are inputs.
- Raster.PackRows: requires the width to be a multiple of 8. The source always uses 384; with another width the pixel loop would index one byte past `rowBytes` and trap.
- `Int.random` mine placement is left out. The mine set is a parameter of `init` and `reset`, required to be 15 distinct indices in 0..<100, the set the `placeMines` loop leaves behind.
- `DateFormatter` and `Date()` are left out. The timestamp is a parameter of `FormatBoard`.
- NSRegularExpression is written out as the two character shapes it accepts.
- ICU's `$` also matches before a final line terminator, so `parseCoordinate("A3\n")` succeeds in the source but not in `ParseCoordinate`. The caller trims such terminators first, so `ReadMove` is unaffected.
- `\d` is restricted to ASCII digits. ICU also matches other Unicode decimal digits, for which the source's `Int(digitPart)!` would trap.
- `uppercased()` is modelled for ASCII letters only. Other characters are left as they are; Unicode case mapping (for instance `ß` to `SS`) is not modelled.
- CoordinateInput.ReceiptCoordinateRoundTrip: covers the letter-then-digit text the receipt prints, with whitespace around it. The reverse order is covered by `LabelParsesBack` without padding.
- The SwiftUI views, `Color(hex:)`, `fileLog` and the rest of ContentView.swift are not part of this model. `performMove` is modelled only as far as the trimming, uppercasing and parsing of the input.
