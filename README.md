# Adafruit thermal printer library: pacing and flow control

This project is a Dafny model of the part of the Adafruit thermal printer
library (`Adafruit_Thermal.cpp`) that decides when bytes go to the printer:

- **The byte queue.** Every command encoder hands its bytes to
  `storeInBuffer`. That function drops CR bytes, appends the rest to
  `internalBuffer`, keeps a column counter, and pushes the estimated
  completion time `resumeTime` forward by the byte's cost. The cost is one
  byte time, or a whole text or blank line at a line end.
- **Draining.** Each call of `loop()` moves at most one queued byte onto the
  serial port, once the driver's gate opens. `loop()` also runs the
  paper-status poll that `askForPaperAvailability` starts and `hasPaper`
  reports.
- **Timing.** `timeoutSet` records a deadline. `timeoutWait` waits for it
  with a rollover-proof test, or waits for the DTR line when hardware
  handshaking is on.
- **Bitmaps.**
  - `printBitmap` and `defineBitImage` first check that there is memory to
    reserve. They then queue a header and every bitmap byte.
  - The three `printBitmap_ada` overloads send the bitmap in chunks. Each
    chunk's header goes through the queue. Its rows go straight to the
    serial port, clipped to 48 bytes, and a row cap is chosen from an
    assumed 256-byte printer buffer.
- **The encoders.** Justification, size, print mode, line height, tab,
  feeds, reset, test page, barcode, QR code, underline, character set and
  code page. Each is modelled with its clamps, and with the text metrics it
  changes for the timing estimate.

It also models `python/image_to_file.py`. That script packs a 1-bit image
eight pixels to a byte, leftmost pixel in the most significant bit, with
rows padded to whole bytes. It then writes the bytes as the body of a C
array, twelve to a line.

## How the model is built

- **Modules.**
  - `Ints`: the fixed-width integer types and the 8-bit and 32-bit
    truncations.
  - `Timing`: `BYTE_TIME`, the deadline `timeoutSet` stores, the
    `timeoutWait` test and the gate of `loop()`.
  - `Pacing`: `storeInBuffer` as a function on snapshots of the fields it
    reads (`Knobs`) and changes (`Cursor`), folded over byte sequences
    (`StoreAll`). `Stripped` is the CR filter on the queue.
  - `Commands`: the pure argument clamps and mappings.
  - `Chunking`: the chunk planner of `printBitmap_ada`.
  - `Poll`: the paper poll as a step function.
  - `Printer`: the `Adafruit_Thermal` object as a class.
  - `ImageToFile`: the Python packer and formatter.
- **Methods are proved against functions.** The class's methods change
  their fields in place. Each states its new state as a function of the old
  state: `internalBuffer == old(internalBuffer) + Stripped(bytes)` and
  `Pos() == StoreAll(Params(), old(Pos()), bytes, now)`. The lemmas of
  `Pacing`, `Timing`, `Chunking` and `Poll` then establish what those
  functions mean.
- **Inputs from the outside world are parameters.**
  - Clock readings (`micros()`, `millis()`) are `now`, `nowMicros` and
    `nowMillis`.
  - The DTR level sampled by `timeoutWait` is a sequence of `Sample`s.
  - The reply byte of the printer is an `Option<uint8>`.
  - A byte stream is the sequence of bytes it delivers.
  - `AVAILABLE_MEM` and `EXCESS_BYTES` are `availableMem` and `excessBytes`.
  - The serial port is the field `wire`, the bytes written so far.
- **Integer widths are explicit.** `uint8_t` fields wrap modulo 256 and
  `unsigned long` clock arithmetic wraps modulo 2^32.
- **Source behaviour that looks unintended is modelled as written.** Each
  quirk is stated as a lemma:
  - the drain gate of `loop()` tests an unsigned difference against 0, so
    it is open at every clock reading except the deadline itself: outside
    that one tick the drain ignores the deadline, and the DTR line too;
  - the timeout branch of the paper poll is unreachable;
  - the poll counter is never reset after ten misses;
  - `prevmillis` is never assigned;
  - storeInBuffer drops parameter bytes equal to 13 (CR), so a feed of 13
    lines, a character set of 13 and 97-104 pixel wide bitmaps send broken
    commands;
  - `tab` can move the column past the page width;
  - `reset` leaves the column at 6;
  - `printBitmap_ada` queues its chunk headers for loop() to drain but
    writes the row data straight to the port, so the data reaches the
    printer before the headers that announce it.
- **Firmware.** The firmware level is taken as at least 264, so the tab
  stops of `reset` are sent.

## Model

| member | source | states |
|---|---|---|
| Timing.ByteTimeValue | Adafruit_Thermal.cpp:66 | one byte at 19200 baud (11 bit periods, rounded) costs 573 microseconds |
| Timing.ElapsedIsRolloverSafe | Adafruit_Thermal.cpp:82-88 | the signed-difference test of timeoutWait says a deadline x ticks after a start has passed d ticks after it exactly when x <= d, for every start including ones just below the 32-bit wrap, when both spans are below 2^31 |
| Timing.PendingDeadlineWaitsX | Adafruit_Thermal.cpp:75-79 | when the old deadline is still ahead, timeoutSet(x) makes timeoutWait finish exactly x microseconds after the call |
| Timing.ExpiredDeadlineCountsFromLastWrite | Adafruit_Thermal.cpp:75-79 | when the old deadline has passed, the new deadline is x microseconds after the last drained byte, not after the call |
| Timing.DtrDeadlineUnchanged | Adafruit_Thermal.cpp:75-79 | with DTR handshaking timeoutSet leaves resumeTime alone |
| Timing.ElapsedAtRollover | Adafruit_Thermal.cpp:86 | across the wrap point, clock 0 is after deadline 0xFFFFFFFF and clock 0xFFFFFFFF is before deadline 0 |
| Timing.LoopGateIsInequality | Adafruit_Thermal.cpp:188 | loop()'s unsigned test `micros() - resumeTime > 0` holds exactly when the clock differs from the deadline |
| Timing.LoopGateOpensEarly | Adafruit_Thermal.cpp:188 | one tick before the deadline loop() already drains while timeoutWait would still wait |
| Timing.PendingDeadlineCanShrink | Adafruit_Thermal.cpp:77 | a timeoutSet while a deadline is pending can move it earlier (the wait is replaced, not extended) |
| Timing.ExpiredDeadlineCanBePast | Adafruit_Thermal.cpp:77 | after an expired deadline, timeoutSet can set one that is already in the past |
| Pacing.ByteDelay | Adafruit_Thermal.cpp:167-171 | a stored byte costs BYTE_TIME, plus a blank-line feed when it ends a line after a line end, or a printed text line plus spacing when it ends any other line |
| Pacing.Store | Adafruit_Thermal.cpp:151-182 | CR changes nothing; a line end (LF or the column at maxColumn) resets the column and records LF; any other byte advances the column (mod 256) and is recorded; the deadline moves by ByteDelay as timeoutSet does; the column stays within the page width |
| Pacing.StrippedAppend | Adafruit_Thermal.cpp:162-165 | queueing two byte sequences one after the other queues their filtered forms one after the other |
| Pacing.StrippedContents | Adafruit_Thermal.cpp:162-165 | the queue receives no CR, and every other byte exactly as often as it was written; CR-free input is queued unchanged |
| Pacing.StrippedKeepsCRFree | Adafruit_Thermal.cpp:162-165 | CR-free input is queued unchanged |
| Pacing.DropsLoneCR | Adafruit_Thermal.cpp:162 | a CR between CR-free parts is the only byte lost |
| Pacing.StoreAllAppend | Adafruit_Thermal.cpp:109-141 | storing a concatenation is storing the first part, then the second |
| Pacing.StoreAllIgnoresCR | Adafruit_Thermal.cpp:162 | CR bytes have no effect on column, previous byte or deadline |
| Pacing.StoreAllColumnBound | Adafruit_Thermal.cpp:168-178 | once the column is within the page width, storeInBuffer keeps it there |
| Pacing.StoreAllAdvances | Adafruit_Thermal.cpp:175-180 | ordinary bytes on a line with room advance the column by one each and the last becomes prevByte |
| Pacing.HiNewlineChargesTextLine | Adafruit_Thermal.cpp:167-180 | for "Hi\n" at the start of a line, the letters cost one byte time each, the LF a full text line, and the line is closed |
| Pacing.BlankLineChargesFeedOnly | Adafruit_Thermal.cpp:167-180 | two LFs after text: the first is charged the text line and closes it, the second only the blank-line feed; the deadline is the one timeoutSet records for that cost and the column ends at 0 |
| Commands.JustifyPos | Adafruit_Thermal.cpp:443-459 | justify sends 1 exactly for 'C'/'c', 2 exactly for 'R'/'r', and 0 for everything else |
| Commands.SizeMetricsMatchSizeByte | Adafruit_Thermal.cpp:486-509 | the height and width setSize records agree with the nibbles of the size byte it sends, and 'M'/'L' (either case) double the height while only 'L' halves the columns |
| Commands.ModeCharHeight | Adafruit_Thermal.cpp:378-389 | the character height is 48 exactly when the double-height bit is set, 24 otherwise |
| Commands.ModeMaxColumn | Adafruit_Thermal.cpp:378-389 | the page width is 16 columns exactly when the double-width bit is set, 32 otherwise |
| Commands.PrintModeRoundTrip | Adafruit_Thermal.cpp:384-396 | setPrintMode(m) then unsetPrintMode(m) restores the metrics when m's bits were clear, and each size bit affects only its own metric |
| Commands.StyleBitsKeepMetrics | Adafruit_Thermal.cpp:378-396 | the upside-down, bold and strike bits never change height or width |
| Commands.LineSpacingFor | Adafruit_Thermal.cpp:828-831 | heights up to 24 give spacing 0, heights 24..279 give height - 24 |
| Commands.LineHeightParam | Adafruit_Thermal.cpp:828-837 | the ESC '3' byte is 24 for heights up to 24 and the height itself up to 255 |
| Commands.LineHeightConsistent | Adafruit_Thermal.cpp:828-837 | below 256 the byte sent is 24 plus the recorded spacing |
| Commands.LineHeightDesync | Adafruit_Thermal.cpp:828-837 | for height 260 the printer receives 4 while the timing model records spacing 236 |
| Commands.TabStop | Adafruit_Thermal.cpp:858-861 | the column after a tab is a multiple of 4, strictly after the old column and at most 4 further (below the 8-bit wrap) |
| Commands.BarcodeHeightClamp | Adafruit_Thermal.cpp:344-349 | the barcode height is at least 1 and otherwise unchanged |
| Commands.UnderlineClamp | Adafruit_Thermal.cpp:515-519 | the underline weight is capped at 2 and otherwise unchanged |
| Commands.CharsetClamp | Adafruit_Thermal.cpp:845-849 | the character set is capped at 15 and otherwise unchanged |
| Commands.CodePageClamp | Adafruit_Thermal.cpp:852-856 | the code page is capped at 47 and otherwise unchanged |
| Commands.BarcodeLength | Adafruit_Thermal.cpp:351-371 | the barcode length byte is the text length capped at 255 |
| Commands.QRModel | Adafruit_Thermal.cpp:886-926 | the QR model is 49..51, out-of-range values select 50 |
| Commands.QRModuleSize | Adafruit_Thermal.cpp:886-926 | the module size is 1..16, out-of-range values select 3 |
| Commands.QRErrCorrect | Adafruit_Thermal.cpp:886-926 | the error-correction level is 48..51, out-of-range values select 48 |
| Commands.QRStoreLength | Adafruit_Thermal.cpp:886-926 | the setup prefix is 33 bytes and the store command's 16-bit parameter count is the text length plus 3 |
| Chunking.RowBytes | Adafruit_Thermal.cpp:679 | a row of w pixels takes the fewest whole bytes that hold w bits |
| Chunking.Clipped | Adafruit_Thermal.cpp:680 | the sent row width is at most 48 bytes and at most the row width, and equals the row width when it fits |
| Chunking.ChunkLimit | Adafruit_Thermal.cpp:682-691 | with DTR the chunk limit is 255; without DTR it is between 1 and maxChunkHeight |
| Chunking.ChunkLimitFitsBuffer | Adafruit_Thermal.cpp:682-691 | without DTR the limit is min(256 / clipped, maxChunkHeight), and a chunk exceeds the assumed 256-byte buffer only when it is one row |
| Chunking.ChunkLimitFloorUnreachable | Adafruit_Thermal.cpp:689-690 | rows of at most 48 bytes give 256 / clipped >= 5, so the `< 1` correction never applies |
| Chunking.PlanExamples | Adafruit_Thermal.cpp:679-691 | 400 pixels give 50 bytes clipped to 48 and 5 rows a chunk; 100 pixels give 13 bytes and 19 rows; DTR gives 255 |
| Chunking.ChunkHeightsCover | Adafruit_Thermal.cpp:693-697 | the chunk heights add up to the remaining rows, each is between 1 and the limit, and all but the last are full |
| Chunking.ChunkCount | Adafruit_Thermal.cpp:693-697 | h rows take ceil(h / limit) chunks |
| Chunking.NarrowBitmapLosesWidthByte | Adafruit_Thermal.cpp:699 | for 97-104 pixel widths the chunk header's width byte is 13 and storeInBuffer drops it |
| Chunking.RowsDataAt | Adafruit_Thermal.cpp:701-706 | byte x of the k-th sent row is bitmap byte (from + k) * rowBytes + x; the last rowBytes - clipped bytes of each row are skipped |
| Chunking.RowsDataLength | Adafruit_Thermal.cpp:701-706 | the data for a row range is clipped bytes per row |
| Chunking.RowsDataSplit | Adafruit_Thermal.cpp:693-707 | the data of consecutive row ranges concatenates |
| Chunking.StreamBytesIsSize | Adafruit_Thermal.cpp:739-749 | the bytes read from the stream, row by row (sent and skipped), add up to h * rowBytes |
| Chunking.DataOvertakesHeader | Adafruit_Thermal.cpp:699-704 | a one-row 8-pixel bitmap reaches the port as its data byte before its queued header |
| Poll.PaperStatusOf | Adafruit_Thermal.cpp:218 | the status is 1 exactly when bit 2 of the reply is clear, else 0 |
| Poll.TimeoutBranchUnreachable | Adafruit_Thermal.cpp:209-226 | when the throttle admits a poll, the `count == 10` timeout branch can never fire |
| Poll.ReplyIsConsumed | Adafruit_Thermal.cpp:209-228 | a reply read while polling closes the request, makes the result ready with the decoded status, and leaves the count at 1 |
| Poll.MissIsCounted | Adafruit_Thermal.cpp:209-228 | an unanswered poll keeps the request open, sets the status to -1, and counts one attempt |
| Poll.IdleTickChangesNothing | Adafruit_Thermal.cpp:204-209 | without a request, or inside the 100 ms throttle, the poll state is unchanged |
| Poll.PollRunBounds | Adafruit_Thermal.cpp:204-231 | over any sequence of loop() calls the count stays at most 10, the status within -1..1, and prevmillis never changes |
| Poll.StuckAfterTenAttempts | Adafruit_Thermal.cpp:209 | once 10 attempts are counted, no later loop() call changes the poll |
| Poll.MissesExhaustCounter | Adafruit_Thermal.cpp:209-228 | from an open request, 10 - count unanswered polls bring the count to 10 with the request still open |
| Poll.SecondRequestGetsNineAttempts | Adafruit_Thermal.cpp:204-231 | after one answered request, a second request that misses 9 polls is never answered, whatever follows |
| Poll.StaleResultReadsAsNoResponse | Adafruit_Thermal.cpp:211-218 | with a result already ready, one unanswered poll of a new request makes hasPaper return -1 |
| Poll.HasPaperRange | Adafruit_Thermal.cpp:813-821 | hasPaper returns -1, 0 or 1, and -1 whenever no result is ready |
| Printer.ResetLeavesColumnSix | Adafruit_Thermal.cpp:299-315 | after reset the column is 6 with prevByte 16: the tab-stop bytes are counted as characters |
| Printer.FeedThirteenLosesCount | Adafruit_Thermal.cpp:462-472 | feed(13) queues `ESC 'd'` without its count |
| Printer.RasterHeaderLosesWidthByte | Adafruit_Thermal.cpp:543 | for 97-104 pixel widths the raster header reaches the queue without its width byte |
| Printer.QRPrintKept | Adafruit_Thermal.cpp:928-936 | the QR print command is queued whole |
| Printer.TabOvershootsPageWidth | Adafruit_Thermal.cpp:858-861 | a TAB typed at column 31 of a 32-column line is stored without a wrap (column 32), tab() rounds it to 36, and the next ordinary byte goes to column 37 instead of wrapping |
| Printer.LittleEndian16Bytes | Adafruit_Thermal.cpp:756-764 | the width and height read low byte first are 16-bit values whose low and high bytes are the bytes read |
| Printer.Printer.constructor | Adafruit_Thermal.cpp:241-296 | DTR handshaking exactly when a DTR pin below 255 is given, dot times 1, chunk cap 255, the default metrics, an empty queue and port, and no paper request |
| Printer.Printer.TimeoutSet | Adafruit_Thermal.cpp:75-79 | resumeTime becomes the Timing deadline for x at clock now |
| Printer.Printer.TimeoutWait | Adafruit_Thermal.cpp:82-88 | the number of observations skipped is the index of the first ready one (DTR low, or the deadline elapsed), or all of them |
| Printer.Printer.SetTimes | Adafruit_Thermal.cpp:101-104 | the dot print and feed times take the given values |
| Printer.Printer.SetMaxChunkHeight | Adafruit_Thermal.cpp:840 | the int argument is truncated into the 8-bit chunk cap |
| Printer.Printer.StoreInBuffer | Adafruit_Thermal.cpp:151-182 | the queue grows by the byte unless it is CR, and the cursor moves as Pacing.Store says |
| Printer.Printer.WriteBytes | Adafruit_Thermal.cpp:109-141 | the queue grows by the CR-filtered bytes and the cursor follows the StoreAll fold |
| Printer.Printer.Write | Adafruit_Thermal.cpp:145-148 | one byte is stored and 1 is returned |
| Printer.Printer.Loop | Adafruit_Thermal.cpp:184-232 | the drain step of Drain, then the paper-poll step of Poll.PollStep; queue and port together keep their contents |
| Printer.Printer.Drain | Adafruit_Thermal.cpp:186-202 | with bytes queued and the gate open, the head moves to the port and lastWritingTime is the clock; with the gate shut nothing changes; an empty queue drops only the reservation flag |
| Printer.Printer.PollPaper | Adafruit_Thermal.cpp:204-231 | the poll fields change exactly as Poll.PollStep says, and stay valid |
| Printer.Printer.AskForPaperAvailability | Adafruit_Thermal.cpp:822-825 | `DLE EOT 4` is queued whole and a request is open |
| Printer.Printer.WritePrintMode | Adafruit_Thermal.cpp:398-400 | `ESC '!' printMode` is stored |
| Printer.Printer.SetPrintMode | Adafruit_Thermal.cpp:384-389 | the mode gains the mask, the new mode byte is stored with the old metrics, then height and width follow the new mode |
| Printer.Printer.UnsetPrintMode | Adafruit_Thermal.cpp:391-396 | the mode loses the mask, the new mode byte is stored with the old metrics, then height and width follow the new mode |
| Printer.Printer.SetSize | Adafruit_Thermal.cpp:486-509 | the metrics of the size are set first, `GS '!' size` is stored with them, and prevByte becomes LF; the column is unchanged |
| Printer.Printer.SetLineHeight | Adafruit_Thermal.cpp:828-838 | the spacing is recorded first, then `ESC '3'` with the clamped, truncated height is stored |
| Printer.Printer.Tab | Adafruit_Thermal.cpp:858-861 | TAB is queued, counts as a character, and the column is then rounded to the tab stop |
| Printer.Printer.Feed | Adafruit_Thermal.cpp:462-472 | `ESC 'd' x` is stored, dotFeedTime * charHeight is registered whatever x is, and the line is closed |
| Printer.Printer.FeedRows | Adafruit_Thermal.cpp:475-480 | `ESC 'J' rows` is stored, rows * dotFeedTime is registered, and the line is closed |
| Printer.Printer.SetDefaults | Adafruit_Thermal.cpp:301-306 | the line is fresh and the metrics are 32 columns, 24-dot characters, spacing 6 and barcode height 50 |
| Printer.Printer.Reset | Adafruit_Thermal.cpp:299-315 | `ESC '@'` and the tab stops are queued whole, the defaults are restored between them, and the cursor is AfterReset |
| Printer.Printer.TestPage | Adafruit_Thermal.cpp:337-342 | `DC2 'T'` is queued and 26 text lines plus 186 fed dots are registered |
| Printer.Printer.SetBarcodeHeight | Adafruit_Thermal.cpp:344-349 | the height is clamped to at least 1, recorded, and sent |
| Printer.Printer.PrintBarcode | Adafruit_Thermal.cpp:351-371 | feed(1), then the settings, type, a length of at most 255 and that many text bytes, then (barcodeHeight + 40) * dotPrintTime |
| Printer.Printer.Justify | Adafruit_Thermal.cpp:443-459 | `ESC 'a' pos` is queued whole with pos from JustifyPos |
| Printer.Printer.UnderlineOn | Adafruit_Thermal.cpp:515-519 | `ESC '-' weight` is queued whole with the weight capped at 2 |
| Printer.Printer.UnderlineOff | Adafruit_Thermal.cpp:521 | `ESC '-' 0` is queued whole |
| Printer.Printer.SetCharset | Adafruit_Thermal.cpp:845-849 | `ESC 'R'` with the set capped at 15 is stored |
| Printer.Printer.SetCodePage | Adafruit_Thermal.cpp:852-856 | `ESC 't'` with the page capped at 47 is stored |
| Printer.Printer.ReprintQRcode | Adafruit_Thermal.cpp:928-936 | the print command is queued whole and the line is closed without a print time |
| Printer.Printer.PrintQRcode | Adafruit_Thermal.cpp:886-926 | the clamped setup commands, the store command for the text (length held in 16 bits), the text and the print command are stored, and the line is closed |
| Printer.Printer.StoreRow | Adafruit_Thermal.cpp:546-548 | the n bytes from offset start go through storeInBuffer in order |
| Printer.Printer.StoreRows | Adafruit_Thermal.cpp:544-549 | every byte of the h rows goes through storeInBuffer in order |
| Printer.Printer.QueueImage | Adafruit_Thermal.cpp:543-552 | the header and the h rows go through storeInBuffer, h * dotPrintTime is registered, and the line is closed |
| Printer.Printer.PrintBitmap | Adafruit_Thermal.cpp:523-556 | it returns 1 and changes nothing exactly when the 32-bit reservation exceeds the memory; otherwise it reserves, queues the raster header and all rows, registers h * dotPrintTime, closes the line and returns 0 |
| Printer.Printer.DefineBitImage | Adafruit_Thermal.cpp:561-586 | the same as PrintBitmap with the `GS '*'` header, and a reservation test that leaves out the header |
| Printer.Printer.SendRow | Adafruit_Thermal.cpp:702-705 | the clipped bytes from offset start go to the port in order |
| Printer.Printer.SendRows | Adafruit_Thermal.cpp:701-707 | count rows from row from go to the port, each clipped, the rest of each row skipped |
| Printer.Printer.SendChunk | Adafruit_Thermal.cpp:699-708 | the chunk header goes through storeInBuffer, its rows to the port, then its print time is registered |
| Printer.Printer.ChunkLoop | Adafruit_Thermal.cpp:693-709 | all rows reach the port clipped, every chunk header is queued in order, and the cursor is the AdaRun fold over the chunk heights |
| Printer.Printer.PrintBitmapAda | Adafruit_Thermal.cpp:674-711 | the chunked transfer AdaSent describes: rows clipped to the port, chunk headers queued through storeInBuffer, each chunk's print time registered, and the line closed |
| Printer.Printer.PrintBitmapAdaStream | Adafruit_Thermal.cpp:713-754 | the same transfer on the bytes the stream delivers, h * rowBytes of which are consumed, skipped bytes included |
| Printer.Printer.PrintBitmapAdaSized | Adafruit_Thermal.cpp:756-767 | the width and height are the 16-bit values of the first four bytes, low byte first, followed by the stream transfer |
| ImageToFile.ChunksMatchRowBytes | python/image_to_file.py:28 | the packer's bytes per row equal printBitmap's rowBytes, the fewest bytes that hold the width |
| ImageToFile.ShiftIsWeight | python/image_to_file.py:37 | shifting a pixel bit by 7 - shift sets exactly that pixel's mask |
| ImageToFile.WeightsDisjoint | python/image_to_file.py:34-37 | the masks of different pixels of a chunk do not overlap |
| ImageToFile.PackBitsBit | python/image_to_file.py:33-37 | after n passes of the shift loop, the mask of pixel s is set exactly when s < n and that pixel is black |
| ImageToFile.PackedByteBits | python/image_to_file.py:31-38 | the byte for chunk c holds pixel 8c + s in bit 7 - s, set exactly when the pixel is inside the image and black |
| ImageToFile.RowPackAt | python/image_to_file.py:31-38 | a row holds one byte per chunk, in chunk order |
| ImageToFile.ImageRowsAt | python/image_to_file.py:30-38 | the packed rows are stored row-major: byte y * Chunks + c is byte c of row y |
| ImageToFile.ImageBytesLayout | python/image_to_file.py:28-38 | the image packs to height * Chunks(width) bytes, and pixel (8c + s, y) is bit 7 - s of byte y * Chunks + c, set exactly when the pixel is black |
| ImageToFile.PackChunk | python/image_to_file.py:33-37 | the shift loop computes the packed byte of the chunk |
| ImageToFile.PackRow | python/image_to_file.py:31-38 | the chunk loop produces the packed bytes of the row |
| ImageToFile.PackImage | python/image_to_file.py:30-38 | the packing loops produce the packed image |
| ImageToFile.HexDigit | python/image_to_file.py:52 | a hex digit is 0-9 or lower-case a-f |
| ImageToFile.HexEntry | python/image_to_file.py:52 | each entry is six characters |
| ImageToFile.FormatData | python/image_to_file.py:50-56 | the formatting loop produces Formatted(bytes, 0): an entry per byte, a line break after every twelfth |
| ImageToFile.HexEntryValue | python/image_to_file.py:52 | the two hex digits of an entry spell the byte's value |
| ImageToFile.ParseFormatted | python/image_to_file.py:50-56 | reading the formatted text back gives exactly the bytes, in order |
| ImageToFile.FormattedLength | python/image_to_file.py:50-56 | the text has six characters per byte plus one line break per completed line of twelve |

## Left out

- Printer.Printer.constructor: it takes the source constructor plus the field assignments of begin (DTR flag, dot times, chunk cap and the defaults of reset and setDefault), but starts at column 0 after LF with an empty queue and resumeTime 0. The real begin does not leave that state: the bytes of wake, reset, the `ESC '7'` heating settings, the DTR enable command and setDefault's commands pass through storeInBuffer, so they stay queued, move the column and prevByte, and push the deadline (wake's 50 ms included). Those command bytes are not modelled.
- The 100-byte reservation, `reserve` and `shrink_to_fit` are allocation detail that holds no printer state. Only the `largeReserve` flag is kept.
- The `DEBUG_` and `SERIAL_WRITE` output is debug-only.
- The `timeoutWait()` calls inside the data loops of printBitmap_ada only delay. They change no state and are left out of SendRow. TimeoutWait models the wait itself.
- Each public call reads the clock once (`now`). The source calls `micros()` afresh in each timeoutSet and in loop().
- Thermal.cpp, Thermal.h and printertest.py are not part of this model.
- Parts of `python/image_to_file.py` outside the packer and the array body are not modelled: the command line, PIL loading and dithering, and the `#define`/`#ifndef` lines of the header file. A pixel is any integer, 0 meaning black.
- defineNVBitmap, printNVBitmap, printDefinedBitImage, cut, beep, setBeep, setCharSpacing, online, offline, sleep, sleepAfter, wake, normal, inverseOn, inverseOff, flush and test are command encoders outside the pacing core. Their bytes go through the same WriteBytes path.
- The one-line mode wrappers (boldOn, doubleHeightOff, strikeOn, …) are SetPrintMode and UnsetPrintMode with a fixed mask.
- Printer.Printer.PrintQRcode and Printer.Printer.PrintBarcode send their bytes with one WriteBytes call. The source issues several writeBytes calls and a write loop, which has the same effect on the queue and cursor by Pacing.StoreAllAppend.
- Printer.Printer.PrintBitmapAdaStream: the stream is the sequence of bytes it eventually delivers, and the requires asks for enough of them. The busy-wait on `read() < 0` only delays, and a stream that never delivers is not modelled.
- Printer.Printer.PrintBitmapAdaSized: the four header reads are parameters. A `read()` of -1 (nothing available) in those reads is not modelled, so the width and height are always built from four real bytes.
- Printer.Printer.PrintBitmapAda, Printer.Printer.PrintBitmap and Printer.Printer.DefineBitImage take w and h as `nat`, so negative sizes are not modelled.
- Printer.Printer.PrintBitmapAda: without DTR, a zero width (division by zero) and a chunk cap of 0 (a loop that never advances) are excluded by the requires. The same holds for the two stream overloads.
- Printer.Printer.PrintBitmap and Printer.Printer.DefineBitImage require the bitmap to hold h * rowBytes bytes. The source reads past the end of a shorter array.
- Printer.Printer.PrintBarcode and Printer.Printer.PrintQRcode take the text without its terminating NUL, and the requires says it contains none.
- The initial value of printMode is not set by the source's constructor or begin. It is taken as 0.
- hasPaper is declared `bool` in Adafruit_Thermal.h but defined returning `int`. The model follows the definition (-1, 0 or 1).
- Only firmware versions of at least 264 are modelled. The older `#if` branches are not.
