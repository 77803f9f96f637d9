/**
 * The Adafruit_Thermal object of Adafruit_Thermal.cpp: command encoders put
 * their bytes in the queue `internalBuffer` through storeInBuffer, which also
 * advances the column counter and the estimated completion time; loop()
 * drains one byte per call onto the serial port (`wire`) and runs the
 * paper-status poll. Clock readings, the DTR level and the reply of the
 * printer are parameters.
 */
module Printer {
  import opened Ints
  import opened Timing
  import opened Pacing
  import opened Commands
  import opened Chunking
  import Poll

  /** The 8-byte header of a raster bitmap: `GS 'v' '0' 0`, then width in bytes and height in rows, low byte first. */
  function RasterHeader(w: nat, h: nat): seq<uint8>
  {
    var rb := RowBytes(w);
    [GS, 'v' as int, '0' as int, 0, Wrap8(rb % 256), Wrap8(rb / 256), Wrap8(h % 256), Wrap8(h / 256)]
  }

  /** The 4-byte header of defineBitImage: `GS '*'`, then the row and column byte counts, truncated to 8 bits. */
  function BitImageHeader(w: nat, h: nat): seq<uint8>
  {
    [0x1D, 0x2A, Wrap8(RowBytes(w)), Wrap8((h + 7) / 8)]
  }

  /** The bytes printBarcode queues after its leading feed(1). */
  function BarcodeBytes(text: seq<uint8>, barcodeType: uint8): seq<uint8>
  {
    var len := BarcodeLength(|text|);
    [GS, 'H' as int, 2, GS, 'w' as int, 3, GS, 'k' as int, barcodeType, len] + text[..len]
  }

  /** The bytes printQRcode queues: setup and store commands, the text, then the print command. */
  function QRBytes(text: seq<uint8>, errCorrect: uint8, moduleSize: uint8, model: uint8): seq<uint8>
  {
    var len := |text| % 0x1_0000;
    QRPrefix(len, errCorrect, moduleSize, model) + text[..len] + QRPrint
  }

  /** The cursor after feed(x): the command is charged `dotFeedTime * charHeight`, whatever x is, and the line is closed. */
  function AfterFeed(k: Knobs, cur: Cursor, x: uint8, now: uint32): Cursor
  {
    TimedCommand(k, cur, [ESC, 'd' as int, x], Wrap32(k.dotFeedTime * k.charHeight), now).(prevByte := LF, column := 0)
  }

  /** The cursor after printBarcode: a feed, the barcode bytes, `(barcodeHeight + 40) * dotPrintTime`. */
  function AfterBarcode(k: Knobs, cur: Cursor, text: seq<uint8>, barcodeType: uint8, barcodeHeight: uint8, now: uint32): Cursor
  {
    var fed := AfterFeed(k, cur, 1, now);
    TimedCommand(k, fed, BarcodeBytes(text, barcodeType), Wrap32((barcodeHeight + 40) * k.dotPrintTime), now).(prevByte := LF)
  }

  /** The cursor after a bitmap of h rows went through storeInBuffer: `h * dotPrintTime` more, line closed. */
  function AfterRaster(k: Knobs, cur: Cursor, bs: seq<uint8>, h: nat, now: uint32): Cursor
  {
    TimedCommand(k, cur, bs, Wrap32(h * k.dotPrintTime), now).(prevByte := LF)
  }

  /** The bytes reset() queues: the init command, then tab stops every 4 columns. */
  const ResetInit: seq<uint8> := [ESC, '@' as int]
  const TabStops: seq<uint8> := [ESC, 'D' as int, 4, 8, 12, 16]

  /** The metrics reset() restores, between its two commands. */
  function ResetKnobs(k: Knobs): Knobs
  {
    k.(maxColumn := 32, charHeight := 24, lineSpacing := 6)
  }

  /** The cursor after reset(): the tab-stop bytes are counted as text on a fresh line. */
  function AfterReset(k: Knobs, cur: Cursor, now: uint32): Cursor
  {
    var c := StoreAll(k, cur, ResetInit, now);
    StoreAll(ResetKnobs(k), Cursor(0, LF, c.resumeTime), TabStops, now)
  }

  /**
   * reset() leaves the column counter at 6 although nothing was printed: the
   * six bytes of the tab-stop command are counted as characters.
   */
  lemma ResetLeavesColumnSix(k: Knobs, cur: Cursor, now: uint32)
    ensures AfterReset(k, cur, now).column == 6 && AfterReset(k, cur, now).prevByte == 16
  {
    var c := StoreAll(k, cur, ResetInit, now);
    StoreAllAdvances(ResetKnobs(k), Cursor(0, LF, c.resumeTime), TabStops, now);
  }

  /** A feed of 13 lines loses its count: the parameter byte is the code of CR. */
  lemma FeedThirteenLosesCount()
    ensures Stripped([ESC, 'd' as int, 13]) == [ESC, 'd' as int]
  {
    DropsLoneCR([ESC, 'd' as int], []);
    assert [ESC, 'd' as int] + [CR] + [] == [ESC, 'd' as int, 13];
  }

  /**
   * For 97 to 104 pixel wide bitmaps the raster header loses its width byte
   * (13 bytes per row, the code of CR), so the printer reads the following
   * bytes with a shifted meaning.
   */
  lemma RasterHeaderLosesWidthByte(w: nat, h: nat)
    requires 97 <= w <= 104 && Wrap8(h % 256) != CR && Wrap8(h / 256) != CR
    ensures Stripped(RasterHeader(w, h)) == [GS, 'v' as int, '0' as int, 0, 0, Wrap8(h % 256), Wrap8(h / 256)]
  {
    var front: seq<uint8> := [GS, 'v' as int, '0' as int, 0];
    var back: seq<uint8> := [0, Wrap8(h % 256), Wrap8(h / 256)];
    assert RowBytes(w) == 13;
    assert RasterHeader(w, h) == front + [CR] + back;
    DropsLoneCR(front, back);
  }

  /** The QR print command holds no CR, so it reaches the queue whole. */
  lemma QRPrintKept()
    ensures Stripped(QRPrint) == QRPrint
  {
    StrippedKeepsCRFree(QRPrint);
  }

  /**
   * A TAB typed in the last column of a 32-column line is stored as a
   * character (column 32, no wrap), and tab() then rounds the column to 36,
   * past the page width: the next ordinary byte advances to 37 instead of
   * triggering the `column == maxColumn` wrap of storeInBuffer.
   */
  lemma TabOvershootsPageWidth(k: Knobs, cur: Cursor, c: uint8, now: uint32)
    requires cur.column == 31 && k.maxColumn == 32 && c != LF && c != CR
    ensures var stored := Store(k, cur, TAB, now);
            && stored.column == 32
            && TabStop(stored.column) == 36
            && Store(k, stored.(column := TabStop(stored.column)), c, now).column == 37
  {
  }

  /** `(hi << 8) + lo`: a 16-bit value sent low byte first. */
  function LittleEndian16(lo: uint8, hi: uint8): nat
  {
    hi * 256 + lo
  }

  /** The two bytes are recovered from the value: it is a 16-bit quantity with `lo` as its low byte. */
  lemma LittleEndian16Bytes(lo: uint8, hi: uint8)
    ensures LittleEndian16(lo, hi) < 0x1_0000
    ensures LittleEndian16(lo, hi) % 256 == lo && LittleEndian16(lo, hi) / 256 == hi
  {
  }

  /** Extending a prefix by the slice that follows it: the queue and the cursor follow the slice. */
  lemma PrefixStep(k: Knobs, cur: Cursor, bs: seq<uint8>, i: nat, j: nat, now: uint32)
    requires i <= j <= |bs|
    ensures Stripped(bs[..j]) == Stripped(bs[..i]) + Stripped(bs[i..j])
    ensures StoreAll(k, cur, bs[..j], now) == StoreAll(k, StoreAll(k, cur, bs[..i], now), bs[i..j], now)
  {
    assert bs[..j] == bs[..i] + bs[i..j];
    StrippedAppend(bs[..i], bs[i..j]);
    StoreAllAppend(k, cur, bs[..i], bs[i..j], now);
  }

  /** Extending a slice by the byte that follows it: the queue and the cursor take that byte. */
  lemma SliceStep(k: Knobs, cur: Cursor, bs: seq<uint8>, start: nat, i: nat, now: uint32)
    requires start <= i < |bs|
    ensures Stripped(bs[start .. i + 1]) == Stripped(bs[start .. i]) + Stripped([bs[i]])
    ensures StoreAll(k, cur, bs[start .. i + 1], now) == Store(k, StoreAll(k, cur, bs[start .. i], now), bs[i], now)
  {
    var row := bs[start .. i + 1];
    assert bs[start .. i] == row[..i - start] && row[i - start] == bs[i];
    StoreAllSnoc(k, cur, row, i - start, now);
    assert row[..i - start + 1] == row;
    StrippedAppend(bs[start .. i], [bs[i]]);
    assert bs[start .. i + 1] == bs[start .. i] + [bs[i]];
  }

  /** One more row of SendRows: where it starts and ends, and what it adds to the data. */
  lemma NextRow(bitmap: seq<uint8>, rowBytes: nat, clipped: nat, from: nat, r: nat, end: nat, i: nat)
    requires clipped <= rowBytes && from <= r < end && end * rowBytes <= |bitmap| && i == r * rowBytes
    ensures i + rowBytes == (r + 1) * rowBytes && i + rowBytes <= |bitmap|
    ensures RowsData(bitmap, rowBytes, clipped, from, r + 1)
            == RowsData(bitmap, rowBytes, clipped, from, r) + bitmap[i .. i + clipped]
  {
    MulStep(r, rowBytes);
    MulMono(r + 1, end, rowBytes);
    RowsDataSnoc(bitmap, rowBytes, clipped, from, r);
  }

  class Printer {
    // Configuration.
    var dtrEnabled: bool
    var dotPrintTime: uint32
    var dotFeedTime: uint32
    var maxChunkHeight: uint8
    // Text metrics and cursor.
    var printMode: bv8
    var prevByte: uint8
    var column: uint8
    var maxColumn: uint8
    var charHeight: uint8
    var lineSpacing: uint8
    var barcodeHeight: uint8
    // Pacing.
    var resumeTime: uint32
    var lastWritingTime: uint32
    // The queue, its reservation flag, and the bytes written to the serial port.
    var internalBuffer: seq<uint8>
    var largeReserve: bool
    var wire: seq<uint8>
    // Paper poll, including the two function-local statics of loop().
    var askedForPaper: bool
    var paperResultReady: bool
    var paperStatus: int
    var pollCount: uint8
    var prevMillis: uint32

    /** What every reachable state satisfies. */
    predicate Valid()
      reads this`pollCount, this`paperStatus, this`maxColumn, this`charHeight
    {
      && pollCount <= 10
      && -1 <= paperStatus <= 1
      && (maxColumn == 16 || maxColumn == 32)
      && (charHeight == 24 || charHeight == 48)
    }

    /** The fields storeInBuffer reads but does not change. */
    function Params(): Knobs
      reads this`dtrEnabled, this`maxColumn, this`charHeight, this`lineSpacing,
            this`dotPrintTime, this`dotFeedTime, this`lastWritingTime
    {
      Knobs(dtrEnabled, maxColumn, charHeight, lineSpacing, dotPrintTime, dotFeedTime, lastWritingTime)
    }

    /** The fields storeInBuffer changes besides the queue. */
    function Pos(): Cursor
      reads this`column, this`prevByte, this`resumeTime
    {
      Cursor(column, prevByte, resumeTime)
    }

    /** The fields of the paper poll. */
    function Paper(): Poll.PollState
      reads this`askedForPaper, this`paperResultReady, this`paperStatus, this`pollCount, this`prevMillis
    {
      Poll.PollState(askedForPaper, paperResultReady, paperStatus, pollCount, prevMillis)
    }

    /**
     * The constructor followed by the field assignments of begin(): DTR
     * handshaking when a DTR pin is given, dot times of 1 us, chunks of up
     * to 255 rows, and the metrics of reset() and setDefault().
     */
    constructor (dtrPin: uint8)
      ensures Valid()
      ensures dtrEnabled == (dtrPin < 255)
      ensures dotPrintTime == 1 && dotFeedTime == 1 && maxChunkHeight == 255
      ensures printMode == 0 && prevByte == LF && column == 0 && maxColumn == 32 && charHeight == 24
      ensures lineSpacing == 6 && barcodeHeight == 50
      ensures resumeTime == 0 && lastWritingTime == 0
      ensures internalBuffer == [] && !largeReserve && wire == []
      ensures Paper() == Poll.Initial
    {
      dtrEnabled := dtrPin < 255;
      dotPrintTime := 1;
      dotFeedTime := 1;
      maxChunkHeight := 255;
      printMode := 0;
      prevByte := LF;
      column := 0;
      maxColumn := 32;
      charHeight := 24;
      lineSpacing := 6;
      barcodeHeight := 50;
      resumeTime := 0;
      lastWritingTime := 0;
      internalBuffer := [];
      largeReserve := false;
      wire := [];
      askedForPaper := false;
      paperResultReady := false;
      paperStatus := 0;
      pollCount := 0;
      prevMillis := 0;
    }

    /** timeoutSet(x) at clock reading `now`. */
    method TimeoutSet(x: uint32, now: uint32)
      modifies this`resumeTime
      ensures resumeTime == Deadline(dtrEnabled, old(resumeTime), lastWritingTime, now, x)
    {
      if !dtrEnabled {
        resumeTime := Wrap32((if resumeTime > now then now else lastWritingTime) + x);
      }
    }

    /**
     * timeoutWait(): spins over the observations `samples` (clock and DTR
     * level at each poll) and returns how many it skipped; it stops at the
     * first ready one, or runs out of observations.
     */
    method TimeoutWait(samples: seq<Sample>) returns (k: nat)
      ensures k <= |samples|
      ensures forall i :: 0 <= i < k ==> !Ready(dtrEnabled, resumeTime, samples[i])
      ensures k < |samples| ==> Ready(dtrEnabled, resumeTime, samples[k])
    {
      k := 0;
      if dtrEnabled {
        while k < |samples| && samples[k].dtrHigh
          invariant k <= |samples|
          invariant forall i :: 0 <= i < k ==> samples[i].dtrHigh
        {
          k := k + 1;
        }
      } else {
        while k < |samples| && Signed32(Wrap32(samples[k].micros - resumeTime)) < 0
          invariant k <= |samples|
          invariant forall i :: 0 <= i < k ==> !Elapsed(samples[i].micros, resumeTime)
        {
          k := k + 1;
        }
      }
    }

    /** setTimes(p, f). */
    method SetTimes(p: uint32, f: uint32)
      modifies this`dotPrintTime, this`dotFeedTime
      ensures dotPrintTime == p && dotFeedTime == f
    {
      dotPrintTime := p;
      dotFeedTime := f;
    }

    /** setMaxChunkHeight(val): the int argument is truncated into the 8-bit field. */
    method SetMaxChunkHeight(val: int)
      modifies this`maxChunkHeight
      ensures maxChunkHeight == Wrap8(val)
    {
      maxChunkHeight := Wrap8(val);
    }

    /** storeInBuffer(c) at clock reading `now`. */
    method StoreInBuffer(c: uint8, now: uint32)
      modifies this`internalBuffer, this`column, this`prevByte, this`resumeTime
      ensures internalBuffer == old(internalBuffer) + Stripped([c])
      ensures Pos() == Store(Params(), old(Pos()), c, now)
    {
      assert Stripped([c]) == (if c == CR then [] else [c]) + Stripped([]);
      if c != CR {
        internalBuffer := internalBuffer + [c];
        var d: uint32 := BYTE_TIME;
        var b := c;
        if c == LF || column == maxColumn {
          d := Wrap32(d + (if prevByte == LF then (charHeight + lineSpacing) * dotFeedTime
                           else charHeight * dotPrintTime + lineSpacing * dotFeedTime));
          column := 0;
          b := LF;
        } else {
          column := Wrap8(column + 1);
        }
        TimeoutSet(d, now);
        prevByte := b;
      }
    }

    /** writeBytes(a, b, ...): storeInBuffer on each byte in turn. */
    method WriteBytes(bs: seq<uint8>, now: uint32)
      modifies this`internalBuffer, this`column, this`prevByte, this`resumeTime
      ensures internalBuffer == old(internalBuffer) + Stripped(bs)
      ensures Pos() == StoreAll(Params(), old(Pos()), bs, now)
    {
      var i := 0;
      while i < |bs|
        invariant 0 <= i <= |bs|
        invariant internalBuffer == old(internalBuffer) + Stripped(bs[..i])
        invariant Pos() == StoreAll(Params(), old(Pos()), bs[..i], now)
      {
        StoreAllSnoc(Params(), old(Pos()), bs, i, now);
        assert bs[..i + 1] == bs[..i] + [bs[i]];
        StrippedAppend(bs[..i], [bs[i]]);
        StoreInBuffer(bs[i], now);
        i := i + 1;
      }
      assert bs[..i] == bs;
    }

    /** write(c): the Print back end; one byte is always reported written. */
    method Write(c: uint8, now: uint32) returns (n: nat)
      modifies this`internalBuffer, this`column, this`prevByte, this`resumeTime
      ensures n == 1
      ensures internalBuffer == old(internalBuffer) + Stripped([c])
      ensures Pos() == Store(Params(), old(Pos()), c, now)
    {
      StoreInBuffer(c, now);
      n := 1;
    }

    /**
     * loop() at clock readings `nowMicros`/`nowMillis`, with `incoming` the
     * byte the serial port has available, if any: the drain step, then the
     * paper poll.
     */
    method Loop(nowMicros: uint32, nowMillis: uint32, incoming: Option<uint8>)
      requires Valid()
      modifies this`internalBuffer, this`wire, this`lastWritingTime, this`largeReserve,
               this`askedForPaper, this`paperResultReady, this`paperStatus, this`pollCount
      ensures Valid()
      ensures wire + internalBuffer == old(wire + internalBuffer)
      ensures old(internalBuffer) != [] && LoopGate(nowMicros, resumeTime) ==>
                && wire == old(wire) + [old(internalBuffer)[0]]
                && internalBuffer == old(internalBuffer)[1..]
                && lastWritingTime == nowMicros && largeReserve == old(largeReserve)
      ensures old(internalBuffer) != [] && !LoopGate(nowMicros, resumeTime) ==>
                && wire == old(wire) && internalBuffer == old(internalBuffer)
                && lastWritingTime == old(lastWritingTime) && largeReserve == old(largeReserve)
      ensures old(internalBuffer) == [] ==>
                && wire == old(wire) && internalBuffer == []
                && lastWritingTime == old(lastWritingTime) && !largeReserve
      ensures Paper() == Poll.PollStep(old(Paper()), nowMillis, incoming)
    {
      Drain(nowMicros);
      PollPaper(nowMillis, incoming);
    }

    /**
     * The first half of loop(): at most the head of the queue moves to the
     * serial port, so the queue and the port together keep their contents;
     * an empty queue only drops the reservation flag.
     */
    method Drain(nowMicros: uint32)
      modifies this`internalBuffer, this`wire, this`lastWritingTime, this`largeReserve
      ensures wire + internalBuffer == old(wire + internalBuffer)
      ensures old(internalBuffer) != [] && LoopGate(nowMicros, resumeTime) ==>
                && wire == old(wire) + [old(internalBuffer)[0]]
                && internalBuffer == old(internalBuffer)[1..]
                && lastWritingTime == nowMicros && largeReserve == old(largeReserve)
      ensures old(internalBuffer) != [] && !LoopGate(nowMicros, resumeTime) ==>
                && wire == old(wire) && internalBuffer == old(internalBuffer)
                && lastWritingTime == old(lastWritingTime) && largeReserve == old(largeReserve)
      ensures old(internalBuffer) == [] ==>
                && wire == old(wire) && internalBuffer == []
                && lastWritingTime == old(lastWritingTime) && !largeReserve
    {
      if internalBuffer != [] {
        if Wrap32(nowMicros - resumeTime) > 0 {
          assert wire + internalBuffer == (wire + [internalBuffer[0]]) + internalBuffer[1..];
          wire := wire + [internalBuffer[0]];
          internalBuffer := internalBuffer[1..];
          lastWritingTime := nowMicros;
        }
      } else if largeReserve {
        largeReserve := false;
      }
    }

    /** The second half of loop(): the paper poll, statics included. */
    method PollPaper(nowMillis: uint32, incoming: Option<uint8>)
      requires Valid()
      modifies this`askedForPaper, this`paperResultReady, this`paperStatus, this`pollCount
      ensures Valid()
      ensures Paper() == Poll.PollStep(old(Paper()), nowMillis, incoming)
    {
      if askedForPaper {
        if Wrap32(nowMillis - prevMillis) > 100 && pollCount < 10 {
          paperStatus := -1;
          if incoming.Some? {
            pollCount := 0;
            askedForPaper := false;
            paperResultReady := true;
            paperStatus := Poll.PaperStatusOf(incoming.value);
          }
          if pollCount == 10 && !paperResultReady {
            // The timeout branch: pollCount is below 10 here.
            assert false;
          }
          pollCount := Wrap8(pollCount + 1);
        }
      }
    }

    /** hasPaper(): 1 paper present, 0 out of paper, -1 no result (yet). */
    function HasPaper(): int
      reads this`askedForPaper, this`paperResultReady, this`paperStatus, this`pollCount, this`prevMillis
    {
      Poll.HasPaper(Paper())
    }

    /** askForPaperAvailability(): queue `DLE EOT 4` and open a request. */
    method AskForPaperAvailability(now: uint32)
      modifies this`internalBuffer, this`column, this`prevByte, this`resumeTime, this`askedForPaper
      ensures internalBuffer == old(internalBuffer) + [0x10, 0x04, 4]
      ensures Pos() == StoreAll(Params(), old(Pos()), [0x10, 0x04, 4], now)
      ensures askedForPaper
    {
      StrippedKeepsCRFree([0x10, 0x04, 4]);
      WriteBytes([0x10, 0x04, 4], now);
      askedForPaper := true;
    }

    /** writePrintMode(): `ESC '!' printMode`. */
    method WritePrintMode(now: uint32)
      modifies this`internalBuffer, this`column, this`prevByte, this`resumeTime
      ensures internalBuffer == old(internalBuffer) + Stripped([ESC, '!' as int, printMode as int])
      ensures Pos() == StoreAll(Params(), old(Pos()), [ESC, '!' as int, printMode as int], now)
    {
      WriteBytes([ESC, '!' as int, printMode as int], now);
    }

    /**
     * setPrintMode(mask): the mode byte is sent with the old metrics, then the
     * height and width are derived from the double-height and double-width bits.
     */
    method SetPrintMode(mask: bv8, now: uint32)
      requires Valid()
      modifies this`printMode, this`internalBuffer, this`column, this`prevByte, this`resumeTime,
               this`charHeight, this`maxColumn
      ensures Valid()
      ensures printMode == old(printMode) | mask
      ensures internalBuffer == old(internalBuffer) + Stripped([ESC, '!' as int, printMode as int])
      ensures Pos() == StoreAll(old(Params()), old(Pos()), [ESC, '!' as int, printMode as int], now)
      ensures charHeight == ModeCharHeight(printMode) && maxColumn == ModeMaxColumn(printMode)
    {
      printMode := printMode | mask;
      WritePrintMode(now);
      charHeight := ModeCharHeight(printMode);
      maxColumn := ModeMaxColumn(printMode);
    }

    /** unsetPrintMode(mask): as setPrintMode, clearing the bits. */
    method UnsetPrintMode(mask: bv8, now: uint32)
      requires Valid()
      modifies this`printMode, this`internalBuffer, this`column, this`prevByte, this`resumeTime,
               this`charHeight, this`maxColumn
      ensures Valid()
      ensures printMode == old(printMode) & !mask
      ensures internalBuffer == old(internalBuffer) + Stripped([ESC, '!' as int, printMode as int])
      ensures Pos() == StoreAll(old(Params()), old(Pos()), [ESC, '!' as int, printMode as int], now)
      ensures charHeight == ModeCharHeight(printMode) && maxColumn == ModeMaxColumn(printMode)
    {
      printMode := printMode & !mask;
      WritePrintMode(now);
      charHeight := ModeCharHeight(printMode);
      maxColumn := ModeMaxColumn(printMode);
    }

    /** setSize(value): metrics first, then `GS '!' size` with the new metrics; prevByte becomes LF, the column keeps counting. */
    method SetSize(value: char, now: uint32)
      requires Valid()
      modifies this`internalBuffer, this`column, this`prevByte, this`resumeTime, this`charHeight, this`maxColumn
      ensures Valid()
      ensures charHeight == SizeFor(value).charHeight && maxColumn == SizeFor(value).maxColumn
      ensures internalBuffer == old(internalBuffer) + Stripped([GS, '!' as int, SizeFor(value).size])
      ensures Pos() == StoreAll(Params(), old(Pos()), [GS, '!' as int, SizeFor(value).size], now).(prevByte := LF)
    {
      var s := SizeFor(value);
      charHeight := s.charHeight;
      maxColumn := s.maxColumn;
      WriteBytes([GS, '!' as int, s.size], now);
      prevByte := LF;
    }

    /** setLineHeight(val): spacing first, then `ESC '3' val` with the new spacing. */
    method SetLineHeight(val: int, now: uint32)
      modifies this`internalBuffer, this`column, this`prevByte, this`resumeTime, this`lineSpacing
      ensures lineSpacing == LineSpacingFor(val)
      ensures internalBuffer == old(internalBuffer) + Stripped([ESC, '3' as int, LineHeightParam(val)])
      ensures Pos() == StoreAll(Params(), old(Pos()), [ESC, '3' as int, LineHeightParam(val)], now)
    {
      lineSpacing := LineSpacingFor(val);
      WriteBytes([ESC, '3' as int, LineHeightParam(val)], now);
    }

    /** tab(): the TAB byte advances the column as a character, then the column is rounded. */
    method Tab(now: uint32)
      modifies this`internalBuffer, this`column, this`prevByte, this`resumeTime
      ensures internalBuffer == old(internalBuffer) + [TAB]
      ensures var c := Store(Params(), old(Pos()), TAB, now);
              Pos() == c.(column := TabStop(c.column))
    {
      WriteBytes([TAB], now);
      assert StoreAll(Params(), old(Pos()), [TAB], now) == StoreAll(Params(), Store(Params(), old(Pos()), TAB, now), [], now);
      StrippedKeepsCRFree([TAB]);
      column := TabStop(column);
    }

    /** feed(x): `ESC 'd' x`, then `dotFeedTime * charHeight`, line closed. */
    method Feed(x: uint8, now: uint32)
      modifies this`internalBuffer, this`column, this`prevByte, this`resumeTime
      ensures internalBuffer == old(internalBuffer) + Stripped([ESC, 'd' as int, x])
      ensures Pos() == AfterFeed(Params(), old(Pos()), x, now)
    {
      WriteBytes([ESC, 'd' as int, x], now);
      TimeoutSet(Wrap32(dotFeedTime * charHeight), now);
      prevByte := LF;
      column := 0;
    }

    /** feedRows(rows): `ESC 'J' rows`, then `rows * dotFeedTime`, line closed. */
    method FeedRows(rows: uint8, now: uint32)
      modifies this`internalBuffer, this`column, this`prevByte, this`resumeTime
      ensures internalBuffer == old(internalBuffer) + Stripped([ESC, 'J' as int, rows])
      ensures Pos() == TimedCommand(Params(), old(Pos()), [ESC, 'J' as int, rows], Wrap32(rows * dotFeedTime), now)
                         .(prevByte := LF, column := 0)
    {
      WriteBytes([ESC, 'J' as int, rows], now);
      TimeoutSet(Wrap32(rows * dotFeedTime), now);
      prevByte := LF;
      column := 0;
    }

    /** The field values reset() sets between its two commands. */
    method SetDefaults()
      modifies this`column, this`prevByte, this`maxColumn, this`charHeight, this`lineSpacing, this`barcodeHeight
      ensures prevByte == LF && column == 0
      ensures maxColumn == 32 && charHeight == 24 && lineSpacing == 6 && barcodeHeight == 50
    {
      prevByte := LF;
      column := 0;
      maxColumn := 32;
      charHeight := 24;
      lineSpacing := 6;
      barcodeHeight := 50;
    }

    /** reset(): init command, default metrics, tab stops every 4 columns. */
    method Reset(now: uint32)
      modifies this`internalBuffer, this`column, this`prevByte, this`resumeTime,
               this`maxColumn, this`charHeight, this`lineSpacing, this`barcodeHeight
      ensures internalBuffer == old(internalBuffer) + ResetInit + TabStops
      ensures maxColumn == 32 && charHeight == 24 && lineSpacing == 6 && barcodeHeight == 50
      ensures Params() == ResetKnobs(old(Params()))
      ensures Pos() == AfterReset(old(Params()), old(Pos()), now)
    {
      ghost var k0, p0, q0 := Params(), Pos(), internalBuffer;
      WriteBytes(ResetInit, now);
      ghost var c, q1 := Pos(), internalBuffer;
      SetDefaults();
      ghost var k1, mid := Params(), Pos();
      assert k1 == ResetKnobs(k0) && mid == Cursor(0, LF, c.resumeTime);
      WriteBytes(TabStops, now);
      StrippedKeepsCRFree(ResetInit);
      StrippedKeepsCRFree(TabStops);
    }

    /** testPage(): `DC2 'T'`, then 26 text lines of 24 dots and 26 * 6 + 30 fed dots. */
    method TestPage(now: uint32)
      modifies this`internalBuffer, this`column, this`prevByte, this`resumeTime
      ensures internalBuffer == old(internalBuffer) + [DC2, 'T' as int]
      ensures Pos() == TimedCommand(Params(), old(Pos()), [DC2, 'T' as int],
                                    Wrap32(dotPrintTime * 24 * 26 + dotFeedTime * (6 * 26 + 30)), now)
    {
      StrippedKeepsCRFree([DC2, 'T' as int]);
      WriteBytes([DC2, 'T' as int], now);
      TimeoutSet(Wrap32(dotPrintTime * 24 * 26 + dotFeedTime * (6 * 26 + 30)), now);
    }

    /** setBarcodeHeight(val): at least 1 dot, recorded for printBarcode's time estimate. */
    method SetBarcodeHeight(val: uint8, now: uint32)
      modifies this`internalBuffer, this`column, this`prevByte, this`resumeTime, this`barcodeHeight
      ensures barcodeHeight == BarcodeHeightClamp(val) && barcodeHeight >= 1
      ensures internalBuffer == old(internalBuffer) + Stripped([GS, 'h' as int, barcodeHeight])
      ensures Pos() == StoreAll(Params(), old(Pos()), [GS, 'h' as int, barcodeHeight], now)
    {
      var v := BarcodeHeightClamp(val);
      barcodeHeight := v;
      WriteBytes([GS, 'h' as int, v], now);
    }

    /**
     * printBarcode(text, type): feed(1), label and width settings, the type,
     * a length byte of at most 255 and that many text bytes, then
     * `(barcodeHeight + 40) * dotPrintTime`. `text` is the C string without
     * its terminating NUL.
     */
    method PrintBarcode(text: seq<uint8>, barcodeType: uint8, now: uint32)
      requires forall i :: 0 <= i < |text| ==> text[i] != 0
      modifies this`internalBuffer, this`column, this`prevByte, this`resumeTime
      ensures internalBuffer == old(internalBuffer) + Stripped([ESC, 'd' as int, 1]) + Stripped(BarcodeBytes(text, barcodeType))
      ensures Pos() == AfterBarcode(Params(), old(Pos()), text, barcodeType, barcodeHeight, now)
    {
      ghost var k0, p0 := Params(), Pos();
      Feed(1, now);
      assert Pos() == AfterFeed(k0, p0, 1, now);
      WriteBytes(BarcodeBytes(text, barcodeType), now);
      TimeoutSet(Wrap32((barcodeHeight + 40) * dotPrintTime), now);
      prevByte := LF;
    }

    /** justify(value): `ESC 'a' pos` with pos 0, 1 or 2. */
    method Justify(value: char, now: uint32)
      modifies this`internalBuffer, this`column, this`prevByte, this`resumeTime
      ensures internalBuffer == old(internalBuffer) + [ESC, 'a' as int, JustifyPos(value)]
      ensures Pos() == StoreAll(Params(), old(Pos()), [ESC, 'a' as int, JustifyPos(value)], now)
    {
      var pos := JustifyPos(value);
      StrippedKeepsCRFree([ESC, 'a' as int, pos]);
      WriteBytes([ESC, 'a' as int, pos], now);
    }

    /** underlineOn(weight): `ESC '-' weight` with the weight clamped to 2. */
    method UnderlineOn(weight: uint8, now: uint32)
      modifies this`internalBuffer, this`column, this`prevByte, this`resumeTime
      ensures internalBuffer == old(internalBuffer) + [ESC, '-' as int, UnderlineClamp(weight)]
      ensures Pos() == StoreAll(Params(), old(Pos()), [ESC, '-' as int, UnderlineClamp(weight)], now)
    {
      var w := UnderlineClamp(weight);
      StrippedKeepsCRFree([ESC, '-' as int, w]);
      WriteBytes([ESC, '-' as int, w], now);
    }

    /** underlineOff(): `ESC '-' 0`. */
    method UnderlineOff(now: uint32)
      modifies this`internalBuffer, this`column, this`prevByte, this`resumeTime
      ensures internalBuffer == old(internalBuffer) + [ESC, '-' as int, 0]
      ensures Pos() == StoreAll(Params(), old(Pos()), [ESC, '-' as int, 0], now)
    {
      StrippedKeepsCRFree([ESC, '-' as int, 0]);
      WriteBytes([ESC, '-' as int, 0], now);
    }

    /**
     * setCharset(val): `ESC 'R' val` with val clamped to 15. Character set 13
     * is the code of CR, so storeInBuffer drops that parameter byte.
     */
    method SetCharset(val: uint8, now: uint32)
      modifies this`internalBuffer, this`column, this`prevByte, this`resumeTime
      ensures internalBuffer == old(internalBuffer) + Stripped([ESC, 'R' as int, CharsetClamp(val)])
      ensures Pos() == StoreAll(Params(), old(Pos()), [ESC, 'R' as int, CharsetClamp(val)], now)
    {
      WriteBytes([ESC, 'R' as int, CharsetClamp(val)], now);
    }

    /** setCodePage(val): `ESC 't' val` with val clamped to 47; code page 13 loses its byte too. */
    method SetCodePage(val: uint8, now: uint32)
      modifies this`internalBuffer, this`column, this`prevByte, this`resumeTime
      ensures internalBuffer == old(internalBuffer) + Stripped([ESC, 't' as int, CodePageClamp(val)])
      ensures Pos() == StoreAll(Params(), old(Pos()), [ESC, 't' as int, CodePageClamp(val)], now)
    {
      WriteBytes([ESC, 't' as int, CodePageClamp(val)], now);
    }

    /** reprintQRcode(): the print command, then the line counts as closed; no print time is registered. */
    method ReprintQRcode(now: uint32)
      modifies this`internalBuffer, this`column, this`prevByte, this`resumeTime
      ensures internalBuffer == old(internalBuffer) + QRPrint
      ensures Pos() == StoreAll(Params(), old(Pos()), QRPrint, now).(prevByte := LF)
    {
      QRPrintKept();
      WriteBytes(QRPrint, now);
      prevByte := LF;
    }

    /**
     * printQRcode(text, errCorrect, moduleSize, model): model, module size and
     * error-correction commands with their clamped arguments, the store
     * command for the text (whose length is held in 16 bits), the text, and
     * reprintQRcode. `text` is the C string without its terminating NUL.
     */
    method PrintQRcode(text: seq<uint8>, errCorrect: uint8, moduleSize: uint8, model: uint8, now: uint32)
      requires forall i :: 0 <= i < |text| ==> text[i] != 0
      modifies this`internalBuffer, this`column, this`prevByte, this`resumeTime
      ensures internalBuffer == old(internalBuffer) + Stripped(QRBytes(text, errCorrect, moduleSize, model))
      ensures Pos() == StoreAll(Params(), old(Pos()), QRBytes(text, errCorrect, moduleSize, model), now).(prevByte := LF)
    {
      // The bytes of reprintQRcode are sent by the same writeBytes loop.
      WriteBytes(QRBytes(text, errCorrect, moduleSize, model), now);
      prevByte := LF;
    }

    /** The inner row loop of printBitmap and defineBitImage: `n` bytes from offset `start` through storeInBuffer. */
    method StoreRow(bitmap: seq<uint8>, start: nat, n: nat, now: uint32)
      requires start + n <= |bitmap|
      modifies this`internalBuffer, this`column, this`prevByte, this`resumeTime
      ensures internalBuffer == old(internalBuffer) + Stripped(bitmap[start .. start + n])
      ensures Pos() == StoreAll(Params(), old(Pos()), bitmap[start .. start + n], now)
    {
      ghost var k0, p0, q0 := Params(), Pos(), internalBuffer;
      var i := start;
      while i < start + n
        invariant start <= i <= start + n
        invariant internalBuffer == q0 + Stripped(bitmap[start .. i])
        invariant Pos() == StoreAll(k0, p0, bitmap[start .. i], now)
      {
        SliceStep(k0, p0, bitmap, start, i, now);
        StoreInBuffer(bitmap[i], now);
        i := i + 1;
      }
    }

    /**
     * The row loops of printBitmap and defineBitImage: every byte of the h
     * rows goes through storeInBuffer, in order.
     */
    method StoreRows(bitmap: seq<uint8>, h: nat, rowBytes: nat, now: uint32)
      requires h * rowBytes <= |bitmap|
      modifies this`internalBuffer, this`column, this`prevByte, this`resumeTime
      ensures internalBuffer == old(internalBuffer) + Stripped(bitmap[..h * rowBytes])
      ensures Pos() == StoreAll(Params(), old(Pos()), bitmap[..h * rowBytes], now)
    {
      ghost var k0, p0, q0 := Params(), Pos(), internalBuffer;
      var i := 0;
      var y := 0;
      while y < h
        invariant y <= h && i == y * rowBytes && i <= h * rowBytes
        invariant internalBuffer == q0 + Stripped(bitmap[..i])
        invariant Pos() == StoreAll(k0, p0, bitmap[..i], now)
      {
        MulStep(y, rowBytes);
        MulMono(y + 1, h, rowBytes);
        PrefixStep(k0, p0, bitmap, i, i + rowBytes, now);
        StoreRow(bitmap, i, rowBytes, now);
        i := i + rowBytes;
        y := y + 1;
      }
    }

    /**
     * The common tail of printBitmap and defineBitImage: the header, then
     * the h rows, through storeInBuffer; then `h * dotPrintTime` is
     * registered and the line is closed.
     */
    method QueueImage(header: seq<uint8>, bitmap: seq<uint8>, h: nat, rowBytes: nat, now: uint32)
      requires h * rowBytes <= |bitmap|
      modifies this`internalBuffer, this`column, this`prevByte, this`resumeTime
      ensures internalBuffer == old(internalBuffer) + Stripped(header + bitmap[..h * rowBytes])
      ensures Pos() == AfterRaster(Params(), old(Pos()), header + bitmap[..h * rowBytes], h, now)
    {
      ghost var k0, p0, q0 := Params(), Pos(), internalBuffer;
      var data := bitmap[..h * rowBytes];
      WriteBytes(header, now);
      ghost var p1, q1 := Pos(), internalBuffer;
      StoreRows(bitmap, h, rowBytes, now);
      assert internalBuffer == q1 + Stripped(data) && Pos() == StoreAll(k0, p1, data, now);
      StoreAllAppend(k0, p0, header, data, now);
      StrippedAppend(header, data);
      assert internalBuffer == q0 + Stripped(header + data);
      TimeoutSet(Wrap32(h * dotPrintTime), now);
      prevByte := LF;
    }

    /**
     * printBitmap(w, h, bitmap): refuses with 1, changing nothing, when the
     * 32-bit reservation `h * rowBytes + 8 + queue length + excessBytes`
     * exceeds `availableMem`; otherwise marks the queue as largely reserved,
     * queues the raster header and the h rows through storeInBuffer,
     * registers `h * dotPrintTime`, closes the line and returns 0.
     */
    method PrintBitmap(w: nat, h: nat, bitmap: seq<uint8>, availableMem: uint32, excessBytes: uint32, now: uint32)
      returns (r: int)
      requires h * RowBytes(w) <= |bitmap|
      modifies this`internalBuffer, this`column, this`prevByte, this`resumeTime, this`largeReserve
      ensures r == 0 || r == 1
      ensures r == 1 <==> Wrap32(h * RowBytes(w) + 8 + |old(internalBuffer)| + excessBytes) > availableMem
      ensures r == 1 ==> internalBuffer == old(internalBuffer) && Pos() == old(Pos()) && largeReserve == old(largeReserve)
      ensures r == 0 ==> && largeReserve
                         && internalBuffer == old(internalBuffer) + Stripped(RasterHeader(w, h) + bitmap[..h * RowBytes(w)])
                         && Pos() == AfterRaster(Params(), old(Pos()), RasterHeader(w, h) + bitmap[..h * RowBytes(w)], h, now)
    {
      var rowBytes := RowBytes(w);
      var bytesToReserve := Wrap32(h * rowBytes + 8 + |internalBuffer| + excessBytes);
      if bytesToReserve > availableMem {
        return 1;
      }
      largeReserve := true;
      QueueImage(RasterHeader(w, h), bitmap, h, rowBytes, now);
      r := 0;
    }

    /**
     * defineBitImage(w, h, bitmap): as printBitmap with the 4-byte
     * `GS '*'` header; its reservation test leaves out the header's bytes.
     */
    method DefineBitImage(w: nat, h: nat, bitmap: seq<uint8>, availableMem: uint32, excessBytes: uint32, now: uint32)
      returns (r: int)
      requires h * RowBytes(w) <= |bitmap|
      modifies this`internalBuffer, this`column, this`prevByte, this`resumeTime, this`largeReserve
      ensures r == 0 || r == 1
      ensures r == 1 <==> Wrap32(h * RowBytes(w) + |old(internalBuffer)| + excessBytes) > availableMem
      ensures r == 1 ==> internalBuffer == old(internalBuffer) && Pos() == old(Pos()) && largeReserve == old(largeReserve)
      ensures r == 0 ==> && largeReserve
                         && internalBuffer == old(internalBuffer) + Stripped(BitImageHeader(w, h) + bitmap[..h * RowBytes(w)])
                         && Pos() == AfterRaster(Params(), old(Pos()), BitImageHeader(w, h) + bitmap[..h * RowBytes(w)], h, now)
    {
      var rowBytes := RowBytes(w);
      if Wrap32(h * rowBytes + |internalBuffer| + excessBytes) > availableMem {
        return 1;
      }
      largeReserve := true;
      QueueImage(BitImageHeader(w, h), bitmap, h, rowBytes, now);
      r := 0;
    }

    /** The inner data loop of printBitmap_ada: `clipped` bytes from offset `start` to the serial port. */
    method SendRow(bitmap: seq<uint8>, start: nat, clipped: nat)
      requires start + clipped <= |bitmap|
      modifies this`wire
      ensures wire == old(wire) + bitmap[start .. start + clipped]
    {
      var i := start;
      while i < start + clipped
        invariant start <= i <= start + clipped
        invariant wire == old(wire) + bitmap[start .. i]
      {
        assert bitmap[start .. i + 1] == bitmap[start .. i] + [bitmap[i]];
        wire := wire + [bitmap[i]];
        i := i + 1;
      }
    }

    /**
     * The state of the data loops of a chunk after the rows `from` up to
     * `row` (of `from` up to `end`): `i` is the offset of the next row and
     * the port holds the clipped rows sent so far after `wire0`.
     */
    ghost predicate RowsSent(bitmap: seq<uint8>, rowBytes: nat, clipped: nat, from: nat, row: nat, end: nat, i: nat,
                             wire0: seq<uint8>)
      reads this`wire
    {
      && clipped <= rowBytes && from <= row <= end && end * rowBytes <= |bitmap|
      && i == row * rowBytes && i <= |bitmap|
      && wire == wire0 + RowsData(bitmap, rowBytes, clipped, from, row)
    }

    /** One pass of the y loop: the clipped row at offset i to the port, then i moves past the skipped bytes. */
    method SendNextRow(bitmap: seq<uint8>, rowBytes: nat, clipped: nat, ghost from: nat, ghost row: nat, ghost end: nat, i: nat,
                       ghost wire0: seq<uint8>)
      returns (next: nat)
      requires row < end && RowsSent(bitmap, rowBytes, clipped, from, row, end, i, wire0)
      modifies this`wire
      ensures RowsSent(bitmap, rowBytes, clipped, from, row + 1, end, next, wire0)
    {
      NextRow(bitmap, rowBytes, clipped, from, row, end, i);
      SendRow(bitmap, i, clipped);
      next := i + clipped;
      next := next + (rowBytes - clipped);
    }

    /**
     * The data loops of one printBitmap_ada chunk: `count` rows from row
     * `from`, the first `clipped` bytes of each written to the serial port
     * directly, the remaining `rowBytes - clipped` skipped.
     */
    method SendRows(bitmap: seq<uint8>, rowBytes: nat, clipped: nat, from: nat, count: nat)
      requires clipped <= rowBytes && (from + count) * rowBytes <= |bitmap|
      modifies this`wire
      ensures wire == old(wire) + RowsData(bitmap, rowBytes, clipped, from, from + count)
    {
      var i: nat := from * rowBytes;
      var y := 0;
      ghost var row := from;
      MulMono(from, from + count, rowBytes);
      assert RowsData(bitmap, rowBytes, clipped, from, from) == [];
      while y < count
        invariant y <= count && row == from + y
        invariant RowsSent(bitmap, rowBytes, clipped, from, row, from + count, i, old(wire))
      {
        i := SendNextRow(bitmap, rowBytes, clipped, from, row, from + count, i, old(wire));
        y := y + 1;
        row := row + 1;
      }
    }

    /**
     * One pass of the chunk loop of printBitmap_ada: the header through
     * storeInBuffer, the rows to the serial port, then the chunk's print time.
     */
    method SendChunk(bitmap: seq<uint8>, rowBytes: nat, clipped: nat, rowStart: nat, chunkHeight: nat, now: uint32)
      requires clipped <= rowBytes && (rowStart + chunkHeight) * rowBytes <= |bitmap|
      modifies this`internalBuffer, this`column, this`prevByte, this`resumeTime, this`wire
      ensures internalBuffer == old(internalBuffer) + Stripped(AdaHeader(chunkHeight, clipped))
      ensures wire == old(wire) + RowsData(bitmap, rowBytes, clipped, rowStart, rowStart + chunkHeight)
      ensures Pos() == TimedCommand(Params(), old(Pos()), AdaHeader(chunkHeight, clipped),
                                    Wrap32(chunkHeight * dotPrintTime), now)
    {
      WriteBytes(AdaHeader(chunkHeight, clipped), now);
      SendRows(bitmap, rowBytes, clipped, rowStart, chunkHeight);
      TimeoutSet(Wrap32(chunkHeight * dotPrintTime), now);
    }

    /**
     * The chunk loop of printBitmap_ada, `for (rowStart = 0; rowStart < h;
     * rowStart += limit)`, for given row width, clipped width and chunk limit.
     */
    method ChunkLoop(bitmap: seq<uint8>, h: nat, rowBytes: nat, clipped: nat, limit: nat, now: uint32)
      requires clipped <= rowBytes && h * rowBytes <= |bitmap| && limit >= 1
      modifies this`internalBuffer, this`column, this`prevByte, this`resumeTime, this`wire
      ensures wire == old(wire) + RowsData(bitmap, rowBytes, clipped, 0, h)
      ensures internalBuffer == old(internalBuffer) + Stripped(AdaHeaders(ChunkHeights(h, limit, 0), clipped))
      ensures Pos() == AdaRun(Params(), old(Pos()), ChunkHeights(h, limit, 0), clipped, now)
    {
      ghost var k0, p0, q0, w0 := Params(), Pos(), internalBuffer, wire;
      ChunkProgressStart(bitmap, rowBytes, clipped, h, limit, k0, now, p0, q0, w0);
      var rowStart := 0;
      while rowStart < h
        invariant ChunkProgress(bitmap, rowBytes, clipped, h, limit, k0, now, p0, q0, w0, rowStart, Pos(), internalBuffer, wire)
        invariant Params() == k0
        decreases (h as int) - (rowStart as int)
      {
        var chunkHeight := h - rowStart;
        if chunkHeight > limit {
          chunkHeight := limit;
        }
        assert chunkHeight == Min(limit, h - rowStart);
        ghost var c1, q1, w1 := Pos(), internalBuffer, wire;
        ChunkProgressStep(bitmap, rowBytes, clipped, h, limit, k0, now, p0, q0, w0, rowStart, c1, q1, w1);
        SendChunk(bitmap, rowBytes, clipped, rowStart, chunkHeight, now);
        assert Pos() == TimedCommand(k0, c1, AdaHeader(chunkHeight, clipped), Wrap32(chunkHeight * k0.dotPrintTime), now);
        rowStart := rowStart + limit;
      }
      ChunkProgressEnd(bitmap, rowBytes, clipped, h, limit, k0, now, p0, q0, w0, rowStart, Pos(), internalBuffer, wire);
    }

    /**
     * The state printBitmap_ada(w, h, data) leaves behind, from the serial
     * output, queue and cursor `wire0`, `queue0`, `pos0` it started from:
     * chunks of at most the chunk limit rows; each chunk's `ESC '*' height
     * width` header went through storeInBuffer into the queue, its data
     * straight to the serial port, and its print time `height *
     * dotPrintTime` was registered; the line was then closed. It holds only
     * for transfers that can happen: without DTR a zero width divides by
     * zero and a chunk limit of 0 never advances.
     */
    ghost predicate AdaSent(w: nat, h: nat, data: seq<uint8>, now: uint32, wire0: seq<uint8>, queue0: seq<uint8>, pos0: Cursor)
      reads this
    {
      && (dtrEnabled || (w >= 1 && maxChunkHeight >= 1))
      && h * RowBytes(w) <= |data|
      && var clipped := Clipped(RowBytes(w));
      var hs := ChunkHeights(h, ChunkLimit(dtrEnabled, clipped, maxChunkHeight), 0);
      && wire == wire0 + RowsData(data, RowBytes(w), clipped, 0, h)
      && internalBuffer == queue0 + Stripped(AdaHeaders(hs, clipped))
      && Pos() == AdaRun(Params(), pos0, hs, clipped, now).(prevByte := LF)
    }

    /** printBitmap_ada(w, h, bitmap): the chunked transfer AdaSent describes. */
    method PrintBitmapAda(w: nat, h: nat, bitmap: seq<uint8>, now: uint32)
      requires dtrEnabled || (w >= 1 && maxChunkHeight >= 1)
      requires h * RowBytes(w) <= |bitmap|
      modifies this`internalBuffer, this`column, this`prevByte, this`resumeTime, this`wire
      ensures AdaSent(w, h, bitmap, now, old(wire), old(internalBuffer), old(Pos()))
    {
      var rowBytes := RowBytes(w);
      var clipped := Clipped(rowBytes);
      var limit := ChunkLimit(dtrEnabled, clipped, maxChunkHeight);
      ChunkLoop(bitmap, h, rowBytes, clipped, limit, now);
      prevByte := LF;
    }

    /**
     * printBitmap_ada(w, h, fromStream): the same transfer with the bitmap
     * read from a stream. `input` is the sequence of bytes the stream
     * delivers (the busy-wait on an empty stream only delays them); the
     * skipped bytes of each row are read too, and `rest` is what is left.
     */
    method PrintBitmapAdaStream(w: nat, h: nat, input: seq<uint8>, now: uint32) returns (rest: seq<uint8>)
      requires dtrEnabled || (w >= 1 && maxChunkHeight >= 1)
      requires StreamBytes(h, RowBytes(w)) <= |input|
      modifies this`internalBuffer, this`column, this`prevByte, this`resumeTime, this`wire
      ensures rest == input[StreamBytes(h, RowBytes(w))..]
      ensures AdaSent(w, h, input, now, old(wire), old(internalBuffer), old(Pos()))
    {
      StreamBytesIsSize(h, RowBytes(w));
      rest := input[h * RowBytes(w)..];
      PrintBitmapAda(w, h, input, now);
    }

    /**
     * printBitmap_ada(fromStream): width and height as 16-bit little-endian
     * values read from the head of the stream, then the transfer above on
     * the bytes that follow. `wLo`, `wHi`, `hLo`, `hHi` are the first four
     * bytes read and `input` the bytes the stream delivers after them.
     */
    method PrintBitmapAdaSized(wLo: uint8, wHi: uint8, hLo: uint8, hHi: uint8, input: seq<uint8>, now: uint32)
      returns (w: nat, h: nat, rest: seq<uint8>)
      requires dtrEnabled || (LittleEndian16(wLo, wHi) >= 1 && maxChunkHeight >= 1)
      requires StreamBytes(LittleEndian16(hLo, hHi), RowBytes(LittleEndian16(wLo, wHi))) <= |input|
      modifies this`internalBuffer, this`column, this`prevByte, this`resumeTime, this`wire
      ensures w == LittleEndian16(wLo, wHi) && h == LittleEndian16(hLo, hHi)
      ensures rest == input[StreamBytes(h, RowBytes(w))..]
      ensures AdaSent(w, h, input, now, old(wire), old(internalBuffer), old(Pos()))
    {
      var tmp := wLo;
      w := wHi * 256 + tmp;
      tmp := hLo;
      h := hHi * 256 + tmp;
      rest := PrintBitmapAdaStream(w, h, input, now);
    }
  }
}
