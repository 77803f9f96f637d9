/**
 * The bitmap chunk planner of printBitmap_ada (Adafruit_Thermal.cpp): rows are
 * rounded up to whole bytes, clipped to the 48-byte (384-dot) print width, and
 * sent in chunks of at most `limit` rows, each announced by `ESC '*' height width`.
 */
module Chunking {
  import opened Ints
  import opened Timing
  import opened Pacing

  /** Widest raster row the mechanism prints: 48 bytes = 384 dots. */
  const MAX_ROW_BYTES: nat := 48

  /** The receive buffer the planner assumes when there is no DTR handshake. */
  const ASSUMED_BUFFER: nat := 256

  /** `(w + 7) / 8`: a row of w pixels rounded up to whole bytes. */
  function RowBytes(w: nat): (r: nat)
    ensures 8 * r >= w && 8 * r < w + 8
  {
    (w + 7) / 8
  }

  /** `rowBytes >= 48 ? 48 : rowBytes`. */
  function Clipped(rowBytes: nat): (r: nat)
    ensures r <= MAX_ROW_BYTES && r <= rowBytes
    ensures rowBytes <= MAX_ROW_BYTES ==> r == rowBytes
  {
    if rowBytes >= MAX_ROW_BYTES then MAX_ROW_BYTES else rowBytes
  }

  /** The number of rows sent per chunk. */
  function ChunkLimit(dtrEnabled: bool, clipped: nat, maxChunkHeight: uint8): (r: nat)
    requires dtrEnabled || 1 <= clipped
    ensures dtrEnabled ==> r == 255
    ensures !dtrEnabled && maxChunkHeight >= 1 ==> 1 <= r <= maxChunkHeight
  {
    if dtrEnabled then 255
    else
      var limit := ASSUMED_BUFFER / clipped;
      if limit > maxChunkHeight then maxChunkHeight
      else if limit < 1 then 1
      else limit
  }

  /**
   * Without DTR the limit is the number of rows that fit the printer's
   * assumed buffer, capped by maxChunkHeight, and a chunk overflows that
   * buffer only when it is a single row.
   */
  lemma ChunkLimitFitsBuffer(clipped: nat, maxChunkHeight: uint8)
    requires 1 <= clipped
    ensures clipped <= ASSUMED_BUFFER ==> ChunkLimit(false, clipped, maxChunkHeight) == Min(ASSUMED_BUFFER / clipped, maxChunkHeight)
    ensures var r := ChunkLimit(false, clipped, maxChunkHeight); r * clipped <= ASSUMED_BUFFER || r == 1
  {
    var limit := ASSUMED_BUFFER / clipped;
    assert limit * clipped <= ASSUMED_BUFFER;
    var r := ChunkLimit(false, clipped, maxChunkHeight);
    if r != 1 {
      assert r <= limit;
      MulMono(r, limit, clipped);
    }
  }

  /**
   * Rows are at most 48 bytes wide, so 256 / clipped is at least 5 and the
   * `chunkHeightLimit < 1` correction never applies.
   */
  lemma ChunkLimitFloorUnreachable(clipped: nat)
    requires 1 <= clipped <= MAX_ROW_BYTES
    ensures ASSUMED_BUFFER / clipped >= 5
  {
  }

  /** The quantities the planner derives from one request. */
  datatype ChunkPlan = ChunkPlan(rowBytes: nat, clipped: nat, limit: nat)

  function PlanFor(w: nat, dtrEnabled: bool, maxChunkHeight: uint8): ChunkPlan
    requires w >= 1
  {
    var rb := RowBytes(w);
    var cl := Clipped(rb);
    ChunkPlan(rb, cl, ChunkLimit(dtrEnabled, cl, maxChunkHeight))
  }

  /** 400 pixels: 50 bytes a row, clipped to 48, 5 rows a chunk; 100 pixels: 13 bytes, 19 rows. */
  lemma PlanExamples()
    ensures PlanFor(400, false, 255) == ChunkPlan(50, 48, 5)
    ensures PlanFor(100, false, 255) == ChunkPlan(13, 13, 19)
    ensures PlanFor(400, true, 255).limit == 255
  {
  }

  /** The heights of the chunks the loop `for (rowStart = 0; rowStart < h; rowStart += limit)` sends. */
  function ChunkHeights(h: nat, limit: nat, rowStart: nat): seq<nat>
    requires limit >= 1
    decreases h - rowStart
  {
    if rowStart >= h then []
    else [Min(limit, h - rowStart)] + ChunkHeights(h, limit, rowStart + limit)
  }

  function Sum(s: seq<nat>): nat
  {
    if s == [] then 0 else s[0] + Sum(s[1..])
  }

  /**
   * The chunks cover the remaining rows exactly, each chunk has between 1 and
   * `limit` rows, and every chunk but the last is full.
   */
  lemma {:induction false} ChunkHeightsCover(h: nat, limit: nat, rowStart: nat)
    requires limit >= 1
    ensures var hs := ChunkHeights(h, limit, rowStart);
            && Sum(hs) == (if rowStart <= h then h - rowStart else 0)
            && (forall i :: 0 <= i < |hs| ==> 1 <= hs[i] <= limit)
            && (forall i :: 0 <= i < |hs| - 1 ==> hs[i] == limit)
    decreases h - rowStart
  {
    if rowStart < h {
      ChunkHeightsCover(h, limit, rowStart + limit);
      var hs := ChunkHeights(h, limit, rowStart);
      var tail := ChunkHeights(h, limit, rowStart + limit);
      assert hs[1..] == tail;
      forall i | 0 <= i < |hs| - 1 ensures hs[i] == limit {
        if i > 0 { assert hs[i] == tail[i - 1]; }
        else { assert tail != []; }
      }
    }
  }

  /**
   * A bitmap of h rows takes ceil(h / limit) chunks: the fewest chunks of
   * `limit` rows that hold all remaining rows.
   */
  lemma {:induction false} ChunkCount(h: nat, limit: nat, rowStart: nat)
    requires limit >= 1 && rowStart < h
    ensures var n := |ChunkHeights(h, limit, rowStart)|;
            n >= 1 && (n - 1) * limit < h - rowStart <= n * limit
    decreases h - rowStart
  {
    var tail := ChunkHeights(h, limit, rowStart + limit);
    assert |ChunkHeights(h, limit, rowStart)| == |tail| + 1;
    if rowStart + limit < h {
      ChunkCount(h, limit, rowStart + limit);
      assert (|tail| + 1) * limit == |tail| * limit + limit;
    } else {
      assert tail == [];
    }
  }

  /** The chunk header `ESC '*' height width`, each value truncated to a byte. */
  function AdaHeader(height: nat, clipped: nat): seq<uint8>
  {
    [ESC, '*' as int, Wrap8(height), Wrap8(clipped)]
  }

  /** All chunk headers of a transfer, in order. */
  function AdaHeaders(hs: seq<nat>, clipped: nat): seq<uint8>
    decreases |hs|
  {
    if hs == [] then [] else AdaHeader(hs[0], clipped) + AdaHeaders(hs[1..], clipped)
  }

  /**
   * The headers travel through storeInBuffer, so for widths of 97 to 104
   * pixels (13 bytes, the code of CR) the width byte of every header is
   * dropped before it reaches the queue.
   */
  lemma NarrowBitmapLosesWidthByte(w: nat, height: nat)
    requires 97 <= w <= 104 && Wrap8(height) != CR
    ensures Clipped(RowBytes(w)) == 13
    ensures Stripped(AdaHeader(height, Clipped(RowBytes(w)))) == [ESC, '*' as int, Wrap8(height)]
  {
    var kept: seq<uint8> := [ESC, '*' as int, Wrap8(height)];
    assert AdaHeader(height, 13) == kept + [CR] + [];
    DropsLoneCR(kept, []);
  }

  /**
   * The timing and column state after the chunk loop: each header goes
   * through storeInBuffer, then the chunk's print time is registered with
   * timeoutSet. Data bytes bypass storeInBuffer and do not appear here.
   */
  function AdaRun(k: Knobs, cur: Cursor, hs: seq<nat>, clipped: nat, now: uint32): Cursor
    decreases |hs|
  {
    if hs == [] then cur
    else
      AdaRun(k, TimedCommand(k, cur, AdaHeader(hs[0], clipped), Wrap32(hs[0] * k.dotPrintTime), now),
             hs[1..], clipped, now)
  }

  /** The fold peels off its first chunk. */
  lemma AdaRunStep(k: Knobs, cur: Cursor, ch: nat, rest: seq<nat>, clipped: nat, now: uint32)
    ensures AdaRun(k, cur, [ch] + rest, clipped, now)
            == AdaRun(k, TimedCommand(k, cur, AdaHeader(ch, clipped), Wrap32(ch * k.dotPrintTime), now), rest, clipped, now)
  {
    assert ([ch] + rest)[1..] == rest;
  }

  /**
   * The state of the printBitmap_ada chunk loop when it reaches `rowStart`,
   * relative to the state (cur0, q0, w0) before the loop: the rows up to
   * rowStart have been written to the port, and the headers queued and the
   * cursor fold so far leave exactly the chunks from rowStart to come.
   */
  ghost predicate ChunkProgress(bitmap: seq<uint8>, rowBytes: nat, clipped: nat, h: nat, limit: nat, k: Knobs, now: uint32,
                                cur0: Cursor, q0: seq<uint8>, w0: seq<uint8>,
                                rowStart: nat, cur: Cursor, q: seq<uint8>, w: seq<uint8>)
    requires limit >= 1
  {
    && clipped <= rowBytes
    && Min(rowStart, h) * rowBytes <= |bitmap|
    && w == w0 + RowsData(bitmap, rowBytes, clipped, 0, Min(rowStart, h))
    && q0 + Stripped(AdaHeaders(ChunkHeights(h, limit, 0), clipped))
       == q + Stripped(AdaHeaders(ChunkHeights(h, limit, rowStart), clipped))
    && AdaRun(k, cur0, ChunkHeights(h, limit, 0), clipped, now)
       == AdaRun(k, cur, ChunkHeights(h, limit, rowStart), clipped, now)
  }

  lemma ChunkProgressStart(bitmap: seq<uint8>, rowBytes: nat, clipped: nat, h: nat, limit: nat, k: Knobs, now: uint32,
                           cur0: Cursor, q0: seq<uint8>, w0: seq<uint8>)
    requires limit >= 1 && clipped <= rowBytes
    ensures ChunkProgress(bitmap, rowBytes, clipped, h, limit, k, now, cur0, q0, w0, 0, cur0, q0, w0)
  {
    assert RowsData(bitmap, rowBytes, clipped, 0, Min(0, h)) == [];
  }

  /** One pass of the chunk loop: the header of Min(limit, h - rowStart) rows, its rows, its print time. */
  lemma ChunkProgressStep(bitmap: seq<uint8>, rowBytes: nat, clipped: nat, h: nat, limit: nat, k: Knobs, now: uint32,
                          cur0: Cursor, q0: seq<uint8>, w0: seq<uint8>,
                          rowStart: nat, cur: Cursor, q: seq<uint8>, w: seq<uint8>)
    requires limit >= 1 && h * rowBytes <= |bitmap| && rowStart < h
    requires ChunkProgress(bitmap, rowBytes, clipped, h, limit, k, now, cur0, q0, w0, rowStart, cur, q, w)
    ensures var ch := Min(limit, h - rowStart);
            && (rowStart + ch) * rowBytes <= |bitmap|
            && ChunkProgress(bitmap, rowBytes, clipped, h, limit, k, now, cur0, q0, w0, rowStart + limit,
                             TimedCommand(k, cur, AdaHeader(ch, clipped), Wrap32(ch * k.dotPrintTime), now),
                             q + Stripped(AdaHeader(ch, clipped)),
                             w + RowsData(bitmap, rowBytes, clipped, rowStart, rowStart + ch))
  {
    var ch := Min(limit, h - rowStart);
    var rest := ChunkHeights(h, limit, rowStart + limit);
    var all := ChunkHeights(h, limit, 0);
    assert Min(rowStart, h) == rowStart && Min(rowStart + limit, h) == rowStart + ch;
    MulMono(rowStart + ch, h, rowBytes);
    RowsDataSplit(bitmap, rowBytes, clipped, 0, rowStart, rowStart + ch);
    var w' := w + RowsData(bitmap, rowBytes, clipped, rowStart, rowStart + ch);
    assert w' == w0 + RowsData(bitmap, rowBytes, clipped, 0, rowStart + ch);
    assert ChunkHeights(h, limit, rowStart) == [ch] + rest;
    assert ([ch] + rest)[1..] == rest;
    var head, tail := Stripped(AdaHeader(ch, clipped)), Stripped(AdaHeaders(rest, clipped));
    StrippedAppend(AdaHeader(ch, clipped), AdaHeaders(rest, clipped));
    assert Stripped(AdaHeaders(ChunkHeights(h, limit, rowStart), clipped)) == head + tail;
    assert q0 + Stripped(AdaHeaders(all, clipped)) == (q + head) + tail;
    AdaRunStep(k, cur, ch, rest, clipped, now);
  }

  /** When the loop ends, all rows are sent, all headers queued and the whole fold applied. */
  lemma ChunkProgressEnd(bitmap: seq<uint8>, rowBytes: nat, clipped: nat, h: nat, limit: nat, k: Knobs, now: uint32,
                         cur0: Cursor, q0: seq<uint8>, w0: seq<uint8>,
                         rowStart: nat, cur: Cursor, q: seq<uint8>, w: seq<uint8>)
    requires limit >= 1 && rowStart >= h
    requires ChunkProgress(bitmap, rowBytes, clipped, h, limit, k, now, cur0, q0, w0, rowStart, cur, q, w)
    ensures h * rowBytes <= |bitmap|
    ensures w == w0 + RowsData(bitmap, rowBytes, clipped, 0, h)
    ensures q == q0 + Stripped(AdaHeaders(ChunkHeights(h, limit, 0), clipped))
    ensures cur == AdaRun(k, cur0, ChunkHeights(h, limit, 0), clipped, now)
  {
    assert Min(rowStart, h) == h;
    assert ChunkHeights(h, limit, rowStart) == [];
  }

  /** The first `clipped` bytes of row r of a bitmap stored `rowBytes` bytes per row. */
  function RowData(bitmap: seq<uint8>, rowBytes: nat, clipped: nat, r: nat): seq<uint8>
    requires clipped <= rowBytes && (r + 1) * rowBytes <= |bitmap|
  {
    bitmap[r * rowBytes .. r * rowBytes + clipped]
  }

  lemma MulMono(a: nat, b: nat, n: nat)
    requires a <= b
    ensures a * n <= b * n
  {
  }

  /** Rows `from` up to `to` (exclusive), each clipped, concatenated. */
  function RowsData(bitmap: seq<uint8>, rowBytes: nat, clipped: nat, from: nat, to: nat): seq<uint8>
    requires from <= to && clipped <= rowBytes && to * rowBytes <= |bitmap|
    decreases (to as int) - (from as int)
  {
    if from == to then []
    else
      MulMono(from + 1, to, rowBytes);
      RowData(bitmap, rowBytes, clipped, from) + RowsData(bitmap, rowBytes, clipped, from + 1, to)
  }

  /**
   * The data sent for a bitmap: `clipped` bytes for each of its rows. Byte x
   * of row from + k sits at offset k * clipped + x of the data and is the
   * bitmap byte at offset (from + k) * rowBytes + x; the remaining
   * rowBytes - clipped bytes of each row are skipped.
   */
  lemma RowsDataAt(bitmap: seq<uint8>, rowBytes: nat, clipped: nat, from: nat, to: nat, k: nat, x: nat)
    requires clipped <= rowBytes && to * rowBytes <= |bitmap|
    requires from + k < to && x < clipped
    ensures (from + k) * rowBytes + x < |bitmap|
    ensures k * clipped + x < |RowsData(bitmap, rowBytes, clipped, from, to)|
    ensures RowsData(bitmap, rowBytes, clipped, from, to)[k * clipped + x] == bitmap[(from + k) * rowBytes + x]
  {
    var r := from + k;
    RowsDataAtBounds(bitmap, rowBytes, clipped, from, to, k, x);
    MulMono(r, to, rowBytes);
    RowsDataSplit(bitmap, rowBytes, clipped, from, r, to);
    var front := RowsData(bitmap, rowBytes, clipped, from, r);
    RowsDataLength(bitmap, rowBytes, clipped, from, r);
    assert |front| == k * clipped by { assert r - from == k; }
    var back := RowsDataCons(bitmap, rowBytes, clipped, r, to);
    var row := RowData(bitmap, rowBytes, clipped, r);
    var all := RowsData(bitmap, rowBytes, clipped, from, to);
    RowDataAt(bitmap, rowBytes, clipped, r, x);
    assert all == front + (row + back);
    assert all[k * clipped + x] == row[x];
  }

  lemma RowDataLength(bitmap: seq<uint8>, rowBytes: nat, clipped: nat, r: nat)
    requires clipped <= rowBytes && (r + 1) * rowBytes <= |bitmap|
    ensures |RowData(bitmap, rowBytes, clipped, r)| == clipped
  {
  }

  lemma RowDataAt(bitmap: seq<uint8>, rowBytes: nat, clipped: nat, r: nat, x: nat)
    requires clipped <= rowBytes && (r + 1) * rowBytes <= |bitmap| && x < clipped
    ensures r * rowBytes + x < |bitmap|
    ensures |RowData(bitmap, rowBytes, clipped, r)| == clipped
    ensures RowData(bitmap, rowBytes, clipped, r)[x] == bitmap[r * rowBytes + x]
  {
    MulStep(r, rowBytes);
  }

  /** The index arithmetic of RowsDataAt: both offsets are in range. */
  lemma RowsDataAtBounds(bitmap: seq<uint8>, rowBytes: nat, clipped: nat, from: nat, to: nat, k: nat, x: nat)
    requires clipped <= rowBytes && to * rowBytes <= |bitmap|
    requires from + k < to && x < clipped
    ensures (from + k) * rowBytes + x < |bitmap|
    ensures k * clipped + x < |RowsData(bitmap, rowBytes, clipped, from, to)|
  {
    MulStep(from + k, rowBytes);
    MulMono(from + k + 1, to, rowBytes);
    RowsDataLength(bitmap, rowBytes, clipped, from, to);
    MulStep(k, clipped);
    MulMono(k + 1, to - from, clipped);
  }

  /** The data of a non-empty range is its first row followed by the rest. */
  lemma RowsDataCons(bitmap: seq<uint8>, rowBytes: nat, clipped: nat, from: nat, to: nat) returns (rest: seq<uint8>)
    requires clipped <= rowBytes && to * rowBytes <= |bitmap| && from < to
    ensures (from + 1) * rowBytes <= |bitmap|
    ensures rest == RowsData(bitmap, rowBytes, clipped, from + 1, to)
    ensures RowsData(bitmap, rowBytes, clipped, from, to) == RowData(bitmap, rowBytes, clipped, from) + rest
  {
    MulMono(from + 1, to, rowBytes);
    rest := RowsData(bitmap, rowBytes, clipped, from + 1, to);
  }

  /** The bytes printBitmap_ada reads from a stream: `rowBytes` for each of the `rows` rows. */
  function StreamBytes(rows: nat, rowBytes: nat): nat
    decreases rows
  {
    if rows == 0 then 0 else StreamBytes(rows - 1, rowBytes) + rowBytes
  }

  /** Row by row the reads add up to the size of the bitmap. */
  lemma {:induction false} StreamBytesIsSize(rows: nat, rowBytes: nat)
    ensures StreamBytes(rows, rowBytes) == rows * rowBytes
    decreases rows
  {
    if rows > 0 {
      StreamBytesIsSize(rows - 1, rowBytes);
      MulStep(rows - 1, rowBytes);
    }
  }

  lemma MulStep(a: nat, n: nat)
    ensures (a + 1) * n == a * n + n
  {
  }

  lemma {:induction false} RowsDataLength(bitmap: seq<uint8>, rowBytes: nat, clipped: nat, from: nat, to: nat)
    requires from <= to && clipped <= rowBytes && to * rowBytes <= |bitmap|
    ensures |RowsData(bitmap, rowBytes, clipped, from, to)| == (to - from) * clipped
    decreases (to as int) - (from as int)
  {
    if from < to {
      var rest := RowsDataCons(bitmap, rowBytes, clipped, from, to);
      RowDataLength(bitmap, rowBytes, clipped, from);
      RowsDataLength(bitmap, rowBytes, clipped, from + 1, to);
      MulStep(to - (from + 1), clipped);
    }
  }

  /** Consecutive row ranges concatenate. */
  lemma {:induction false} RowsDataSplit(bitmap: seq<uint8>, rowBytes: nat, clipped: nat, from: nat, mid: nat, to: nat)
    requires from <= mid <= to && clipped <= rowBytes && to * rowBytes <= |bitmap|
    ensures RowsData(bitmap, rowBytes, clipped, from, to)
            == RowsData(bitmap, rowBytes, clipped, from, mid) + RowsData(bitmap, rowBytes, clipped, mid, to)
    decreases (mid as int) - (from as int)
  {
    MulMono(mid, to, rowBytes);
    if from < mid {
      MulMono(from + 1, to, rowBytes);
      RowsDataSplit(bitmap, rowBytes, clipped, from + 1, mid, to);
      assert RowsData(bitmap, rowBytes, clipped, from, mid)
             == RowData(bitmap, rowBytes, clipped, from) + RowsData(bitmap, rowBytes, clipped, from + 1, mid);
    } else {
      assert RowsData(bitmap, rowBytes, clipped, from, mid) == [];
    }
  }

  /** One more row at the end of the data. */
  lemma RowsDataSnoc(bitmap: seq<uint8>, rowBytes: nat, clipped: nat, from: nat, to: nat)
    requires from <= to && clipped <= rowBytes && (to + 1) * rowBytes <= |bitmap|
    ensures to * rowBytes <= |bitmap|
    ensures RowsData(bitmap, rowBytes, clipped, from, to + 1)
            == RowsData(bitmap, rowBytes, clipped, from, to) + RowData(bitmap, rowBytes, clipped, to)
  {
    MulMono(to, to + 1, rowBytes);
    RowsDataSplit(bitmap, rowBytes, clipped, from, to, to + 1);
    assert RowsData(bitmap, rowBytes, clipped, to, to + 1)
           == RowData(bitmap, rowBytes, clipped, to) + RowsData(bitmap, rowBytes, clipped, to + 1, to + 1);
  }

  /**
   * Headers are queued for loop() to drain while data bytes are written to the
   * serial port at once, so in the order the printer receives them a one-row,
   * 8-pixel bitmap arrives as its data byte followed by its header.
   */
  lemma DataOvertakesHeader()
    ensures RowsData([0x55], 1, 1, 0, 1) + Stripped(AdaHeaders(ChunkHeights(1, 5, 0), Clipped(RowBytes(8))))
            == [0x55, ESC, '*' as int, 1, 1]
  {
    OneRowData();
    OneChunkHeader();
  }

  lemma OneRowData()
    ensures RowsData([0x55], 1, 1, 0, 1) == [0x55]
  {
    var bitmap: seq<uint8> := [0x55];
    assert RowsData(bitmap, 1, 1, 1, 1) == [];
    assert RowData(bitmap, 1, 1, 0) == bitmap[0..1] == [0x55];
  }

  lemma OneChunkHeader()
    ensures Stripped(AdaHeaders(ChunkHeights(1, 5, 0), Clipped(RowBytes(8)))) == [ESC, '*' as int, 1, 1]
  {
    assert ChunkHeights(1, 5, 5) == [];
    assert ChunkHeights(1, 5, 0) == [1];
    assert Clipped(RowBytes(8)) == 1;
    var header: seq<uint8> := [ESC, '*' as int, 1, 1];
    assert AdaHeaders([1], 1) == header + AdaHeaders([], 1);
    StrippedKeepsCRFree(header);
  }
}
