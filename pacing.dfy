/**
 * What storeInBuffer (Adafruit_Thermal.cpp) does to the printer state, as
 * functions on snapshots of the fields it reads and writes: the byte queue
 * grows by every byte except CR, the column counter advances or wraps, and
 * every stored byte pushes the deadline by its estimated cost.
 */
module Pacing {
  import opened Ints
  import opened Timing

  /** The fields storeInBuffer reads but never changes. */
  datatype Knobs = Knobs(dtrEnabled: bool, maxColumn: uint8, charHeight: uint8, lineSpacing: uint8,
                         dotPrintTime: uint32, dotFeedTime: uint32, lastWritingTime: uint32)

  /** The fields storeInBuffer changes, apart from the queue itself. */
  datatype Cursor = Cursor(column: uint8, prevByte: uint8, resumeTime: uint32)

  /** storeInBuffer treats a byte as a line end when it is LF or the column has reached the page width. */
  predicate EndsLine(k: Knobs, cur: Cursor, c: uint8)
  {
    c == LF || cur.column == k.maxColumn
  }

  /** Cost of a line carrying glyphs: its dot rows printed, then the inter-line gap fed. */
  function TextLineCost(k: Knobs): int
  {
    k.charHeight * k.dotPrintTime + k.lineSpacing * k.dotFeedTime
  }

  /** Cost of a blank line: the whole line height fed without printing. */
  function BlankLineCost(k: Knobs): int
  {
    (k.charHeight + k.lineSpacing) * k.dotFeedTime
  }

  /** The duration storeInBuffer hands to timeoutSet for a stored byte. */
  function ByteDelay(k: Knobs, cur: Cursor, c: uint8): (d: uint32)
    ensures !EndsLine(k, cur, c) ==> d == BYTE_TIME
    ensures EndsLine(k, cur, c) && cur.prevByte == LF ==> d == Wrap32(BYTE_TIME + BlankLineCost(k))
    ensures EndsLine(k, cur, c) && cur.prevByte != LF ==> d == Wrap32(BYTE_TIME + TextLineCost(k))
  {
    if EndsLine(k, cur, c) then
      Wrap32(BYTE_TIME + (if cur.prevByte == LF then BlankLineCost(k) else TextLineCost(k)))
    else
      BYTE_TIME
  }

  /** The new cursor after storeInBuffer(c) at clock reading `now`. */
  function Store(k: Knobs, cur: Cursor, c: uint8, now: uint32): (r: Cursor)
    ensures c == CR ==> r == cur
    ensures c != CR && EndsLine(k, cur, c) ==> r.column == 0 && r.prevByte == LF
    ensures c != CR && !EndsLine(k, cur, c) ==> r.column == Wrap8(cur.column + 1) && r.prevByte == c
    ensures c != CR ==> r.resumeTime == Deadline(k.dtrEnabled, cur.resumeTime, k.lastWritingTime, now, ByteDelay(k, cur, c))
    ensures cur.column <= k.maxColumn ==> r.column <= k.maxColumn
  {
    if c == CR then cur
    else
      var d := ByteDelay(k, cur, c);
      var resume := Deadline(k.dtrEnabled, cur.resumeTime, k.lastWritingTime, now, d);
      if EndsLine(k, cur, c) then Cursor(0, LF, resume)
      else Cursor(Wrap8(cur.column + 1), c, resume)
  }

  /** storeInBuffer applied to every byte of a sequence, first to last. */
  function StoreAll(k: Knobs, cur: Cursor, bs: seq<uint8>, now: uint32): Cursor
    decreases |bs|
  {
    if bs == [] then cur else StoreAll(k, Store(k, cur, bs[0], now), bs[1..], now)
  }

  /** The bytes storeInBuffer appends to the queue: the input with every CR removed, in order. */
  function Stripped(bs: seq<uint8>): seq<uint8>
    decreases |bs|
  {
    if bs == [] then []
    else (if bs[0] == CR then [] else [bs[0]]) + Stripped(bs[1..])
  }

  lemma {:induction false} StrippedAppend(a: seq<uint8>, b: seq<uint8>)
    ensures Stripped(a + b) == Stripped(a) + Stripped(b)
    decreases |a|
  {
    if a == [] {
      assert a + b == b;
    } else {
      assert (a + b)[1..] == a[1..] + b;
      StrippedAppend(a[1..], b);
    }
  }

  /**
   * The queue receives exactly the non-CR bytes: no CR survives, every other
   * byte survives as often as it was written, and CR-free input passes unchanged.
   */
  lemma {:induction false} StrippedContents(bs: seq<uint8>)
    ensures CR !in Stripped(bs)
    ensures multiset(Stripped(bs)) == multiset(bs)[CR := 0]
    ensures CR !in bs ==> Stripped(bs) == bs
    decreases |bs|
  {
    if bs != [] {
      StrippedContents(bs[1..]);
      assert bs == [bs[0]] + bs[1..];
      assert multiset(bs) == multiset{bs[0]} + multiset(bs[1..]);
    }
  }

  /** CR-free input passes unchanged. */
  lemma {:induction false} StrippedKeepsCRFree(bs: seq<uint8>)
    requires CR !in bs
    ensures Stripped(bs) == bs
    decreases |bs|
  {
    if bs != [] {
      assert bs[0] in bs;
      assert forall i :: 0 <= i < |bs| - 1 ==> bs[1..][i] == bs[i + 1];
      StrippedKeepsCRFree(bs[1..]);
    }
  }

  /** A single CR between CR-free parts is the only byte dropped. */
  lemma DropsLoneCR(front: seq<uint8>, back: seq<uint8>)
    requires CR !in front && CR !in back
    ensures Stripped(front + [CR] + back) == front + back
  {
    var fc := front + [CR];
    StrippedAppend(fc, back);
    StrippedAppend(front, [CR]);
    assert Stripped([CR]) == [] + Stripped([]);
    StrippedKeepsCRFree(front);
    StrippedKeepsCRFree(back);
    assert Stripped(fc) == front;
  }

  lemma {:induction false} StoreAllAppend(k: Knobs, cur: Cursor, a: seq<uint8>, b: seq<uint8>, now: uint32)
    ensures StoreAll(k, cur, a + b, now) == StoreAll(k, StoreAll(k, cur, a, now), b, now)
    decreases |a|
  {
    if a == [] {
      assert a + b == b;
    } else {
      assert (a + b)[1..] == a[1..] + b;
      StoreAllAppend(k, Store(k, cur, a[0], now), a[1..], b, now);
    }
  }

  /** One more byte: the fold of a prefix extended by the next byte. */
  lemma StoreAllSnoc(k: Knobs, cur: Cursor, bs: seq<uint8>, i: nat, now: uint32)
    requires i < |bs|
    ensures StoreAll(k, cur, bs[..i+1], now) == Store(k, StoreAll(k, cur, bs[..i], now), bs[i], now)
  {
    assert bs[..i+1] == bs[..i] + [bs[i]];
    StoreAllAppend(k, cur, bs[..i], [bs[i]], now);
  }

  /** CR bytes have no effect on the timing and column state at all. */
  lemma {:induction false} StoreAllIgnoresCR(k: Knobs, cur: Cursor, bs: seq<uint8>, now: uint32)
    ensures StoreAll(k, cur, bs, now) == StoreAll(k, cur, Stripped(bs), now)
    decreases |bs|
  {
    if bs != [] {
      var next := Store(k, cur, bs[0], now);
      var rest := Stripped(bs[1..]);
      assert StoreAll(k, cur, bs, now) == StoreAll(k, next, bs[1..], now);
      StoreAllIgnoresCR(k, next, bs[1..], now);
      if bs[0] == CR {
        assert Stripped(bs) == rest;
        assert next == cur;
      } else {
        StoreAllAppend(k, cur, [bs[0]], rest, now);
        assert Stripped(bs) == [bs[0]] + rest;
        assert StoreAll(k, cur, [bs[0]], now) == StoreAll(k, next, [], now);
      }
    }
  }

  /**
   * A command whose bytes go through storeInBuffer and whose execution time x
   * is then registered with timeoutSet.
   */
  function TimedCommand(k: Knobs, cur: Cursor, bs: seq<uint8>, x: uint32, now: uint32): Cursor
  {
    var c := StoreAll(k, cur, bs, now);
    c.(resumeTime := Deadline(k.dtrEnabled, c.resumeTime, k.lastWritingTime, now, x))
  }

  /** storeInBuffer keeps the column within the page width once it is there. */
  lemma {:induction false} StoreAllColumnBound(k: Knobs, cur: Cursor, bs: seq<uint8>, now: uint32)
    requires cur.column <= k.maxColumn
    ensures StoreAll(k, cur, bs, now).column <= k.maxColumn
    decreases |bs|
  {
    if bs != [] {
      StoreAllColumnBound(k, Store(k, cur, bs[0], now), bs[1..], now);
    }
  }

  /**
   * Bytes other than LF and CR, on a line with room for all of them, advance
   * the column by one each, and the last of them becomes `prevByte`.
   */
  lemma {:induction false} StoreAllAdvances(k: Knobs, cur: Cursor, bs: seq<uint8>, now: uint32)
    requires forall i :: 0 <= i < |bs| ==> bs[i] != LF && bs[i] != CR
    requires cur.column + |bs| <= k.maxColumn
    ensures StoreAll(k, cur, bs, now).column == cur.column + |bs|
    ensures bs != [] ==> StoreAll(k, cur, bs, now).prevByte == bs[|bs| - 1]
    decreases |bs|
  {
    if bs != [] {
      var next := Store(k, cur, bs[0], now);
      assert next.column == cur.column + 1 && next.prevByte == bs[0];
      StoreAllAdvances(k, next, bs[1..], now);
    }
  }

  /**
   * Printing "Hi\n" from the start of a line: 'H' and 'i' each cost one byte
   * time and advance the column; the LF is charged the full text-line cost because
   * the byte before it was not a line end; and the line is closed.
   */
  lemma HiNewlineChargesTextLine(k: Knobs, cur: Cursor, now: uint32)
    requires cur.column == 0 && k.maxColumn >= 2
    ensures var c1 := Store(k, cur, 'H' as int, now);
            var c2 := Store(k, c1, 'i' as int, now);
            && ByteDelay(k, cur, 'H' as int) == BYTE_TIME
            && ByteDelay(k, c1, 'i' as int) == BYTE_TIME
            && ByteDelay(k, c2, LF) == Wrap32(BYTE_TIME + TextLineCost(k))
            && StoreAll(k, cur, [72, 105, 10], now) == Store(k, c2, LF, now)
            && StoreAll(k, cur, [72, 105, 10], now).column == 0
            && StoreAll(k, cur, [72, 105, 10], now).prevByte == LF
  {
    var c1 := Store(k, cur, 72, now);
    var c2 := Store(k, c1, 105, now);
    assert StoreAll(k, c2, [10], now) == Store(k, c2, LF, now);
  }

  /**
   * Two LFs after text: the first closes the text line and is charged its
   * print and spacing time, the second is a blank line charged only the
   * feed of a whole line height; both leave the column at 0.
   */
  lemma BlankLineChargesFeedOnly(k: Knobs, cur: Cursor, now: uint32)
    requires cur.prevByte != LF
    ensures var c1 := Store(k, cur, LF, now);
            && ByteDelay(k, cur, LF) == Wrap32(BYTE_TIME + TextLineCost(k))
            && c1.column == 0 && c1.prevByte == LF
            && ByteDelay(k, c1, LF) == Wrap32(BYTE_TIME + BlankLineCost(k))
            && StoreAll(k, cur, [LF, LF], now)
               == Cursor(0, LF, Deadline(k.dtrEnabled, c1.resumeTime, k.lastWritingTime, now, Wrap32(BYTE_TIME + BlankLineCost(k))))
  {
    var c1 := Store(k, cur, LF, now);
    assert [LF, LF][1..] == [LF];
    assert StoreAll(k, c1, [LF], now) == Store(k, c1, LF, now);
  }
}
