/**
 * The paper-status poll of Adafruit_Thermal.cpp: askForPaperAvailability
 * raises a flag, each loop() tick may consume the printer's reply, and
 * hasPaper reports the outcome. The function-local statics `prevmillis` and
 * `count` of loop() are the fields `prevMillis` and `count` here.
 */
module Poll {
  import opened Ints

  /** The fields the poll reads and writes. */
  datatype PollState = PollState(asked: bool, ready: bool, status: int, count: uint8, prevMillis: uint32)

  /** The state before any poll: the statics start at zero, no request, no result. */
  const Initial: PollState := PollState(false, false, 0, 0, 0)

  /** The reply byte of `DLE EOT 4`: bit 2 set means the paper is out, so the status is 0; otherwise 1. */
  function PaperStatusOf(b: uint8): (s: int)
    ensures s == 0 || s == 1
    ensures s == 1 <==> (b as bv8) & 4 == 0
  {
    if (b as bv8) & 4 == 0 then 1 else 0
  }

  /** The throttle of the poll branch: more than 100 ms since `prevmillis` and fewer than 10 attempts. */
  predicate Throttle(p: PollState, nowMillis: uint32)
  {
    Wrap32(nowMillis - p.prevMillis) > 100 && p.count < 10
  }

  /** The state after `paperStatus = -1` and the optional read of the reply. */
  function AfterRead(p: PollState, incoming: Option<uint8>): PollState
  {
    match incoming
    case None => p.(status := -1)
    case Some(b) => p.(status := PaperStatusOf(b), count := 0, asked := false, ready := true)
  }

  /** The guard of the timeout branch, evaluated on the state after the read. */
  predicate TimeoutFires(p: PollState)
  {
    p.count == 10 && !p.ready
  }

  /** The timeout branch: give up, report "no response" and close the request. */
  function TimeOut(p: PollState): PollState
  {
    p.(count := 0, status := -1, ready := true, asked := false)
  }

  /**
   * The poll branch of one loop() call at `nowMillis`, where `incoming` is
   * the byte `stream->read()` would return, or None when nothing is available.
   */
  function PollStep(p: PollState, nowMillis: uint32, incoming: Option<uint8>): PollState
  {
    if p.asked && Throttle(p, nowMillis) then
      var q := AfterRead(p, incoming);
      var t := if TimeoutFires(q) then TimeOut(q) else q;
      t.(count := Wrap8(t.count + 1))
    else p
  }

  /** hasPaper(): the status once a result is ready, -1 otherwise. */
  function HasPaper(p: PollState): int
  {
    if p.ready then p.status else -1
  }

  /** One loop() call as far as the poll sees it. */
  datatype Tick = Tick(millis: uint32, incoming: Option<uint8>)

  /** A sequence of loop() calls. */
  function PollRun(p: PollState, ticks: seq<Tick>): PollState
    decreases |ticks|
  {
    if ticks == [] then p else PollRun(PollStep(p, ticks[0].millis, ticks[0].incoming), ticks[1..])
  }

  /**
   * The timeout branch can never fire: the throttle admits only count < 10,
   * and the read either leaves the count alone or sets it to 0.
   */
  lemma TimeoutBranchUnreachable(p: PollState, nowMillis: uint32, incoming: Option<uint8>)
    requires Throttle(p, nowMillis)
    ensures !TimeoutFires(AfterRead(p, incoming))
  {
  }

  /** A reply taken while polling: result ready, request closed, status decoded, count restarts at 1. */
  lemma ReplyIsConsumed(p: PollState, nowMillis: uint32, b: uint8)
    requires p.asked && Throttle(p, nowMillis)
    ensures var r := PollStep(p, nowMillis, Some(b));
            && r.ready && !r.asked && r.count == 1 && r.prevMillis == p.prevMillis
            && r.status == PaperStatusOf(b)
            && HasPaper(r) == (if (b as bv8) & 4 == 0 then 1 else 0)
  {
  }

  /** An unanswered attempt: the request stays open, the status reads -1, the count goes up by one. */
  lemma MissIsCounted(p: PollState, nowMillis: uint32)
    requires p.asked && Throttle(p, nowMillis)
    ensures var r := PollStep(p, nowMillis, None);
            && r.asked && r.ready == p.ready && r.status == -1 && r.count == p.count + 1
            && r.prevMillis == p.prevMillis
  {
  }

  /** Without a request, or inside the throttle, loop() leaves the poll alone. */
  lemma IdleTickChangesNothing(p: PollState, nowMillis: uint32, incoming: Option<uint8>)
    requires !p.asked || !Throttle(p, nowMillis)
    ensures PollStep(p, nowMillis, incoming) == p
  {
  }

  /** The attempt counter never exceeds 10, and `prevmillis` is never assigned. */
  lemma {:induction false} PollRunBounds(p: PollState, ticks: seq<Tick>)
    requires p.count <= 10 && -1 <= p.status <= 1
    ensures PollRun(p, ticks).count <= 10
    ensures -1 <= PollRun(p, ticks).status <= 1
    ensures PollRun(p, ticks).prevMillis == p.prevMillis
    decreases |ticks|
  {
    if ticks != [] {
      PollRunBounds(PollStep(p, ticks[0].millis, ticks[0].incoming), ticks[1..]);
    }
  }

  /**
   * Once 10 attempts have been counted the throttle stays shut for good: no
   * later loop() call changes the poll, so a reply is never read and an open
   * request is never closed.
   */
  lemma {:induction false} StuckAfterTenAttempts(p: PollState, ticks: seq<Tick>)
    requires p.count >= 10
    ensures PollRun(p, ticks) == p
    decreases |ticks|
  {
    if ticks != [] {
      assert PollStep(p, ticks[0].millis, ticks[0].incoming) == p;
      StuckAfterTenAttempts(p, ticks[1..]);
    }
  }

  /** n unanswered polling ticks in a row: each is throttle-admitted while count < 10. */
  function Misses(n: nat, millis: uint32): seq<Tick>
  {
    seq(n, _ => Tick(millis, None))
  }

  /**
   * From a fresh request with `count` attempts already spent, 10 - count
   * unanswered ticks after the first 100 ms exhaust the counter; the request
   * is still open and hasPaper keeps returning what it returned before.
   */
  lemma {:induction false} MissesExhaustCounter(p: PollState, millis: uint32)
    requires p.asked && p.count <= 10 && p.prevMillis == 0 && millis > 100
    ensures var r := PollRun(p, Misses(10 - p.count, millis));
            && r.count == 10 && r.asked && r.ready == p.ready
            && (p.count < 10 ==> r.status == -1)
            && (p.count == 10 ==> r == p)
    decreases 10 - p.count
  {
    var ticks := Misses(10 - p.count, millis);
    if p.count < 10 {
      assert Throttle(p, millis);
      var q := PollStep(p, millis, None);
      assert q.count == p.count + 1;
      assert ticks[1..] == Misses(10 - q.count, millis);
      MissesExhaustCounter(q, millis);
    } else {
      assert ticks == [];
    }
  }

  /**
   * The reply must arrive within 10 polling ticks, counted across requests:
   * after one answered request the counter restarts at 1, not 0, so a second
   * request that gets 9 unanswered ticks is never answered, whatever follows.
   */
  lemma SecondRequestGetsNineAttempts(b: uint8, millis: uint32, later: seq<Tick>)
    requires millis > 100
    ensures var answered := PollStep(Initial.(asked := true), millis, Some(b));
            var asked2 := answered.(asked := true);
            var stuck := PollRun(asked2, Misses(9, millis));
            && answered.count == 1
            && stuck.count == 10 && stuck.asked
            && PollRun(stuck, later) == stuck
  {
    var answered := PollStep(Initial.(asked := true), millis, Some(b));
    var asked2 := answered.(asked := true);
    MissesExhaustCounter(asked2, millis);
    StuckAfterTenAttempts(PollRun(asked2, Misses(9, millis)), later);
  }

  /**
   * `paperResultReady` is never cleared, so after a first result a new request
   * that misses one tick makes hasPaper report -1 (no response) at once,
   * although that request has not timed out.
   */
  lemma StaleResultReadsAsNoResponse(p: PollState, millis: uint32)
    requires p.ready && p.asked && Throttle(p, millis)
    ensures HasPaper(PollStep(p, millis, None)) == -1
  {
  }

  /** hasPaper is -1, 0 or 1, and -1 whenever no result is ready. */
  lemma HasPaperRange(p: PollState)
    requires -1 <= p.status <= 1
    ensures -1 <= HasPaper(p) <= 1
    ensures !p.ready ==> HasPaper(p) == -1
  {
  }
}
