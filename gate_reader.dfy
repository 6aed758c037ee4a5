/**
 * The always-on reader (`src/rfid.cpp`): it polls the reader once per read
 * interval, feeds every received byte to the frame parser, opens the gate for
 * an authorised tag and walks the door through DOOR_OPEN, DOOR_CLOSING and back
 * to READING once the tag has not been seen for the tag timeout.
 *
 * `Reader` is the whole state as a value and `Next` is one `update()`; the
 * class `RfidManager` keeps the source's fields and is proved to follow them.
 * The serial port is the `input` parameter (the bytes available during this
 * update), the poll command is the returned `polled` flag, and the servo is
 * the `gateState` latch.
 */
module GateReader {
  import opened Common
  import opened Wire
  import opened FrameParser

  const READ_INTERVAL_MS: nat := 1000
  const TAG_TIMEOUT_MS: nat := 3000
  const PARSER_TIMEOUT_MS: nat := 200

  /** The one identifier this variant lets through. */
  const AUTHORIZED_TAGS: seq<Epc> := [
    [0xE2, 0x00, 0x47, 0x09, 0x3E, 0xB0, 0x64, 0x26, 0xB8, 0x4A, 0x01, 0x13]
  ]

  datatype SystemState = Idle | Reading | DoorOpen | DoorClosing

  datatype GateState = Closed | Open

  datatype Reader = Reader(
    parser: Parser,
    systemState: SystemState,
    gateState: GateState,
    lastByteMs: u32,
    lastSendMs: u32,
    lastTagTime: u32,
    tagDetected: bool)

  /** `isAuthorizedTag`: the identifier equals some row of the allowlist. */
  predicate Authorized(epc: seq<bv8>)
  {
    exists i :: 0 <= i < |AUTHORIZED_TAGS| && AUTHORIZED_TAGS[i] == epc
  }

  /**
   * `handleTagDetection` once twelve bytes were collected: an authorised tag
   * is (re)stamped and, on its first detection, opens the gate.
   */
  function Detect(r: Reader, epc: Epc, now: u32): (d: Reader)
    ensures !Authorized(epc) ==> d == r
    ensures Authorized(epc) ==>
      && d.tagDetected && d.lastTagTime == now
      && (!r.tagDetected ==> d.gateState == Open && d.systemState == DoorOpen)
      && (r.tagDetected ==> d.gateState == r.gateState && d.systemState == r.systemState)
    ensures d.parser == r.parser && d.lastByteMs == r.lastByteMs && d.lastSendMs == r.lastSendMs
  {
    if !Authorized(epc) then r
    else
      var shown := if r.tagDetected then r else r.(gateState := Open, systemState := DoorOpen);
      shown.(tagDetected := true, lastTagTime := now)
  }

  /** Every detection of a list, in order. */
  function DetectAll(r: Reader, epcs: seq<Epc>, now: u32): Reader
    decreases |epcs|
  {
    if |epcs| == 0 then r else DetectAll(Detect(r, epcs[0], now), epcs[1..], now)
  }

  /** `processByte(b)`, with the detection it may trigger. */
  function Consume(r: Reader, b: bv8, now: u32): Reader
  {
    var s := Step(r.parser, b);
    var r1 := r.(parser := s.0);
    if s.1.Some? then Detect(r1, s.1.value, now) else r1
  }

  /** The read loop of `update`: each byte stamps `lastByteMs`, then is processed. */
  function Drain(r: Reader, bs: seq<bv8>, now: u32): (d: Reader)
    ensures d.lastSendMs == r.lastSendMs
    ensures |bs| > 0 ==> d.lastByteMs == now
    decreases |bs|
  {
    if |bs| == 0 then r else Drain(Consume(r.(lastByteMs := now), bs[0], now), bs[1..], now)
  }

  /** The poll cadence: a read command at most once per read interval. */
  function Poll(r: Reader, now: u32): (Reader, bool)
  {
    if Elapsed(now, r.lastSendMs) >= READ_INTERVAL_MS then (r.(lastSendMs := now), true)
    else (r, false)
  }

  /** `checkTagTimeout`: a tag unseen for longer than the timeout starts the closing. */
  function Expire(r: Reader, now: u32): (e: Reader)
    ensures e.parser == r.parser && e.gateState == r.gateState && e.lastSendMs == r.lastSendMs
    ensures e.tagDetected ==> r.tagDetected
    ensures e != r ==> Elapsed(now, r.lastTagTime) > TAG_TIMEOUT_MS && e.systemState == DoorClosing
  {
    if r.tagDetected && Elapsed(now, r.lastTagTime) > TAG_TIMEOUT_MS
    then r.(tagDetected := false, systemState := DoorClosing)
    else r
  }

  /**
   * The `switch (systemState)` of `update()` at time `now` with `input`
   * available on the serial line; the flag says whether a read command was
   * sent. IDLE and DOOR_CLOSING read no bytes.
   */
  function Dispatch(r: Reader, now: u32, input: seq<bv8>): (d: (Reader, bool))
    ensures d.1 ==> d.0.lastSendMs == now && Elapsed(now, r.lastSendMs) >= READ_INTERVAL_MS
    ensures !d.1 ==> d.0.lastSendMs == r.lastSendMs
    ensures r.systemState != DoorClosing ==> (d.1 <==> Elapsed(now, r.lastSendMs) >= READ_INTERVAL_MS)
    ensures r.systemState == Idle || r.systemState == DoorClosing ==> d.0.parser == r.parser
    ensures r.systemState == DoorClosing ==> !d.1 && d.0.gateState == Closed && d.0.systemState == Reading
  {
    match r.systemState
      case Idle =>
        if Elapsed(now, r.lastSendMs) >= READ_INTERVAL_MS
        then (r.(lastSendMs := now, systemState := Reading), true)
        else (r, false)
      case Reading =>
        var p := Poll(r, now);
        var d := Drain(p.0, input, now);
        var stalled := d.parser.state != WaitStart && Elapsed(now, d.lastByteMs) > PARSER_TIMEOUT_MS;
        (if stalled then d.(parser := Reset(d.parser)) else d, p.1)
      case DoorOpen =>
        var p := Poll(r, now);
        (Drain(p.0, input, now), p.1)
      case DoorClosing =>
        (r.(gateState := Closed, systemState := Reading), false)
  }

  /** One `update()`: the switch, then the tag timeout. */
  function Next(r: Reader, now: u32, input: seq<bv8>): (n: (Reader, bool))
    ensures n.1 ==> n.0.lastSendMs == now && Elapsed(now, r.lastSendMs) >= READ_INTERVAL_MS
    ensures !n.1 ==> n.0.lastSendMs == r.lastSendMs
    ensures r.systemState != DoorClosing ==> (n.1 <==> Elapsed(now, r.lastSendMs) >= READ_INTERVAL_MS)
    ensures r.systemState == Idle || r.systemState == DoorClosing ==> n.0.parser == r.parser
  {
    var s := Dispatch(r, now, input);
    (Expire(s.0, now), s.1)
  }

  /** The state right after `begin()`, with an all-zero identifier buffer. */
  function Started(now: u32): Reader
  {
    Reader(Parser(WaitStart, 0, 0, ZERO_EPC), Reading, Closed, now, now, 0, false)
  }

  /**
   * The door discipline: IDLE is never entered, a tag is being tracked exactly
   * in DOOR_OPEN, the gate is open exactly in DOOR_OPEN and DOOR_CLOSING, and
   * the parser is in one of its reachable states.
   */
  predicate GateInv(r: Reader)
  {
    && r.systemState != Idle
    && (r.tagDetected <==> r.systemState == DoorOpen)
    && (r.gateState == Open <==> r.systemState in {DoorOpen, DoorClosing})
    && Inv(r.parser)
  }

  // ---------------------------------------------------------------------------
  // Properties of the value model
  // ---------------------------------------------------------------------------

  /**
   * A detection never touches the parser or the byte clock; an unauthorised
   * tag changes nothing; an authorised one marks the tag seen at `now` and
   * leaves the door open.
   */
  lemma DetectEffect(r: Reader, epc: Epc, now: u32)
    ensures var d := Detect(r, epc, now);
      && d.parser == r.parser && d.lastByteMs == r.lastByteMs && d.lastSendMs == r.lastSendMs
      && (!Authorized(epc) ==> d == r)
      && (Authorized(epc) ==>
            d.tagDetected && d.lastTagTime == now
            && d.gateState == (if r.tagDetected then r.gateState else Open)
            && d.systemState == (if r.tagDetected then r.systemState else DoorOpen))
  {
  }

  lemma {:induction false} DetectAllKeepsParser(r: Reader, epcs: seq<Epc>, now: u32)
    ensures DetectAll(r, epcs, now).parser == r.parser
    ensures DetectAll(r, epcs, now).lastByteMs == r.lastByteMs
    decreases |epcs|
  {
    if |epcs| > 0 {
      DetectAllKeepsParser(Detect(r, epcs[0], now), epcs[1..], now);
    }
  }

  /**
   * The read loop is the frame parser run over the bytes, followed by the
   * detections it handed on, in order.
   */
  lemma {:induction false} DrainFollowsParser(r: Reader, bs: seq<bv8>, now: u32)
    ensures Drain(r, bs, now) ==
      DetectAll(r.(parser := Run(r.parser, bs).0,
                   lastByteMs := if |bs| == 0 then r.lastByteMs else now),
                Run(r.parser, bs).1, now)
    decreases |bs|
  {
    if |bs| > 0 {
      var s := Step(r.parser, bs[0]);
      var rest := Run(s.0, bs[1..]);
      var c := Consume(r.(lastByteMs := now), bs[0], now);
      assert c.parser == s.0 && c.lastByteMs == now;
      DrainFollowsParser(c, bs[1..], now);
      var base := r.(parser := rest.0, lastByteMs := now);
      assert c.(parser := rest.0, lastByteMs := now) ==
        (if s.1.Some? then Detect(base, s.1.value, now) else base);
      if s.1.Some? {
        assert AsSeq(s.1) + rest.1 == [s.1.value] + rest.1;
        assert ([s.1.value] + rest.1)[1..] == rest.1;
      } else {
        assert AsSeq(s.1) + rest.1 == rest.1;
      }
    }
  }

  /** The door discipline holds from `begin()` on. */
  lemma StartedKeepsGateInv(now: u32)
    ensures GateInv(Started(now))
  {
  }

  lemma {:induction false} DetectAllKeepsGateInv(r: Reader, epcs: seq<Epc>, now: u32)
    requires GateInv(r) && r.systemState != DoorClosing
    ensures GateInv(DetectAll(r, epcs, now)) && DetectAll(r, epcs, now).systemState != DoorClosing
    decreases |epcs|
  {
    if |epcs| > 0 {
      DetectAllKeepsGateInv(Detect(r, epcs[0], now), epcs[1..], now);
    }
  }

  /** Every `update()` keeps the door discipline. */
  lemma NextKeepsGateInv(r: Reader, now: u32, input: seq<bv8>)
    requires GateInv(r)
    ensures GateInv(Next(r, now, input).0)
  {
    if r.systemState in {Reading, DoorOpen} {
      var p := Poll(r, now).0;
      DrainFollowsParser(p, input, now);
      RunKeepsInv(p.parser, input);
      var base := p.(parser := Run(p.parser, input).0,
                     lastByteMs := if |input| == 0 then p.lastByteMs else now);
      DetectAllKeepsGateInv(base, Run(p.parser, input).1, now);
    }
  }

  /**
   * An authorised tag framed on the line while reading opens the gate in the
   * same update and starts tracking the tag; the parser is ready for the next
   * frame.
   */
  lemma AuthorizedFrameOpensGate(r: Reader, now: u32, f: Frame)
    requires GateInv(r) && r.systemState == Reading && Ready(r.parser)
    requires WellFormedFrame(f) && Authorized(f.epc)
    ensures var n := Next(r, now, Encode(f)).0;
      && n.gateState == Open && n.systemState == DoorOpen
      && n.tagDetected && n.lastTagTime == now
      && n.parser == Parser(WaitStart, 0, 0, f.epc)
  {
    var p := Poll(r, now).0;
    DrainFollowsParser(p, Encode(f), now);
    FrameRoundTrip(p.parser, f);
    assert [f.epc][1..] == [];
  }

  /** A frame with any other identifier leaves the door alone. */
  lemma UnauthorizedFrameIsIgnored(r: Reader, now: u32, f: Frame)
    requires GateInv(r) && r.systemState in {Reading, DoorOpen} && Ready(r.parser)
    requires WellFormedFrame(f) && !Authorized(f.epc)
    requires r.tagDetected ==> Elapsed(now, r.lastTagTime) <= TAG_TIMEOUT_MS
    ensures var n := Next(r, now, Encode(f)).0;
      && n.gateState == r.gateState && n.systemState == r.systemState
      && n.tagDetected == r.tagDetected && n.lastTagTime == r.lastTagTime
  {
    var p := Poll(r, now).0;
    DrainFollowsParser(p, Encode(f), now);
    FrameRoundTrip(p.parser, f);
    assert [f.epc][1..] == [];
  }

  /**
   * The timeout is strict: exactly `TAG_TIMEOUT_MS` after the last sighting the
   * door stays open; one millisecond later the closing starts, with the gate
   * still open.
   */
  lemma TagTimeoutStartsClosing(r: Reader, now: u32)
    requires GateInv(r) && r.systemState == DoorOpen
    ensures Elapsed(now, r.lastTagTime) <= TAG_TIMEOUT_MS ==>
      Next(r, now, []).0.systemState == DoorOpen && Next(r, now, []).0.tagDetected
    ensures Elapsed(now, r.lastTagTime) > TAG_TIMEOUT_MS ==>
      && Next(r, now, []).0.systemState == DoorClosing
      && !Next(r, now, []).0.tagDetected
      && Next(r, now, []).0.gateState == Open
  {
  }

  /** The update after the closing started closes the gate and reads again, whatever arrived. */
  lemma ClosingClosesGate(r: Reader, now: u32, input: seq<bv8>)
    requires GateInv(r) && r.systemState == DoorClosing
    ensures Next(r, now, input).0.gateState == Closed
    ensures Next(r, now, input).0.systemState == Reading
    ensures Next(r, now, input).0.parser == r.parser
    ensures !Next(r, now, input).1
  {
  }

  /**
   * While reading, a frame abandoned half-way is dropped once no byte has
   * arrived for longer than the parser timeout; nothing is detected.
   */
  lemma StalledFrameIsDropped(r: Reader, now: u32)
    requires GateInv(r) && r.systemState == Reading && r.parser.state != WaitStart
    requires Elapsed(now, r.lastByteMs) > PARSER_TIMEOUT_MS
    ensures var n := Next(r, now, []).0;
      && n.parser == Reset(r.parser) && Ready(n.parser)
      && n.systemState == Reading && n.gateState == Closed && !n.tagDetected
  {
  }

  /** With the door open the parser timeout is not checked: a stale half frame stays. */
  lemma NoStallCheckWhileOpen(r: Reader, now: u32)
    requires GateInv(r) && r.systemState == DoorOpen
    ensures Next(r, now, []).0.parser == r.parser
  {
  }

  // ---------------------------------------------------------------------------
  // The manager object
  // ---------------------------------------------------------------------------

  class RfidManager {
    var systemState: SystemState
    var lastByteMs: u32
    var state: ParseState
    var dataAdd: u8
    var epcIndex: u8
    const epcBuf: array<bv8>
    var lastSendMs: u32
    var lastTagTime: u32
    var tagDetected: bool
    var gateState: GateState

    ghost predicate Valid()
    {
      epcBuf.Length == EPC_LENGTH
    }

    /** The fields read as a `Reader`. */
    ghost function View(): Reader
      reads this, epcBuf
      requires Valid()
    {
      Reader(Parser(state, dataAdd, epcIndex, epcBuf[..]), systemState, gateState,
             lastByteMs, lastSendMs, lastTagTime, tagDetected)
    }

    /** Construction followed by `begin()`: gate closed, reading, clocks stamped `now`. */
    constructor Begin(now: u32)
      ensures Valid() && fresh(epcBuf)
      ensures View() == Started(now)
    {
      systemState := Reading;
      lastByteMs := now;
      state := WaitStart;
      dataAdd := 0;
      epcIndex := 0;
      epcBuf := new bv8[EPC_LENGTH](_ => 0);
      lastSendMs := now;
      lastTagTime := 0;
      tagDetected := false;
      gateState := Closed;
      new;
      assert epcBuf[..] == ZERO_EPC;
    }

    /** `resetParser`. */
    method ResetParser()
      requires Valid()
      modifies this`state, this`dataAdd, this`epcIndex
      ensures View() == old(View()).(parser := Reset(old(View()).parser))
    {
      state := WaitStart;
      dataAdd := 0;
      epcIndex := 0;
    }

    /** `isAuthorizedTag`: compare `epcBuf` with every allowlist row, byte by byte. */
    method IsAuthorizedTag() returns (ok: bool)
      requires Valid()
      ensures ok <==> Authorized(epcBuf[..])
    {
      var i := 0;
      while i < |AUTHORIZED_TAGS|
        invariant 0 <= i <= |AUTHORIZED_TAGS|
        invariant forall k :: 0 <= k < i ==> AUTHORIZED_TAGS[k] != epcBuf[..]
      {
        var same := true;
        var j := 0;
        while j < EPC_LENGTH
          invariant 0 <= j <= EPC_LENGTH
          invariant same
          invariant forall k :: 0 <= k < j ==> AUTHORIZED_TAGS[i][k] == epcBuf[k]
        {
          if AUTHORIZED_TAGS[i][j] != epcBuf[j] {
            same := false;
            break;
          }
          j := j + 1;
        }
        if same {
          assert AUTHORIZED_TAGS[i] == epcBuf[..];
          return true;
        }
        assert AUTHORIZED_TAGS[i][j] != epcBuf[..][j];
        i := i + 1;
      }
      return false;
    }

    /** `openDoor`: drives the servo only when the gate is not already open. */
    method OpenDoor() returns (actuated: bool)
      modifies this`gateState
      ensures gateState == Open
      ensures actuated == (old(gateState) != Open)
    {
      actuated := gateState != Open;
      if actuated {
        gateState := Open;
      }
    }

    /** `closeDoor`: drives the servo only when the gate is not already closed. */
    method CloseDoor() returns (actuated: bool)
      modifies this`gateState
      ensures gateState == Closed
      ensures actuated == (old(gateState) != Closed)
    {
      actuated := gateState != Closed;
      if actuated {
        gateState := Closed;
      }
    }

    /** `handleTagDetection`: nothing unless all twelve bytes were collected. */
    method HandleTagDetection(now: u32)
      requires Valid()
      modifies this`systemState, this`gateState, this`tagDetected, this`lastTagTime
      ensures View() == if old(epcIndex) == EPC_LENGTH
                        then Detect(old(View()), old(View()).parser.epcBuf, now)
                        else old(View())
    {
      if epcIndex != EPC_LENGTH {
        return;
      }
      var ok := IsAuthorizedTag();
      if ok {
        if !tagDetected {
          var _ := OpenDoor();
          systemState := DoorOpen;
        }
        tagDetected := true;
        lastTagTime := now;
      }
    }

    /** `processByte(b)`. */
    method ProcessByte(b: bv8, now: u32)
      requires Valid()
      modifies this`state, this`dataAdd, this`epcIndex, epcBuf
      modifies this`systemState, this`gateState, this`tagDetected, this`lastTagTime
      ensures View() == Consume(old(View()), b, now)
    {
      if dataAdd >= MAX_PACKET_LEN {
        ResetParser();
        return;
      }
      match state {
      case WaitStart =>
        if b == FRAME_START {
          state := GotStart;
          dataAdd := 0;
          epcIndex := 0;
        }
      case GotStart =>
        if b == FRAME_CODE {
          state := GotCode;
          dataAdd := CODE_OFFSET;
          epcIndex := 0;
        } else {
          ResetParser();
        }
      case GotCode =>
        dataAdd := dataAdd + 1;
        if EPC_FIRST <= dataAdd <= EPC_LAST && epcIndex < EPC_LENGTH {
          epcBuf[epcIndex] := b;
          epcIndex := epcIndex + 1;
        }
        if dataAdd >= FRAME_END {
          ghost var q := View().parser;
          HandleTagDetection(now);
          ResetParser();
          assert View().parser == Reset(q);
        }
      }
    }

    /** The `while (Serial.available())` loop of READING and DOOR_OPEN. */
    method ReadAvailable(now: u32, input: seq<bv8>)
      requires Valid()
      modifies this, epcBuf
      ensures View() == Drain(old(View()), input, now)
    {
      var i := 0;
      while i < |input|
        invariant 0 <= i <= |input|
        invariant Drain(View(), input[i..], now) == Drain(old(View()), input, now)
      {
        assert input[i..][0] == input[i] && input[i..][1..] == input[i + 1..];
        lastByteMs := now;
        ProcessByte(input[i], now);
        i := i + 1;
      }
      assert input[i..] == [];
    }

    /** `checkTagTimeout`. */
    method CheckTagTimeout(now: u32)
      requires Valid()
      modifies this`tagDetected, this`systemState
      ensures View() == Expire(old(View()), now)
    {
      if tagDetected && Elapsed(now, lastTagTime) > TAG_TIMEOUT_MS {
        tagDetected := false;
        systemState := DoorClosing;
      }
    }

    /** `update()`: the state switch, then the tag timeout. */
    method Update(now: u32, input: seq<bv8>) returns (polled: bool)
      requires Valid()
      modifies this, epcBuf
      ensures View() == Next(old(View()), now, input).0
      ensures polled == Next(old(View()), now, input).1
    {
      polled := false;
      match systemState {
      case Idle =>
        if Elapsed(now, lastSendMs) >= READ_INTERVAL_MS {
          lastSendMs := now;
          polled := true;
          systemState := Reading;
        }
      case Reading =>
        if Elapsed(now, lastSendMs) >= READ_INTERVAL_MS {
          lastSendMs := now;
          polled := true;
        }
        ReadAvailable(now, input);
        if state != WaitStart && Elapsed(now, lastByteMs) > PARSER_TIMEOUT_MS {
          ResetParser();
        }
      case DoorOpen =>
        if Elapsed(now, lastSendMs) >= READ_INTERVAL_MS {
          lastSendMs := now;
          polled := true;
        }
        ReadAvailable(now, input);
      case DoorClosing =>
        var _ := CloseDoor();
        systemState := Reading;
      }
      assert View() == Dispatch(old(View()), now, input).0;
      CheckTagTimeout(now);
    }
  }
}
