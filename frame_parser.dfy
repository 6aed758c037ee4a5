/**
 * The byte-at-a-time frame parser of the always-on reader (`processByte` and
 * `resetParser`), as a value: `Step` consumes one byte and reports the
 * identifier it hands to `handleTagDetection`, if any, and `Run` consumes a
 * whole stream. The class in `GateReader` is proved to follow `Step`.
 */
module FrameParser {
  import opened Common
  import opened Wire

  /** A byte arriving with `dataAdd` at or above this resets the parser and is dropped. */
  const MAX_PACKET_LEN: nat := 64

  datatype ParseState = WaitStart | GotStart | GotCode

  datatype Parser = Parser(state: ParseState, dataAdd: u8, epcIndex: u8, epcBuf: Epc)

  /** `resetParser`: back to `WAIT_START` with both counters zeroed; the buffer is kept. */
  function Reset(p: Parser): Parser
  {
    p.(state := WaitStart, dataAdd := 0, epcIndex := 0)
  }

  /**
   * `processByte(b)`. The second component is the EPC handed on when a frame
   * ends with all twelve identifier bytes collected (`handleTagDetection`
   * returns at once otherwise).
   */
  function Step(p: Parser, b: bv8): (r: (Parser, Option<Epc>))
    ensures p.state != GotCode ==> r.1 == None
    ensures r.1.Some? ==> Ready(r.0) && r.0.epcBuf == r.1.value
    ensures p.dataAdd >= MAX_PACKET_LEN ==> Ready(r.0) && r.1 == None
  {
    if p.dataAdd >= MAX_PACKET_LEN then (Reset(p), None)
    else match p.state
      case WaitStart =>
        if b == FRAME_START then (p.(state := GotStart, dataAdd := 0, epcIndex := 0), None)
        else (p, None)
      case GotStart =>
        if b == FRAME_CODE then (p.(state := GotCode, dataAdd := CODE_OFFSET, epcIndex := 0), None)
        else (Reset(p), None)
      case GotCode =>
        var d := p.dataAdd + 1;
        var q := if EPC_FIRST <= d <= EPC_LAST && p.epcIndex < EPC_LENGTH
                 then p.(dataAdd := d, epcIndex := p.epcIndex + 1, epcBuf := p.epcBuf[p.epcIndex := b])
                 else p.(dataAdd := d);
        if d >= FRAME_END then (Reset(q), if q.epcIndex == EPC_LENGTH then Some(q.epcBuf) else None)
        else (q, None)
  }

  /** The parser after a stream of bytes, and the identifiers it handed on, in order. */
  function Run(p: Parser, bs: seq<bv8>): (Parser, seq<Epc>)
    decreases |bs|
  {
    if |bs| == 0 then (p, [])
    else
      var r := Step(p, bs[0]);
      var rest := Run(r.0, bs[1..]);
      (rest.0, AsSeq(r.1) + rest.1)
  }

  /** Waiting for a frame with nothing collected: where `resetParser` leaves the counters. */
  predicate Ready(p: Parser)
  {
    p.state == WaitStart && p.dataAdd == 0 && p.epcIndex == 0
  }

  /**
   * The states reachable from an idle parser: outside a frame both counters are
   * zero; inside one, `dataAdd` is between the code offset and the last EPC
   * position and `epcIndex` counts the identifier bytes seen so far.
   */
  predicate Inv(p: Parser)
  {
    match p.state
      case WaitStart => p.dataAdd == 0 && p.epcIndex == 0
      case GotStart => p.dataAdd == 0 && p.epcIndex == 0
      case GotCode =>
        CODE_OFFSET <= p.dataAdd <= EPC_LAST &&
        p.epcIndex == (if p.dataAdd < EPC_FIRST then 0 else p.dataAdd - EPC_FIRST + 1)
  }

  // ---------------------------------------------------------------------------
  // One byte at a time
  // ---------------------------------------------------------------------------

  /**
   * Every step keeps the invariant; under it the packet guard never fires, and
   * a tag is handed on only by the trailing byte of a frame.
   */
  lemma StepKeepsInv(p: Parser, b: bv8)
    requires Inv(p)
    ensures Inv(Step(p, b).0)
    ensures p.dataAdd < MAX_PACKET_LEN
    ensures Step(p, b).1.Some? ==> p.state == GotCode && p.dataAdd == EPC_LAST && Ready(Step(p, b).0)
  {
  }

  /** Whatever the state, the counters stay within their bounds. */
  lemma {:induction false} RunKeepsInv(p: Parser, bs: seq<bv8>)
    requires Inv(p)
    ensures Inv(Run(p, bs).0)
    ensures Run(p, bs).0.epcIndex <= EPC_LENGTH && Run(p, bs).0.dataAdd < FRAME_END
    decreases |bs|
  {
    if |bs| > 0 {
      StepKeepsInv(p, bs[0]);
      RunKeepsInv(Step(p, bs[0]).0, bs[1..]);
    }
  }

  /** An over-long packet: the byte is dropped, whatever it is, and the parser restarts. */
  lemma GuardDropsByte(p: Parser, b: bv8, other: bv8)
    requires p.dataAdd >= MAX_PACKET_LEN
    ensures Step(p, b) == Step(p, other)
    ensures Ready(Step(p, b).0) && Step(p, b).1 == None
  {
  }

  /** Waiting for a frame, only the start byte matters; it clears both counters. */
  lemma WaitStartStep(p: Parser, b: bv8)
    requires p.state == WaitStart && p.dataAdd < MAX_PACKET_LEN
    ensures b != FRAME_START ==> Step(p, b) == (p, None)
    ensures b == FRAME_START ==>
      Step(p, b) == (Parser(GotStart, 0, 0, p.epcBuf), None)
  {
  }

  /** After the start byte, the command code enters the frame; anything else abandons it. */
  lemma GotStartStep(p: Parser, b: bv8)
    requires p.state == GotStart && p.dataAdd < MAX_PACKET_LEN
    ensures b == FRAME_CODE ==>
      Step(p, b) == (Parser(GotCode, CODE_OFFSET, 0, p.epcBuf), None)
    ensures b != FRAME_CODE ==>
      Step(p, b) == (Parser(WaitStart, 0, 0, p.epcBuf), None)
  {
  }

  // ---------------------------------------------------------------------------
  // Streams
  // ---------------------------------------------------------------------------

  /** Consuming a stream in two pieces is consuming it at once. */
  lemma {:induction false} RunAppend(p: Parser, a: seq<bv8>, b: seq<bv8>)
    ensures Run(p, a + b).0 == Run(Run(p, a).0, b).0
    ensures Run(p, a + b).1 == Run(p, a).1 + Run(Run(p, a).0, b).1
    decreases |a|
  {
    if |a| == 0 {
      assert a + b == b;
    } else {
      var r := Step(p, a[0]);
      assert (a + b)[0] == a[0];
      assert (a + b)[1..] == a[1..] + b;
      RunAppend(r.0, a[1..], b);
      assert Run(p, a).1 == AsSeq(r.1) + Run(r.0, a[1..]).1;
      assert Run(p, a + b).1 == AsSeq(r.1) + Run(r.0, a[1..] + b).1;
    }
  }

  /** An idle parser ignores any stream that holds no start byte. */
  lemma {:induction false} NoiseIsIgnored(p: Parser, bs: seq<bv8>)
    requires Ready(p)
    requires forall i :: 0 <= i < |bs| ==> bs[i] != FRAME_START
    ensures Run(p, bs).0 == p && Run(p, bs).1 == []
    decreases |bs|
  {
    if |bs| > 0 {
      assert Step(p, bs[0]) == (p, None);
      NoiseIsIgnored(p, bs[1..]);
    }
  }

  /** The five skipped bytes only advance `dataAdd`. */
  lemma {:induction false} SkipHeader(p: Parser, bs: seq<bv8>)
    requires p.state == GotCode && CODE_OFFSET <= p.dataAdd
    requires p.dataAdd + |bs| < EPC_FIRST
    ensures Run(p, bs).0 == p.(dataAdd := p.dataAdd + |bs|) && Run(p, bs).1 == []
    decreases |bs|
  {
    if |bs| > 0 {
      SkipHeader(p.(dataAdd := p.dataAdd + 1), bs[1..]);
    }
  }

  /** The identifier bytes land in order in `epcBuf`. */
  lemma {:induction false} FillEpc(p: Parser, bs: seq<bv8>)
    requires p.state == GotCode
    requires p.dataAdd == EPC_FIRST - 1 + p.epcIndex
    requires p.epcIndex + |bs| == EPC_LENGTH
    ensures Run(p, bs).0 ==
      p.(dataAdd := EPC_LAST, epcIndex := EPC_LENGTH, epcBuf := p.epcBuf[..p.epcIndex] + bs)
    ensures Run(p, bs).1 == []
    decreases |bs|
  {
    if |bs| == 0 {
      assert p.epcBuf[..p.epcIndex] + bs == p.epcBuf;
    } else {
      var q := p.(dataAdd := p.dataAdd + 1, epcIndex := p.epcIndex + 1,
                  epcBuf := p.epcBuf[p.epcIndex := bs[0]]);
      assert Step(p, bs[0]) == (q, None);
      FillEpc(q, bs[1..]);
      assert q.epcBuf[..q.epcIndex] + bs[1..] == p.epcBuf[..p.epcIndex] + bs;
    }
  }

  /**
   * Round trip: from an idle parser, one frame hands on exactly its own
   * identifier and leaves the parser idle again, holding that identifier.
   */
  lemma FrameRoundTrip(p: Parser, f: Frame)
    requires Ready(p) && WellFormedFrame(f)
    ensures Run(p, Encode(f)).0 == Parser(WaitStart, 0, 0, f.epc)
    ensures Run(p, Encode(f)).1 == [f.epc]
  {
    var p1 := Parser(GotStart, 0, 0, p.epcBuf);
    var p2 := Parser(GotCode, CODE_OFFSET, 0, p.epcBuf);
    var p3 := p2.(dataAdd := EPC_FIRST - 1);
    var p4 := Parser(GotCode, EPC_LAST, EPC_LENGTH, f.epc);
    var start: seq<bv8> := [FRAME_START, FRAME_CODE];
    assert Run(p, start).0 == p2 && Run(p, start).1 == [] by {
      assert start[1..] == [FRAME_CODE];
      assert Step(p, FRAME_START) == (p1, None);
      assert Step(p1, FRAME_CODE) == (p2, None);
      assert Run(p1, [FRAME_CODE]).0 == p2 && Run(p1, [FRAME_CODE]).1 == [];
    }
    SkipHeader(p2, f.header);
    RunAppend(p, start, f.header);
    FillEpc(p3, f.epc);
    assert p3.epcBuf[..0] + f.epc == f.epc;
    RunAppend(p, start + f.header, f.epc);
    assert Run(p4, [f.trailer]).0 == Parser(WaitStart, 0, 0, f.epc);
    assert Run(p4, [f.trailer]).1 == [f.epc];
    RunAppend(p, start + f.header + f.epc, [f.trailer]);
  }

  /** Back-to-back frames parse independently: each hands on its own identifier. */
  lemma {:induction false} FramesRoundTrip(p: Parser, fs: seq<Frame>)
    requires Ready(p) && AllWellFormed(fs)
    ensures Run(p, EncodeAll(fs)).1 == Epcs(fs)
    ensures Ready(Run(p, EncodeAll(fs)).0)
    decreases |fs|
  {
    if |fs| > 0 {
      FrameRoundTrip(p, fs[0]);
      var q := Parser(WaitStart, 0, 0, fs[0].epc);
      FramesRoundTrip(q, fs[1..]);
      RunAppend(p, Encode(fs[0]), EncodeAll(fs[1..]));
      assert Epcs(fs) == [fs[0].epc] + Epcs(fs[1..]);
    }
  }
}
