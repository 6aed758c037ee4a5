/**
 * The byte loop of the scheduled reader (`RFIDManager::loop` in
 * `src/RFID/RFIDManager.cpp`) as a value. It tracks the frame with two flags,
 * `state` (start byte seen) and `codeState` (command code seen), has no packet
 * guard and no idle timeout, and every reset (`resetStates`) also zeroes the
 * identifier buffer.
 */
module ScanParser {
  import opened Common
  import opened Wire

  datatype Scanner = Scanner(state: u8, codeState: u8, dataAdd: u8, epcIndex: u8, epcBuf: Epc)

  /** `resetStates`: every counter and every buffer byte zero. */
  const CLEARED: Scanner := Scanner(0, 0, 0, 0, ZERO_EPC)

  /**
   * One byte of the loop. The second component is the EPC handed to
   * `handleEpcComplete`, which happens only when a frame ends with all twelve
   * identifier bytes collected.
   */
  function ScanStep(s: Scanner, b: bv8): (r: (Scanner, Option<Epc>))
    ensures s.codeState != 1 ==> r.1 == None
    ensures r.1.Some? ==> r.0 == CLEARED && s.epcIndex == EPC_LENGTH && r.1.value == s.epcBuf
  {
    if b == FRAME_START && s.state == 0 then (s.(state := 1), None)
    else if s.state == 1 && b == FRAME_CODE && s.codeState == 0 then
      (s.(codeState := 1, dataAdd := CODE_OFFSET, epcIndex := 0), None)
    else if s.codeState == 1 then
      var d := if s.dataAdd + 1 == TWO_POW_8 then 0 else s.dataAdd + 1;  // `uint8_t` wraps
      if EPC_FIRST <= d <= EPC_LAST then
        if s.epcIndex < EPC_LENGTH
        then (s.(dataAdd := d, epcIndex := s.epcIndex + 1, epcBuf := s.epcBuf[s.epcIndex := b]), None)
        else (s.(dataAdd := d), None)
      else if d >= FRAME_END then
        (CLEARED, if s.epcIndex == EPC_LENGTH then Some(s.epcBuf) else None)
      else (s.(dataAdd := d), None)
    else (CLEARED, None)
  }

  /** The scanner after a stream of bytes, and the identifiers completed, in order. */
  function Scan(s: Scanner, bs: seq<bv8>): (Scanner, seq<Epc>)
    decreases |bs|
  {
    if |bs| == 0 then (s, [])
    else
      var r := ScanStep(s, bs[0]);
      var rest := Scan(r.0, bs[1..]);
      (rest.0, AsSeq(r.1) + rest.1)
  }

  /** Outside a frame, waiting for its start byte, nothing collected. */
  predicate Waiting(s: Scanner)
  {
    s.state == 0 && s.codeState == 0 && s.dataAdd == 0 && s.epcIndex == 0
  }

  /**
   * The states reachable from `CLEARED`: before the command code both counters
   * are zero; after it `dataAdd` is between the code offset and the last EPC
   * position and `epcIndex` counts the identifier bytes seen so far.
   */
  predicate ScanInv(s: Scanner)
  {
    if s.codeState == 0 then
      (s.state == 0 || s.state == 1) && s.dataAdd == 0 && s.epcIndex == 0
    else
      s.codeState == 1 && s.state == 1 &&
      CODE_OFFSET <= s.dataAdd <= EPC_LAST &&
      s.epcIndex == (if s.dataAdd < EPC_FIRST then 0 else s.dataAdd - EPC_FIRST + 1)
  }

  // ---------------------------------------------------------------------------
  // One byte at a time
  // ---------------------------------------------------------------------------

  /**
   * Every byte keeps the invariant, so `dataAdd` never wraps, and a tag is
   * handed on only by the trailing byte of a frame, which clears everything.
   */
  lemma ScanStepKeepsInv(s: Scanner, b: bv8)
    requires ScanInv(s)
    ensures ScanInv(ScanStep(s, b).0)
    ensures s.dataAdd + 1 < TWO_POW_8
    ensures ScanStep(s, b).1.Some? ==>
      s.codeState == 1 && s.dataAdd == EPC_LAST && ScanStep(s, b).0 == CLEARED
  {
  }

  /** Over any byte stream, `epcIndex` stays at most 12 and `dataAdd` below 21. */
  lemma {:induction false} ScanKeepsInv(s: Scanner, bs: seq<bv8>)
    requires ScanInv(s)
    ensures ScanInv(Scan(s, bs).0)
    ensures Scan(s, bs).0.epcIndex <= EPC_LENGTH && Scan(s, bs).0.dataAdd < FRAME_END
    decreases |bs|
  {
    if |bs| > 0 {
      ScanStepKeepsInv(s, bs[0]);
      ScanKeepsInv(ScanStep(s, bs[0]).0, bs[1..]);
    }
  }

  /**
   * Outside a frame: the start byte sets `state`, the command code after it
   * enters the frame, and any other byte clears everything, buffer included.
   */
  lemma OutsideFrame(s: Scanner, b: bv8)
    requires s.codeState == 0
    ensures ScanStep(s, b).1 == None
    ensures s.state == 0 && b == FRAME_START ==> ScanStep(s, b).0 == s.(state := 1)
    ensures s.state == 1 && b == FRAME_CODE ==>
      ScanStep(s, b).0 == s.(codeState := 1, dataAdd := CODE_OFFSET, epcIndex := 0)
    ensures !(s.state == 0 && b == FRAME_START) && !(s.state == 1 && b == FRAME_CODE) ==>
      ScanStep(s, b).0 == CLEARED
  {
  }

  /**
   * Inside a frame every byte is payload, the start and code bytes included:
   * positions 9 to 20 fill the buffer in order and position 21 completes the
   * frame with all twelve bytes.
   */
  lemma InsideFrame(s: Scanner, b: bv8)
    requires ScanInv(s) && s.codeState == 1
    ensures EPC_FIRST <= s.dataAdd + 1 <= EPC_LAST ==>
      ScanStep(s, b) == (s.(dataAdd := s.dataAdd + 1, epcIndex := s.epcIndex + 1,
                            epcBuf := s.epcBuf[s.epcIndex := b]), None)
    ensures s.dataAdd + 1 < EPC_FIRST ==> ScanStep(s, b) == (s.(dataAdd := s.dataAdd + 1), None)
    ensures s.dataAdd + 1 == FRAME_END ==> ScanStep(s, b) == (CLEARED, Some(s.epcBuf))
  {
  }

  // ---------------------------------------------------------------------------
  // Streams
  // ---------------------------------------------------------------------------

  /** Consuming a stream in two pieces is consuming it at once. */
  lemma {:induction false} ScanAppend(s: Scanner, a: seq<bv8>, b: seq<bv8>)
    ensures Scan(s, a + b).0 == Scan(Scan(s, a).0, b).0
    ensures Scan(s, a + b).1 == Scan(s, a).1 + Scan(Scan(s, a).0, b).1
    decreases |a|
  {
    if |a| == 0 {
      assert a + b == b;
    } else {
      var r := ScanStep(s, a[0]);
      assert (a + b)[0] == a[0];
      assert (a + b)[1..] == a[1..] + b;
      ScanAppend(r.0, a[1..], b);
      assert Scan(s, a + b).1 == AsSeq(r.1) + Scan(r.0, a[1..] + b).1;
    }
  }

  /** The five skipped bytes only advance `dataAdd`. */
  lemma {:induction false} ScanHeader(s: Scanner, bs: seq<bv8>)
    requires ScanInv(s) && s.codeState == 1
    requires s.dataAdd + |bs| < EPC_FIRST
    ensures Scan(s, bs).0 == s.(dataAdd := s.dataAdd + |bs|) && Scan(s, bs).1 == []
    decreases |bs|
  {
    if |bs| > 0 {
      ScanHeader(s.(dataAdd := s.dataAdd + 1), bs[1..]);
    }
  }

  /** The identifier bytes land in order in `epcBuf`. */
  lemma {:induction false} ScanEpc(s: Scanner, bs: seq<bv8>)
    requires s.state == 1 && s.codeState == 1
    requires s.dataAdd == EPC_FIRST - 1 + s.epcIndex
    requires s.epcIndex + |bs| == EPC_LENGTH
    ensures Scan(s, bs).0 ==
      s.(dataAdd := EPC_LAST, epcIndex := EPC_LENGTH, epcBuf := s.epcBuf[..s.epcIndex] + bs)
    ensures Scan(s, bs).1 == []
    decreases |bs|
  {
    if |bs| == 0 {
      assert s.epcBuf[..s.epcIndex] + bs == s.epcBuf;
    } else {
      var q := s.(dataAdd := s.dataAdd + 1, epcIndex := s.epcIndex + 1,
                  epcBuf := s.epcBuf[s.epcIndex := bs[0]]);
      assert ScanStep(s, bs[0]) == (q, None);
      ScanEpc(q, bs[1..]);
      assert q.epcBuf[..q.epcIndex] + bs[1..] == s.epcBuf[..s.epcIndex] + bs;
    }
  }

  /**
   * Round trip: a scanner waiting for a frame hands on exactly the identifier
   * of one frame and ends cleared.
   */
  lemma ScanRoundTrip(s: Scanner, f: Frame)
    requires Waiting(s) && WellFormedFrame(f)
    ensures Scan(s, Encode(f)).0 == CLEARED
    ensures Scan(s, Encode(f)).1 == [f.epc]
  {
    var s2 := s.(state := 1, codeState := 1, dataAdd := CODE_OFFSET, epcIndex := 0);
    var s3 := s2.(dataAdd := EPC_FIRST - 1);
    var start: seq<bv8> := [FRAME_START, FRAME_CODE];
    ScanStart(s);
    ScanHeader(s2, f.header);
    ScanAppend(s, start, f.header);
    ScanEpc(s3, f.epc);
    assert s3.epcBuf[..0] + f.epc == f.epc;
    ScanAppend(s, start + f.header, f.epc);
    ScanTrailer(s3.(dataAdd := EPC_LAST, epcIndex := EPC_LENGTH, epcBuf := f.epc), f.trailer);
    ScanAppend(s, start + f.header + f.epc, [f.trailer]);
  }

  /** The start byte and the command code open a frame. */
  lemma ScanStart(s: Scanner)
    requires Waiting(s)
    ensures Scan(s, [FRAME_START, FRAME_CODE]).0 ==
      s.(state := 1, codeState := 1, dataAdd := CODE_OFFSET, epcIndex := 0)
    ensures Scan(s, [FRAME_START, FRAME_CODE]).1 == []
  {
    var s1 := s.(state := 1);
    assert [FRAME_START, FRAME_CODE][1..] == [FRAME_CODE];
    assert ScanStep(s1, FRAME_CODE).1 == None;
    assert Scan(s1, [FRAME_CODE]).1 == [];
  }

  /** The trailing byte of a complete frame hands the buffer on and clears everything. */
  lemma ScanTrailer(s: Scanner, t: bv8)
    requires s.state == 1 && s.codeState == 1
    requires s.dataAdd == EPC_LAST && s.epcIndex == EPC_LENGTH
    ensures Scan(s, [t]).0 == CLEARED
    ensures Scan(s, [t]).1 == [s.epcBuf]
  {
    assert ScanStep(s, t) == (CLEARED, Some(s.epcBuf));
  }

  /** Consecutive frames each hand on their own identifier. */
  lemma {:induction false} ScanFramesRoundTrip(s: Scanner, fs: seq<Frame>)
    requires Waiting(s) && AllWellFormed(fs)
    ensures Scan(s, EncodeAll(fs)).1 == Epcs(fs)
    ensures Waiting(Scan(s, EncodeAll(fs)).0)
    decreases |fs|
  {
    if |fs| > 0 {
      ScanRoundTrip(s, fs[0]);
      ScanFramesRoundTrip(CLEARED, fs[1..]);
      ScanAppend(s, Encode(fs[0]), EncodeAll(fs[1..]));
      assert Epcs(fs) == [fs[0].epc] + Epcs(fs[1..]);
    }
  }

  /** Bytes still to come before the current frame can complete. */
  function Needed(s: Scanner): nat
    requires ScanInv(s)
  {
    if s.codeState == 1 then FRAME_END - s.dataAdd
    else if s.state == 1 then FRAME_END - CODE_OFFSET + 1
    else FRAME_END - CODE_OFFSET + 2
  }

  /** No identifier is handed on before the bytes a frame needs have arrived. */
  lemma {:induction false} ShortStreamCompletesNothing(s: Scanner, bs: seq<bv8>)
    requires ScanInv(s) && |bs| < Needed(s)
    ensures Scan(s, bs).1 == []
    decreases |bs|
  {
    if |bs| > 0 {
      var r := ScanStep(s, bs[0]);
      ScanStepKeepsInv(s, bs[0]);
      assert r.1 == None;
      assert Needed(r.0) >= Needed(s) - 1;
      ShortStreamCompletesNothing(r.0, bs[1..]);
    }
  }

  /**
   * A stray start byte right before a frame swallows the frame: its own start
   * byte arrives with `state` already 1 and clears the scanner, and what is
   * left is one byte short of a frame.
   */
  lemma DoubledStartLosesFrame(f: Frame)
    requires WellFormedFrame(f)
    ensures Scan(CLEARED, [FRAME_START] + Encode(f)).1 == []
  {
    var bs := [FRAME_START] + Encode(f);
    var head := bs[..2];
    assert head == [FRAME_START, FRAME_START];
    assert bs == head + bs[2..];
    assert Scan(CLEARED, head).0 == CLEARED && Scan(CLEARED, head).1 == [] by {
      assert head[1..] == [FRAME_START];
      assert ScanStep(CLEARED, FRAME_START) == (CLEARED.(state := 1), None);
      assert ScanStep(CLEARED.(state := 1), FRAME_START) == (CLEARED, None);
      assert Scan(CLEARED.(state := 1), [FRAME_START]).1 == [];
    }
    ScanAppend(CLEARED, head, bs[2..]);
    ShortStreamCompletesNothing(CLEARED, bs[2..]);
  }
}
