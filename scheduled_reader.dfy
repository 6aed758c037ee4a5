/**
 * The scheduled reader (`src/RFID/RFIDManager.cpp`): it reads only while the
 * coordinator's schedule allows it, polls the reader at most once per read
 * period, and hands every completed identifier to the coordinator, which
 * opens the door for a registered tag.
 *
 * The serial port is the `input` parameter (the bytes available during this
 * call) and the poll command is the returned `polled` flag. The file-static
 * `lastCommandTime` is a field.
 */
module ScheduledReader {
  import opened Common
  import opened Wire
  import opened Registry
  import opened Coordinator
  import opened ScanParser

  const READ_CMD_PERIOD_MS: nat := 1000

  /** Some identifier of the list is registered in `tbl`. */
  predicate AnyKnown(tbl: TagTable, epcs: seq<Epc>)
  {
    exists k :: 0 <= k < |epcs| && Known(tbl, epcs[k])
  }

  class RfidManager {
    const coordinator: SystemCoordinator
    var state: u8
    var codeState: u8
    var dataAdd: u8
    var epcIndex: u8
    const epcBuf: array<bv8>
    var lastCommandTime: u32

    ghost predicate Valid()
      reads this, coordinator, coordinator.Repr()
    {
      epcBuf.Length == EPC_LENGTH && coordinator.Valid()
    }

    /** The parser fields read as a `Scanner`. */
    ghost function View(): Scanner
      reads this, epcBuf
      requires epcBuf.Length == EPC_LENGTH
    {
      Scanner(state, codeState, dataAdd, epcIndex, epcBuf[..])
    }

    /** Construction followed by `begin()`: cleared parser, no command sent yet. */
    constructor Begin(coord: SystemCoordinator)
      requires coord.Valid()
      ensures Valid() && fresh(epcBuf)
      ensures coordinator == coord
      ensures View() == CLEARED && lastCommandTime == 0
    {
      coordinator := coord;
      epcBuf := new bv8[EPC_LENGTH](_ => 0);
      state := 0;
      codeState := 0;
      dataAdd := 0;
      epcIndex := 0;
      lastCommandTime := 0;
      new;
      assert epcBuf[..] == ZERO_EPC;
    }

    /** `resetStates`: counters and buffer back to zero. */
    method ResetStates()
      requires epcBuf.Length == EPC_LENGTH
      modifies this`state, this`codeState, this`dataAdd, this`epcIndex, epcBuf
      ensures View() == CLEARED
    {
      state := 0;
      codeState := 0;
      dataAdd := 0;
      epcIndex := 0;
      forall i | 0 <= i < epcBuf.Length {
        epcBuf[i] := 0;
      }
      assert epcBuf[..] == ZERO_EPC;
    }

    /**
     * `handleEpcComplete`: a registered identifier is reported to the
     * coordinator; an unknown one causes no coordinator change at all.
     */
    method HandleEpcComplete(now: u32)
      requires Valid()
      modifies coordinator`Table, coordinator`doorOpen, coordinator.tagPresent, coordinator.lastSeen
      ensures Valid()
      ensures coordinator.Table == MarkSeen(old(coordinator.Table), epcBuf[..], now)
      ensures coordinator.doorOpen == (old(coordinator.doorOpen) || Known(old(coordinator.Table), epcBuf[..]))
      ensures !Known(old(coordinator.Table), epcBuf[..]) ==>
        unchanged(coordinator, coordinator.tagPresent, coordinator.lastSeen)
    {
      var ok := coordinator.IsValidTag(epcBuf[..]);
      if ok {
        coordinator.OnTagDetected(epcBuf[..], now);
      }
    }

    /** The body of the byte loop in `loop()`, for one byte. */
    method ConsumeByte(b: bv8, now: u32)
      requires Valid()
      modifies this`state, this`codeState, this`dataAdd, this`epcIndex, epcBuf
      modifies coordinator`Table, coordinator`doorOpen, coordinator.tagPresent, coordinator.lastSeen
      ensures Valid()
      ensures View() == ScanStep(old(View()), b).0
      ensures var e := ScanStep(old(View()), b).1;
        && coordinator.Table == (if e.Some? then MarkSeen(old(coordinator.Table), e.value, now)
                                 else old(coordinator.Table))
        && coordinator.doorOpen == (old(coordinator.doorOpen) || (e.Some? && Known(old(coordinator.Table), e.value)))
    {
      if b == FRAME_START && state == 0 {
        state := 1;
      } else if state == 1 && b == FRAME_CODE && codeState == 0 {
        codeState := 1;
        dataAdd := CODE_OFFSET;
        epcIndex := 0;
      } else if codeState == 1 {
        dataAdd := if dataAdd + 1 == TWO_POW_8 then 0 else dataAdd + 1;
        if EPC_FIRST <= dataAdd <= EPC_LAST {
          if epcIndex < EPC_LENGTH {
            epcBuf[epcIndex] := b;
            epcIndex := epcIndex + 1;
          }
        } else if dataAdd >= FRAME_END {
          if epcIndex == EPC_LENGTH {
            HandleEpcComplete(now);
          }
          ResetStates();
        }
      } else {
        ResetStates();
      }
    }

    /**
     * `loop()`. With reading disabled the parser is cleared and nothing else
     * happens. Otherwise a read command goes out once the read period has
     * passed, every available byte is parsed, and each completed identifier
     * is reported to the coordinator in order.
     */
    method Loop(now: u32, input: seq<bv8>) returns (polled: bool)
      requires Valid()
      modifies this`state, this`codeState, this`dataAdd, this`epcIndex, this`lastCommandTime, epcBuf
      modifies coordinator`Table, coordinator`doorOpen, coordinator.tagPresent, coordinator.lastSeen
      ensures Valid()
      ensures !coordinator.rfidEnabled ==>
        && View() == CLEARED && !polled && lastCommandTime == old(lastCommandTime)
        && unchanged(coordinator, coordinator.tagPresent, coordinator.lastSeen)
      ensures coordinator.rfidEnabled ==>
        && polled == (Elapsed(now, old(lastCommandTime)) >= READ_CMD_PERIOD_MS)
        && lastCommandTime == (if polled then now else old(lastCommandTime))
        && View() == Scan(old(View()), input).0
        && coordinator.Table == MarkAll(old(coordinator.Table), Scan(old(View()), input).1, now)
        && coordinator.doorOpen ==
             (old(coordinator.doorOpen) || AnyKnown(old(coordinator.Table), Scan(old(View()), input).1))
    {
      if !coordinator.rfidEnabled {
        ResetStates();
        return false;
      }
      polled := false;
      if Elapsed(now, lastCommandTime) >= READ_CMD_PERIOD_MS {
        lastCommandTime := now;
        polled := true;
      }
      ReadAvailable(now, input);
    }

    /** The `while (Serial.available() > 0)` loop of `loop()`. */
    method ReadAvailable(now: u32, input: seq<bv8>)
      requires Valid()
      modifies this`state, this`codeState, this`dataAdd, this`epcIndex, epcBuf
      modifies coordinator`Table, coordinator`doorOpen, coordinator.tagPresent, coordinator.lastSeen
      ensures Valid()
      ensures View() == Scan(old(View()), input).0
      ensures coordinator.Table == MarkAll(old(coordinator.Table), Scan(old(View()), input).1, now)
      ensures coordinator.doorOpen ==
        (old(coordinator.doorOpen) || AnyKnown(old(coordinator.Table), Scan(old(View()), input).1))
    {
      ghost var t0 := coordinator.Table;
      ghost var door0 := coordinator.doorOpen;
      ghost var final := Scan(View(), input);
      ghost var emitted: seq<Epc> := [];
      var i := 0;
      while i < |input|
        invariant 0 <= i <= |input|
        invariant Valid()
        invariant Scan(View(), input[i..]).0 == final.0
        invariant emitted + Scan(View(), input[i..]).1 == final.1
        invariant coordinator.Table == MarkAll(t0, emitted, now)
        invariant coordinator.doorOpen == (door0 || AnyKnown(t0, emitted))
      {
        ghost var step := ScanStep(View(), input[i]);
        ScanAdvance(View(), input, i, emitted, final);
        ReadOne(input[i], now, t0, door0, emitted);
        emitted := emitted + AsSeq(step.1);
        i := i + 1;
      }
      assert input[i..] == [];
      assert emitted + [] == emitted;
    }

    /**
     * One pass of the byte loop, stated against everything reported since the
     * loop began: the tags reported so far are `emitted`, reported to the
     * table `t0` with the door flag starting at `door0`.
     */
    method ReadOne(b: bv8, now: u32, ghost t0: TagTable, ghost door0: bool, ghost emitted: seq<Epc>)
      requires Valid()
      requires coordinator.Table == MarkAll(t0, emitted, now)
      requires coordinator.doorOpen == (door0 || AnyKnown(t0, emitted))
      modifies this`state, this`codeState, this`dataAdd, this`epcIndex, epcBuf
      modifies coordinator`Table, coordinator`doorOpen, coordinator.tagPresent, coordinator.lastSeen
      ensures Valid()
      ensures View() == ScanStep(old(View()), b).0
      ensures var more := emitted + AsSeq(ScanStep(old(View()), b).1);
        && coordinator.Table == MarkAll(t0, more, now)
        && coordinator.doorOpen == (door0 || AnyKnown(t0, more))
    {
      ReportOne(t0, emitted, ScanStep(View(), b).1, now);
      ConsumeByte(b, now);
    }
  }

  /** Scanning from position `i` is one step, then scanning from `i + 1`. */
  lemma ScanFrom(s: Scanner, bs: seq<bv8>, i: nat)
    requires i < |bs|
    ensures var step := ScanStep(s, bs[i]);
      && Scan(s, bs[i..]).0 == Scan(step.0, bs[i + 1..]).0
      && Scan(s, bs[i..]).1 == AsSeq(step.1) + Scan(step.0, bs[i + 1..]).1
  {
    assert bs[i..][0] == bs[i] && bs[i..][1..] == bs[i + 1..];
  }

  /** The loop invariant of the byte loop carried across one byte. */
  lemma ScanAdvance(s: Scanner, bs: seq<bv8>, i: nat, emitted: seq<Epc>, final: (Scanner, seq<Epc>))
    requires i < |bs|
    requires Scan(s, bs[i..]).0 == final.0 && emitted + Scan(s, bs[i..]).1 == final.1
    ensures var step := ScanStep(s, bs[i]);
      && Scan(step.0, bs[i + 1..]).0 == final.0
      && (emitted + AsSeq(step.1)) + Scan(step.0, bs[i + 1..]).1 == final.1
  {
    var step := ScanStep(s, bs[i]);
    ScanFrom(s, bs, i);
    assert (emitted + AsSeq(step.1)) + Scan(step.0, bs[i + 1..]).1 ==
           emitted + (AsSeq(step.1) + Scan(step.0, bs[i + 1..]).1);
  }

  /** Some identifier of a longer list is known iff one of the shorter list or the new one is. */
  lemma AnyKnownSnoc(t0: TagTable, emitted: seq<Epc>, v: Epc)
    ensures AnyKnown(t0, emitted + [v]) == (AnyKnown(t0, emitted) || Known(t0, v))
  {
    var s := emitted + [v];
    if AnyKnown(t0, s) {
      var k :| 0 <= k < |s| && Known(t0, s[k]);
      if k < |emitted| {
        assert s[k] == emitted[k];
      }
    }
    if AnyKnown(t0, emitted) {
      var k :| 0 <= k < |emitted| && Known(t0, emitted[k]);
      assert s[k] == emitted[k];
    }
    if Known(t0, v) {
      assert s[|emitted|] == v;
    }
  }

  /** Reporting one more optional identifier after a batch. */
  lemma ReportOne(t0: TagTable, emitted: seq<Epc>, e: Option<Epc>, now: u32)
    ensures MarkAll(t0, emitted + AsSeq(e), now) ==
      (if e.Some? then MarkSeen(MarkAll(t0, emitted, now), e.value, now) else MarkAll(t0, emitted, now))
    ensures AnyKnown(t0, emitted + AsSeq(e)) ==
      (AnyKnown(t0, emitted) || (e.Some? && Known(MarkAll(t0, emitted, now), e.value)))
  {
    if e.Some? {
      MarkAllSnoc(t0, emitted, e.value, now);
      MarkAllKeepsKnown(t0, emitted, now, e.value);
      AnyKnownSnoc(t0, emitted, e.value);
    } else {
      assert emitted + AsSeq(e) == emitted;
    }
  }
}
