/**
 * The firmware's main loop (`src/main.cpp`): one tick runs the Bluetooth
 * command session, then the scheduled reader, then the coordinator's periodic
 * work, all against the one shared coordinator. The tick is specified by the
 * value functions of the modules it composes, and the lemmas below follow a
 * registered tag from its frame on the reader's serial line to the door
 * opening, and to the door closing once the grace period has passed.
 */
module MainLoop {
  import opened Common
  import opened Wire
  import opened Registry
  import Schedule
  import Coordinator
  import Protocol
  import ScanParser
  import Bluetooth
  import ScheduledReader

  /**
   * The identifiers the reader hands on during a tick: those of the bytes
   * `input` when the read gate is open, none when it is closed.
   */
  function TickReads(gate: bool, parser: ScanParser.Scanner, input: seq<bv8>): (read: seq<Epc>)
    ensures !gate ==> read == []
  {
    if gate then ScanParser.Scan(parser, input).1 else []
  }

  /**
   * `loop()`: `bt.loop(); rfid.loop(); coordinator.loop();`. The commands
   * waiting on the Bluetooth link update the interval table and, when one
   * is accepted, the read gate; the reader then parses `input` only if the
   * gate is open; the coordinator finally re-evaluates the gate when its
   * check interval has passed and sweeps the presence timeouts. The door
   * ends open exactly when it was open or a registered tag was read, and
   * some tag is still present after the sweep.
   */
  method Tick(bt: Bluetooth.BluetoothManager, rfid: ScheduledReader.RfidManager, nowMs: u32, input: seq<bv8>)
    returns (polled: bool)
    requires rfid.Valid() && bt.coordinator == rfid.coordinator
    modifies bt`rx
    modifies rfid`state, rfid`codeState, rfid`dataAdd, rfid`epcIndex, rfid`lastCommandTime, rfid.epcBuf
    modifies rfid.coordinator`intervalCount, rfid.coordinator`rfidEnabled, rfid.coordinator.intervals
    modifies rfid.coordinator`lastCheckMs, rfid.coordinator`Table, rfid.coordinator`doorOpen
    modifies rfid.coordinator.tagPresent, rfid.coordinator.lastSeen
    ensures rfid.Valid()
    ensures bt.rx == Bluetooth.Unread(old(bt.rx))
    ensures var c := rfid.coordinator;
      var r := Protocol.Session(old(c.Intervals()), Bluetooth.Lines(old(bt.rx)));
      var gate := if r.1 then Schedule.ReadingAllowed(r.0, nowMs) else old(c.rfidEnabled);
      var read := TickReads(gate, old(rfid.View()), input);
      && c.Intervals() == r.0
      && rfid.View() == (if gate then ScanParser.Scan(old(rfid.View()), input).0 else ScanParser.CLEARED)
      && c.Table == Sweep(MarkAll(old(c.Table), read, nowMs), nowMs)
      && c.doorOpen == ((old(c.doorOpen) || ScheduledReader.AnyKnown(old(c.Table), read)) && AnyPresent(c.Table))
      && c.rfidEnabled ==
           (if Elapsed(nowMs, old(c.lastCheckMs)) >= Coordinator.COORDINATOR_CHECK_INTERVAL_MS
            then Schedule.ReadingAllowed(r.0, nowMs) else gate)
      && c.lastCheckMs ==
           (if Elapsed(nowMs, old(c.lastCheckMs)) >= Coordinator.COORDINATOR_CHECK_INTERVAL_MS
            then nowMs else old(c.lastCheckMs))
      && (!gate ==> !polled && rfid.lastCommandTime == old(rfid.lastCommandTime))
      && (gate ==>
            && polled == (Elapsed(nowMs, old(rfid.lastCommandTime)) >= ScheduledReader.READ_CMD_PERIOD_MS)
            && rfid.lastCommandTime == (if polled then nowMs else old(rfid.lastCommandTime)))
  {
    bt.Loop(nowMs);
    polled := rfid.Loop(nowMs, input);
    rfid.coordinator.Loop(nowMs);
  }

  /**
   * A tick whose reader input is one frame carrying a registered tag, with
   * the read gate open and the parser waiting for a frame, leaves the door
   * open: the tag is read, it was registered, and it is still present after
   * the sweep of the same tick.
   */
  lemma RegisteredFrameOpensDoor(tbl: TagTable, parser: ScanParser.Scanner, f: Frame, nowMs: u32)
    requires ScanParser.Waiting(parser) && WellFormedFrame(f) && Known(tbl, f.epc)
    ensures var read := TickReads(true, parser, Encode(f));
      && read == [f.epc]
      && ScheduledReader.AnyKnown(tbl, read)
      && AnyPresent(Sweep(MarkAll(tbl, read, nowMs), nowMs))
  {
    ScanParser.ScanRoundTrip(parser, f);
    var read := [f.epc];
    assert MarkAll(tbl, read, nowMs) == MarkSeen(tbl, f.epc, nowMs) by {
      assert read[1..] == [];
    }
    assert Known(tbl, read[0]);
    ReportKeepsPresence(tbl, f.epc, nowMs, nowMs);
  }

  /**
   * After a tag that was the only one present is read at `seenMs`, a later
   * tick that reads no tag (the gate is closed, or no frame completes) finds
   * every tag gone once more than the grace period has passed, so the door
   * closes.
   */
  lemma DoorClosesAfterGrace(tbl: TagTable, epc: Epc, seenMs: u32, laterMs: u32,
                              gate: bool, parser: ScanParser.Scanner, input: seq<bv8>)
    requires !AnyPresent(tbl)
    requires Elapsed(laterMs, seenMs) > DOOR_DELAY_MS
    requires TickReads(gate, parser, input) == []
    ensures var first := Sweep(MarkAll(tbl, [epc], seenMs), seenMs);
      !AnyPresent(Sweep(MarkAll(first, TickReads(gate, parser, input), laterMs), laterMs))
  {
    var marked := MarkAll(tbl, [epc], seenMs);
    assert marked == MarkSeen(tbl, epc, seenMs) by {
      MarkAllSnoc(tbl, [], epc, seenMs);
      assert [] + [epc] == [epc];
    }
    MarkSeenEffect(tbl, epc, seenMs);
    var first := Sweep(marked, seenMs);
    SweepOnlyClears(marked, seenMs);
    forall i | 0 <= i < |first| && first[i].present
      ensures Expired(laterMs, first[i].lastSeen)
    {
      assert marked[i].present;
      assert i == IndexOf(tbl, epc);
    }
    AllExpiredEmpties(first, laterMs);
  }
}
