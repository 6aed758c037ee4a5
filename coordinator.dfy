/**
 * `SystemCoordinator`: the owner of the interval table, the tag allowlist with
 * its presence tracking, the `rfidEnabled` read gate and the two-state door
 * latch. The fixed-capacity arrays of the firmware stay arrays here; the
 * abstract state is `Intervals()` (the used prefix of `intervals`) and the
 * ghost `Table` (the used prefix of `tags`, `tagPresent` and `lastSeen`, read
 * together), and every method is specified by the value functions of the
 * `Schedule` and `Registry` modules.
 *
 * `millis()` is a parameter (`nowMs`) of every operation that reads the clock.
 * The servo is reduced to the `doorOpen` flag; `OpenDoor` and `CloseDoor`
 * report whether they would have driven it.
 */
module Coordinator {
  import opened Common
  import opened Schedule
  import opened Registry

  /** Period of the coarse re-evaluation in `loop`. */
  const COORDINATOR_CHECK_INTERVAL_MS: nat := 60000

  class SystemCoordinator {
    const intervals: array<IntervalRecord>
    var intervalCount: nat
    const tags: array<Epc>
    const tagPresent: array<bool>
    const lastSeen: array<u32>
    var numTags: nat
    var rfidEnabled: bool
    var lastCheckMs: u32
    var doorOpen: bool

    /** Record `i` of the registry is `tags[i]`, `tagPresent[i]`, `lastSeen[i]`. */
    ghost var Table: TagTable

    /** Every object the coordinator's state lives in. */
    ghost function Repr(): set<object>
    {
      {this, intervals, tags, tagPresent, lastSeen}
    }

    ghost predicate Valid()
      reads this, intervals, tags, tagPresent, lastSeen
    {
      ScheduleValid() && RegistryValid()
    }

    /** The interval half of `Valid`: a well-formed table in the fixed-size array. */
    ghost predicate ScheduleValid()
      reads this`intervalCount, intervals
    {
      && intervals.Length == MAX_INTERVALS
      && intervalCount <= MAX_INTERVALS
      && WellFormed(intervals[..intervalCount])
    }

    /** The registry half of `Valid`: `Table` is what the three parallel arrays hold. */
    ghost predicate RegistryValid()
      reads this`numTags, this`Table, tags, tagPresent, lastSeen
    {
      && tags.Length == MAX_TAGS && tagPresent.Length == MAX_TAGS && lastSeen.Length == MAX_TAGS
      && numTags <= MAX_TAGS
      && |Table| == numTags
      && forall i :: 0 <= i < numTags ==> Table[i] == TagRecord(tags[i], tagPresent[i], lastSeen[i])
    }

    /** The interval table: `intervals[0 .. intervalCount)`. */
    ghost function Intervals(): Schedule.Table
      reads this, intervals
      requires intervalCount <= intervals.Length
    {
      intervals[..intervalCount]
    }

    /**
     * Construction followed by `begin()`: empty schedule, the default tags
     * registered (absent, last seen at 0), reading off, door closed.
     */
    constructor Begin(nowMs: u32)
      ensures Valid()
      ensures fresh(intervals) && fresh(tags) && fresh(tagPresent) && fresh(lastSeen)
      ensures Intervals() == []
      ensures Table == [TagRecord(DEFAULT_TAGS[0], false, 0), TagRecord(DEFAULT_TAGS[1], false, 0)]
      ensures !rfidEnabled && !doorOpen && lastCheckMs == nowMs
    {
      intervals := new IntervalRecord[MAX_INTERVALS](_ => IntervalRecord("", 0, 0, 0, false));
      tags := new Epc[MAX_TAGS](_ => ZERO_EPC);
      tagPresent := new bool[MAX_TAGS](_ => false);
      lastSeen := new u32[MAX_TAGS](_ => 0);
      intervalCount := 0;
      numTags := 0;
      rfidEnabled := false;
      doorOpen := false;
      lastCheckMs := nowMs;
      Table := [];
      new;
      LoadDefaultTags();
      EvaluateNow(nowMs);
    }

    /** The loop of `begin` that registers the default allowlist, at most `MAX_TAGS` of it. */
    method LoadDefaultTags()
      requires Valid() && Table == []
      modifies this`numTags, this`Table, tags, tagPresent, lastSeen
      ensures Valid()
      ensures Table == [TagRecord(DEFAULT_TAGS[0], false, 0), TagRecord(DEFAULT_TAGS[1], false, 0)]
    {
      var toLoad := |DEFAULT_TAGS|;
      if toLoad > MAX_TAGS {
        toLoad := MAX_TAGS;
      }
      var i := 0;
      while i < toLoad
        invariant 0 <= i <= toLoad == |DEFAULT_TAGS|
        invariant Valid() && |Table| == i
        invariant forall k :: 0 <= k < i ==> Table[k] == TagRecord(DEFAULT_TAGS[k], false, 0)
      {
        assert |DEFAULT_TAGS[i]| == EPC_LENGTH && |Table| < MAX_TAGS;
        var _ := AddTag(DEFAULT_TAGS[i]);
        i := i + 1;
      }
    }

    // -------------------------------------------------------------------------
    // Tag registry
    // -------------------------------------------------------------------------

    /** `findTagIndex`: linear scan for the first byte-equal 12-byte id. */
    method FindTagIndex(epc: seq<bv8>) returns (idx: int)
      requires Valid()
      ensures idx == IndexOf(Table, epc)
      ensures idx >= 0 ==> |epc| == EPC_LENGTH && tags[idx] == epc
    {
      if |epc| != EPC_LENGTH {
        return -1;
      }
      var i := 0;
      while i < numTags
        invariant 0 <= i <= numTags
        invariant forall j :: 0 <= j < i ==> Table[j].id != epc
      {
        if tags[i] == epc {
          return i;
        }
        i := i + 1;
      }
      return -1;
    }

    /** `isValidTag`: some registered id is byte-equal to `epc`. */
    method IsValidTag(epc: seq<bv8>) returns (ok: bool)
      requires Valid()
      ensures ok <==> exists i :: 0 <= i < |Table| && Table[i].id == epc
      ensures ok ==> |epc| == EPC_LENGTH
    {
      var idx := FindTagIndex(epc);
      ok := idx >= 0;
    }

    /** `addTag`: append an absent tag, unless the length is wrong or the table is full. */
    method AddTag(epc: seq<bv8>) returns (ok: bool)
      requires Valid()
      modifies this`numTags, this`Table, tags, tagPresent, lastSeen
      ensures Valid()
      ensures ok <==> |epc| == EPC_LENGTH && old(numTags) < MAX_TAGS
      ensures Table == if ok then old(Table) + [TagRecord(epc, false, 0)] else old(Table)
      ensures Register(old(Table), epc) == if ok then Some(Table) else None
      ensures !ok ==> unchanged(tags, tagPresent, lastSeen)
    {
      if |epc| != EPC_LENGTH {
        return false;
      }
      if numTags >= MAX_TAGS {
        return false;
      }
      tags[numTags] := epc;
      tagPresent[numTags] := false;
      lastSeen[numTags] := 0;
      Table := Table + [TagRecord(epc, false, 0)];
      numTags := numTags + 1;
      return true;
    }

    /**
     * `onTagDetected`: a known tag becomes present, stamped `nowMs`, and the
     * door opens if it was closed; anything else changes nothing.
     */
    method OnTagDetected(epc: seq<bv8>, nowMs: u32)
      requires Valid()
      modifies this`Table, this`doorOpen, tagPresent, lastSeen
      ensures Valid()
      ensures Table == MarkSeen(old(Table), epc, nowMs)
      ensures doorOpen == (old(doorOpen) || Known(old(Table), epc))
    {
      if |epc| != EPC_LENGTH {
        return;
      }
      var idx := FindTagIndex(epc);
      if idx < 0 {
        return;
      }
      tagPresent[idx] := true;
      lastSeen[idx] := nowMs;
      Table := Table[idx := TagRecord(Table[idx].id, true, nowMs)];
      if !doorOpen {
        var _ := OpenDoor();
      }
    }

    /** `openDoor`: drives the servo only when the door is closed. */
    method OpenDoor() returns (actuated: bool)
      modifies this`doorOpen
      ensures doorOpen
      ensures actuated == !old(doorOpen)
    {
      if doorOpen {
        return false;
      }
      doorOpen := true;
      return true;
    }

    /** `closeDoor`: drives the servo only when the door is open. */
    method CloseDoor() returns (actuated: bool)
      modifies this`doorOpen
      ensures !doorOpen
      ensures actuated == old(doorOpen)
    {
      if !doorOpen {
        return false;
      }
      doorOpen := false;
      return true;
    }

    /**
     * `checkTagTimeouts`: clear every present tag older than the grace period;
     * close the door when no tag is left present. It never opens the door.
     */
    method CheckTagTimeouts(nowMs: u32)
      requires Valid()
      modifies this`Table, this`doorOpen, tagPresent
      ensures Valid()
      ensures Table == Sweep(old(Table), nowMs)
      ensures doorOpen == (old(doorOpen) && AnyPresent(Table))
    {
      var anyPresent := false;
      var i := 0;
      while i < numTags
        invariant 0 <= i <= numTags
        invariant Valid() && doorOpen == old(doorOpen)
        invariant |Table| == |old(Table)|
        invariant forall k :: 0 <= k < i ==> Table[k] == Swept(old(Table)[k], nowMs)
        invariant forall k :: i <= k < numTags ==> Table[k] == old(Table)[k]
        invariant anyPresent <==> exists k :: 0 <= k < i && Table[k].present
      {
        if tagPresent[i] {
          if Elapsed(nowMs, lastSeen[i]) > DOOR_DELAY_MS {
            tagPresent[i] := false;
            Table := Table[i := Table[i].(present := false)];
          } else {
            anyPresent := true;
          }
        }
        i := i + 1;
      }
      assert Table == Sweep(old(Table), nowMs);
      if !anyPresent && doorOpen {
        var _ := CloseDoor();
      }
    }

    // -------------------------------------------------------------------------
    // Interval table
    // -------------------------------------------------------------------------

    /** `findIndexById`: the first record whose id `strncmp`-matches on 12 characters. */
    method FindIndexById(id: string) returns (idx: int)
      requires Valid()
      ensures idx == FindIndex(Intervals(), id)
    {
      var i := 0;
      while i < intervalCount
        invariant 0 <= i <= intervalCount
        invariant forall j :: 0 <= j < i ==> !IdMatches(intervals[j].id, id)
      {
        if StrnEqual(intervals[i].id, id, ID_BUFFER) {
          return i;
        }
        i := i + 1;
      }
      return -1;
    }

    /**
     * `addInterval`: refused when the table is full or the id is taken;
     * otherwise one enabled record is appended and the gate re-evaluated.
     */
    method AddInterval(id: string, startMin: u16, endMin: u16, daysMask: bv8, nowMs: u32)
      returns (ok: bool)
      requires Valid()
      modifies this`intervalCount, this`rfidEnabled, intervals
      ensures Valid()
      ensures ok == Add(old(Intervals()), id, startMin, endMin, daysMask).Some?
      ensures Intervals() == if ok then Add(old(Intervals()), id, startMin, endMin, daysMask).value
                             else old(Intervals())
      ensures rfidEnabled == if ok then ReadingAllowed(Intervals(), nowMs) else old(rfidEnabled)
    {
      if intervalCount >= MAX_INTERVALS {
        return false;
      }
      var found := FindIndexById(id);
      if found >= 0 {
        return false;
      }
      intervals[intervalCount] := IntervalRecord(StoredId(id), startMin, endMin, daysMask, true);
      intervalCount := intervalCount + 1;
      assert Intervals() == old(Intervals()) + [IntervalRecord(StoredId(id), startMin, endMin, daysMask, true)];
      EvaluateNow(nowMs);
      return true;
    }

    /** The shape every setter shares: find the record, edit it, re-evaluate. */
    method EditInterval(id: string, e: Edit, nowMs: u32) returns (ok: bool)
      requires Valid()
      modifies this`rfidEnabled, intervals
      ensures Valid()
      ensures ok == Modify(old(Intervals()), id, e).Some?
      ensures Intervals() == if ok then Modify(old(Intervals()), id, e).value else old(Intervals())
      ensures rfidEnabled == if ok then ReadingAllowed(Intervals(), nowMs) else old(rfidEnabled)
    {
      var idx := FindIndexById(id);
      if idx < 0 {
        return false;
      }
      intervals[idx] := ApplyEdit(intervals[idx], e);
      assert Intervals() == old(Intervals())[idx := ApplyEdit(old(Intervals())[idx], e)];
      EvaluateNow(nowMs);
      return true;
    }

    /** `updateIntervalTime`: new start, end and days for the named record. */
    method UpdateIntervalTime(id: string, startMin: u16, endMin: u16, daysMask: bv8, nowMs: u32)
      returns (ok: bool)
      requires Valid()
      modifies this`rfidEnabled, intervals
      ensures Valid()
      ensures ok == Modify(old(Intervals()), id, SetTimes(startMin, endMin, daysMask)).Some?
      ensures Intervals() == if ok then Modify(old(Intervals()), id, SetTimes(startMin, endMin, daysMask)).value
                             else old(Intervals())
      ensures rfidEnabled == if ok then ReadingAllowed(Intervals(), nowMs) else old(rfidEnabled)
    {
      ok := EditInterval(id, SetTimes(startMin, endMin, daysMask), nowMs);
    }

    /** `setIntervalStatus`: enable or disable the named record. */
    method SetIntervalStatus(id: string, enabled: bool, nowMs: u32) returns (ok: bool)
      requires Valid()
      modifies this`rfidEnabled, intervals
      ensures Valid()
      ensures ok == Modify(old(Intervals()), id, SetStatus(enabled)).Some?
      ensures Intervals() == if ok then Modify(old(Intervals()), id, SetStatus(enabled)).value
                             else old(Intervals())
      ensures rfidEnabled == if ok then ReadingAllowed(Intervals(), nowMs) else old(rfidEnabled)
    {
      ok := EditInterval(id, SetStatus(enabled), nowMs);
    }

    /** `setIntervalEnabled`: forwards to `setIntervalStatus`. */
    method SetIntervalEnabled(id: string, enabled: bool, nowMs: u32) returns (ok: bool)
      requires Valid()
      modifies this`rfidEnabled, intervals
      ensures Valid()
      ensures ok == Modify(old(Intervals()), id, SetStatus(enabled)).Some?
      ensures Intervals() == if ok then Modify(old(Intervals()), id, SetStatus(enabled)).value
                             else old(Intervals())
      ensures rfidEnabled == if ok then ReadingAllowed(Intervals(), nowMs) else old(rfidEnabled)
    {
      ok := SetIntervalStatus(id, enabled, nowMs);
    }

    /** `setIntervalStart`. */
    method SetIntervalStart(id: string, startMin: u16, nowMs: u32) returns (ok: bool)
      requires Valid()
      modifies this`rfidEnabled, intervals
      ensures Valid()
      ensures ok == Modify(old(Intervals()), id, SetStart(startMin)).Some?
      ensures Intervals() == if ok then Modify(old(Intervals()), id, SetStart(startMin)).value
                             else old(Intervals())
      ensures rfidEnabled == if ok then ReadingAllowed(Intervals(), nowMs) else old(rfidEnabled)
    {
      ok := EditInterval(id, SetStart(startMin), nowMs);
    }

    /** `setIntervalEnd`. */
    method SetIntervalEnd(id: string, endMin: u16, nowMs: u32) returns (ok: bool)
      requires Valid()
      modifies this`rfidEnabled, intervals
      ensures Valid()
      ensures ok == Modify(old(Intervals()), id, SetEnd(endMin)).Some?
      ensures Intervals() == if ok then Modify(old(Intervals()), id, SetEnd(endMin)).value
                             else old(Intervals())
      ensures rfidEnabled == if ok then ReadingAllowed(Intervals(), nowMs) else old(rfidEnabled)
    {
      ok := EditInterval(id, SetEnd(endMin), nowMs);
    }

    /** `setIntervalDays`. */
    method SetIntervalDays(id: string, daysMask: bv8, nowMs: u32) returns (ok: bool)
      requires Valid()
      modifies this`rfidEnabled, intervals
      ensures Valid()
      ensures ok == Modify(old(Intervals()), id, SetDays(daysMask)).Some?
      ensures Intervals() == if ok then Modify(old(Intervals()), id, SetDays(daysMask)).value
                             else old(Intervals())
      ensures rfidEnabled == if ok then ReadingAllowed(Intervals(), nowMs) else old(rfidEnabled)
    {
      ok := EditInterval(id, SetDays(daysMask), nowMs);
    }

    /**
     * `deleteInterval`: shift the records after the match one place down,
     * drop the count, re-evaluate.
     */
    method DeleteInterval(id: string, nowMs: u32) returns (ok: bool)
      requires Valid()
      modifies this`intervalCount, this`rfidEnabled, intervals
      ensures Valid()
      ensures ok == Delete(old(Intervals()), id).Some?
      ensures Intervals() == if ok then Delete(old(Intervals()), id).value else old(Intervals())
      ensures rfidEnabled == if ok then ReadingAllowed(Intervals(), nowMs) else old(rfidEnabled)
    {
      var idx := FindIndexById(id);
      if idx < 0 {
        return false;
      }
      ghost var before := Intervals();
      CloseGap(idx);
      intervalCount := intervalCount - 1;
      assert Intervals() == Delete(before, id).value;
      DeleteKeepsWellFormed(before, id);
      assert ScheduleValid();
      EvaluateNow(nowMs);
      return true;
    }

    /** The shift loop of `deleteInterval`: records `idx+1 ..` move one place down. */
    method CloseGap(idx: nat)
      requires idx < intervalCount <= intervals.Length
      modifies intervals
      ensures intervals[..intervalCount - 1] ==
        old(intervals[..intervalCount])[..idx] + old(intervals[..intervalCount])[idx + 1..]
    {
      var j := idx;
      while j + 1 < intervalCount
        invariant idx <= j < intervalCount
        invariant forall k :: 0 <= k < idx ==> intervals[k] == old(intervals[k])
        invariant forall k :: idx <= k < j ==> intervals[k] == old(intervals[k + 1])
        invariant forall k :: j <= k < intervalCount ==> intervals[k] == old(intervals[k])
      {
        intervals[j] := intervals[j + 1];
        j := j + 1;
      }
      ghost var before := old(intervals[..intervalCount]);
      ghost var closed := before[..idx] + before[idx + 1..];
      forall k | 0 <= k < intervalCount - 1
        ensures intervals[k] == closed[k]
      {
        if k >= idx {
          assert closed[k] == before[k + 1];
        }
      }
    }

    // -------------------------------------------------------------------------
    // Evaluation and the periodic tick
    // -------------------------------------------------------------------------

    /**
     * `evaluateNow`: reading is enabled iff some enabled record covers today's
     * bit and the current minute; with no records it is off.
     */
    method EvaluateNow(nowMs: u32)
      requires intervalCount <= intervals.Length
      modifies this`rfidEnabled
      ensures rfidEnabled == ReadingAllowed(Intervals(), nowMs)
    {
      if intervalCount == 0 {
        rfidEnabled := false;
        return;
      }
      var nowMin := MinuteOfDay(nowMs);
      var todayBit := TodayBit(nowMs);
      var active := false;
      var i := 0;
      while i < intervalCount
        invariant 0 <= i <= intervalCount
        invariant !active
        invariant forall k :: 0 <= k < i ==> !Admits(intervals[k], nowMin, todayBit)
      {
        var rec := intervals[i];
        if !rec.enabled {
          i := i + 1;
          continue;
        }
        if rec.daysMask & todayBit == 0 {
          i := i + 1;
          continue;
        }
        if rec.startMin <= rec.endMin {
          if nowMin >= rec.startMin && nowMin < rec.endMin {
            active := true;
            break;
          }
        } else {
          if nowMin >= rec.startMin || nowMin < rec.endMin {
            active := true;
            break;
          }
        }
        i := i + 1;
      }
      assert active ==> i < intervalCount && Admits(Intervals()[i], nowMin, todayBit);
      rfidEnabled := active;
    }

    /**
     * `loop`: re-evaluate at most once per check interval, then sweep the
     * presence timeouts.
     */
    method Loop(nowMs: u32)
      requires Valid()
      modifies this`lastCheckMs, this`rfidEnabled, this`Table, this`doorOpen, tagPresent
      ensures Valid()
      ensures if Elapsed(nowMs, old(lastCheckMs)) >= COORDINATOR_CHECK_INTERVAL_MS
              then lastCheckMs == nowMs && rfidEnabled == ReadingAllowed(Intervals(), nowMs)
              else lastCheckMs == old(lastCheckMs) && rfidEnabled == old(rfidEnabled)
      ensures Table == Sweep(old(Table), nowMs)
      ensures doorOpen == (old(doorOpen) && AnyPresent(Table))
    {
      if Elapsed(nowMs, lastCheckMs) >= COORDINATOR_CHECK_INTERVAL_MS {
        lastCheckMs := nowMs;
        EvaluateNow(nowMs);
      }
      CheckTagTimeouts(nowMs);
    }
  }
}
