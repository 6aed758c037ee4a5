/**
 * The tag registry of the admission controller as values: the allowlist the
 * coordinator keeps in the parallel arrays `tags`, `tagPresent` and `lastSeen`
 * (one `TagRecord` per index below `numTags`), with the operations behind
 * `addTag`, `findTagIndex`, `onTagDetected` and `checkTagTimeouts`.
 */
module Registry {
  import opened Common

  const MAX_TAGS: nat := 8
  /** Grace period a tag stays present without a fresh read. */
  const DOOR_DELAY_MS: nat := 3000

  /** The allowlist `begin` seeds the registry with. */
  const DEFAULT_TAGS: seq<Epc> := [
    [0xE2, 0x00, 0x47, 0x09, 0x3E, 0xB0, 0x64, 0x26, 0xB8, 0x4A, 0x01, 0x13],
    [0xE2, 0x00, 0x47, 0x10, 0x80, 0x30, 0x60, 0x26, 0x99, 0x06, 0x01, 0x0B]
  ]

  datatype TagRecord = TagRecord(id: Epc, present: bool, lastSeen: u32)

  type TagTable = seq<TagRecord>

  function Ids(tbl: TagTable): (ids: seq<Epc>)
    ensures |ids| == |tbl|
    ensures forall i :: 0 <= i < |tbl| ==> ids[i] == tbl[i].id
  {
    seq(|tbl|, i requires 0 <= i < |tbl| => tbl[i].id)
  }

  /** The index `findTagIndex` returns: the first byte-equal id, or -1. */
  function IndexOf(tbl: TagTable, epc: seq<bv8>): (r: int)
    ensures -1 <= r < |tbl|
    ensures r >= 0 ==> tbl[r].id == epc && forall j :: 0 <= j < r ==> tbl[j].id != epc
    ensures r == -1 <==> forall j :: 0 <= j < |tbl| ==> tbl[j].id != epc
  {
    if |tbl| == 0 then -1
    else if tbl[0].id == epc then 0
    else
      var k := IndexOf(tbl[1..], epc);
      if k < 0 then -1 else k + 1
  }

  /** `isValidTag`: the EPC is byte-equal to some registered id. */
  predicate Known(tbl: TagTable, epc: seq<bv8>)
  {
    IndexOf(tbl, epc) >= 0
  }

  /** `addTag`: refused for a wrong length or a full table; a new tag starts absent. */
  function Register(tbl: TagTable, epc: seq<bv8>): (r: Option<TagTable>)
    ensures r.Some? <==> |epc| == EPC_LENGTH && |tbl| < MAX_TAGS
    ensures r.Some? ==>
      && |r.value| == |tbl| + 1 && r.value[..|tbl|] == tbl
      && r.value[|tbl|].id == epc && !r.value[|tbl|].present
  {
    if |epc| != EPC_LENGTH then None
    else if |tbl| >= MAX_TAGS then None
    else Some(tbl + [TagRecord(epc, false, 0)])
  }

  /** The table after `onTagDetected(epc)` at time `now`. */
  function MarkSeen(tbl: TagTable, epc: seq<bv8>, now: u32): (r: TagTable)
    ensures |r| == |tbl|
    ensures forall k :: 0 <= k < |r| ==> r[k].id == tbl[k].id
    ensures !Known(tbl, epc) ==> r == tbl
    ensures Known(tbl, epc) ==>
      var i := IndexOf(tbl, epc);
      && r[i].present && r[i].lastSeen == now
      && forall k :: 0 <= k < |r| && k != i ==> r[k] == tbl[k]
  {
    var i := IndexOf(tbl, epc);
    if i < 0 then tbl else tbl[i := TagRecord(tbl[i].id, true, now)]
  }

  /** Every EPC of `epcs` reported in turn, all at time `now`. */
  function MarkAll(tbl: TagTable, epcs: seq<Epc>, now: u32): TagTable
    decreases |epcs|
  {
    if |epcs| == 0 then tbl else MarkAll(MarkSeen(tbl, epcs[0], now), epcs[1..], now)
  }

  /** More than the grace period has passed since the tag was last seen (strictly). */
  predicate Expired(now: u32, lastSeen: u32)
  {
    Elapsed(now, lastSeen) > DOOR_DELAY_MS
  }

  /** One record after the timeout check at time `now`. */
  function Swept(r: TagRecord, now: u32): TagRecord
  {
    r.(present := r.present && !Expired(now, r.lastSeen))
  }

  /** The presence flags after `checkTagTimeouts` at time `now`. */
  function Sweep(tbl: TagTable, now: u32): (r: TagTable)
    ensures |r| == |tbl|
    ensures forall i :: 0 <= i < |r| ==> r[i].id == tbl[i].id && r[i].lastSeen == tbl[i].lastSeen
    ensures forall i :: 0 <= i < |r| ==>
      (r[i].present <==> tbl[i].present && Elapsed(now, tbl[i].lastSeen) <= DOOR_DELAY_MS)
  {
    seq(|tbl|, i requires 0 <= i < |tbl| => Swept(tbl[i], now))
  }

  predicate AnyPresent(tbl: TagTable)
  {
    exists i :: 0 <= i < |tbl| && tbl[i].present
  }

  // ---------------------------------------------------------------------------
  // Properties
  // ---------------------------------------------------------------------------

  /** Lookups depend on the ids alone. */
  lemma {:induction false} SameIdsSameIndex(t1: TagTable, t2: TagTable, epc: seq<bv8>)
    requires Ids(t1) == Ids(t2)
    ensures IndexOf(t1, epc) == IndexOf(t2, epc)
  {
    assert |t1| == |t2|;
    if |t1| > 0 {
      assert t1[0].id == Ids(t1)[0] == Ids(t2)[0] == t2[0].id;
      assert Ids(t1[1..]) == Ids(t1)[1..];
      assert Ids(t2[1..]) == Ids(t2)[1..];
      SameIdsSameIndex(t1[1..], t2[1..], epc);
    }
  }

  /** A successful registration appends the tag and makes it known. */
  lemma RegisterMakesKnown(tbl: TagTable, epc: seq<bv8>)
    requires Register(tbl, epc).Some?
    ensures Ids(Register(tbl, epc).value) == Ids(tbl) + [epc]
    ensures Known(Register(tbl, epc).value, epc)
  {
    var t := Register(tbl, epc).value;
    assert t[|tbl|].id == epc;
  }

  /**
   * Reporting a known tag marks that one record present at `now` and touches no
   * other record; an unknown or wrong-length EPC changes nothing.
   */
  lemma MarkSeenEffect(tbl: TagTable, epc: seq<bv8>, now: u32)
    ensures var t := MarkSeen(tbl, epc, now);
      && Ids(t) == Ids(tbl)
      && (!Known(tbl, epc) ==> t == tbl)
      && (Known(tbl, epc) ==>
            var i := IndexOf(tbl, epc);
            t[i].present && t[i].lastSeen == now &&
            forall j :: 0 <= j < |tbl| && j != i ==> t[j] == tbl[j])
  {
  }

  /** Reports never change the ids, so lookups before and after agree. */
  lemma {:induction false} MarkAllKeepsIds(tbl: TagTable, epcs: seq<Epc>, now: u32)
    ensures Ids(MarkAll(tbl, epcs, now)) == Ids(tbl)
    decreases |epcs|
  {
    if |epcs| > 0 {
      MarkSeenEffect(tbl, epcs[0], now);
      MarkAllKeepsIds(MarkSeen(tbl, epcs[0], now), epcs[1..], now);
    }
  }

  /**
   * After a batch of reports at `now`, a record is present and stamped `now`
   * exactly when it was reported (as the first record with its id); every
   * other record is as before.
   */
  lemma {:induction false} MarkAllEffect(tbl: TagTable, epcs: seq<Epc>, now: u32, j: int)
    requires 0 <= j < |tbl|
    ensures |MarkAll(tbl, epcs, now)| == |tbl|
    ensures var t := MarkAll(tbl, epcs, now);
      if exists k :: 0 <= k < |epcs| && IndexOf(tbl, epcs[k]) == j
      then t[j] == TagRecord(tbl[j].id, true, now)
      else t[j] == tbl[j]
    decreases |epcs|
  {
    MarkAllKeepsIds(tbl, epcs, now);
    if |epcs| > 0 {
      var t1 := MarkSeen(tbl, epcs[0], now);
      MarkSeenEffect(tbl, epcs[0], now);
      SameIdsSameIndex(t1, tbl, epcs[0]);
      MarkAllEffect(t1, epcs[1..], now, j);
      forall k | 0 <= k < |epcs[1..]|
        ensures IndexOf(t1, epcs[1..][k]) == IndexOf(tbl, epcs[k + 1])
      {
        SameIdsSameIndex(t1, tbl, epcs[k + 1]);
      }
      if IndexOf(tbl, epcs[0]) == j {
        assert exists k :: 0 <= k < |epcs| && IndexOf(tbl, epcs[k]) == j;
      } else if exists k :: 0 <= k < |epcs| && IndexOf(tbl, epcs[k]) == j {
        var k :| 0 <= k < |epcs| && IndexOf(tbl, epcs[k]) == j;
        assert k != 0;
        assert IndexOf(t1, epcs[1..][k - 1]) == j;
      }
    }
  }

  /** Reporting one more tag after a batch. */
  lemma {:induction false} MarkAllSnoc(tbl: TagTable, epcs: seq<Epc>, e: Epc, now: u32)
    ensures MarkAll(tbl, epcs + [e], now) == MarkSeen(MarkAll(tbl, epcs, now), e, now)
    decreases |epcs|
  {
    if |epcs| == 0 {
      assert epcs + [e] == [e];
    } else {
      assert (epcs + [e])[1..] == epcs[1..] + [e];
      MarkAllSnoc(MarkSeen(tbl, epcs[0], now), epcs[1..], e, now);
    }
  }

  /** Reports never change which identifiers are known. */
  lemma MarkAllKeepsKnown(tbl: TagTable, epcs: seq<Epc>, now: u32, epc: seq<bv8>)
    ensures Known(MarkAll(tbl, epcs, now), epc) == Known(tbl, epc)
  {
    MarkAllKeepsIds(tbl, epcs, now);
    SameIdsSameIndex(MarkAll(tbl, epcs, now), tbl, epc);
  }

  /**
   * The grace period is strict: exactly 3000 ms after the last read keeps the
   * tag, one millisecond more expires it, also when the clock wraps in between.
   */
  lemma GraceIsStrict(seen: u32)
    ensures !Expired((seen + DOOR_DELAY_MS) % TWO_POW_32, seen)
    ensures Expired((seen + DOOR_DELAY_MS + 1) % TWO_POW_32, seen)
  {
  }

  /** A sweep only ever clears flags; running it twice at one time changes nothing more. */
  lemma SweepOnlyClears(tbl: TagTable, now: u32)
    ensures Ids(Sweep(tbl, now)) == Ids(tbl)
    ensures forall i :: 0 <= i < |tbl| ==> (Sweep(tbl, now)[i].present ==> tbl[i].present)
    ensures Sweep(Sweep(tbl, now), now) == Sweep(tbl, now)
  {
  }

  /**
   * A tag reported at `seen` keeps the registry occupied at any `now` within
   * the grace period, whatever happened to the other tags.
   */
  lemma ReportKeepsPresence(tbl: TagTable, epc: seq<bv8>, seen: u32, now: u32)
    requires Known(tbl, epc)
    requires Elapsed(now, seen) <= DOOR_DELAY_MS
    ensures AnyPresent(Sweep(MarkSeen(tbl, epc, seen), now))
  {
    var i := IndexOf(tbl, epc);
    MarkSeenEffect(tbl, epc, seen);
    assert Sweep(MarkSeen(tbl, epc, seen), now)[i].present;
  }

  /** Once every present tag is older than the grace period, nothing stays present. */
  lemma AllExpiredEmpties(tbl: TagTable, now: u32)
    requires forall i :: 0 <= i < |tbl| && tbl[i].present ==> Expired(now, tbl[i].lastSeen)
    ensures !AnyPresent(Sweep(tbl, now))
  {
  }
}
