/**
 * The schedule engine of the admission controller as values: the interval
 * table the coordinator keeps in `intervals[0 .. intervalCount)`, the table
 * operations behind `addInterval`, `deleteInterval`, `updateIntervalTime` and
 * the `setInterval*` setters, and the evaluator behind `evaluateNow`.
 *
 * Identifiers keep the firmware's two widths: a record stores at most 11
 * characters (`char id[12]` filled by `strncpy(.., 11)`), while lookups compare
 * with `strncmp(.., .., 12)`.
 */
module Schedule {
  import opened Common

  const MAX_INTERVALS: nat := 10
  /** `sizeof(IntervalRecord::id)`: eleven characters and the terminator. */
  const ID_BUFFER: nat := 12
  const ID_MAX_LENGTH: nat := ID_BUFFER - 1

  const MINUTES_PER_DAY: nat := 1440
  const MS_PER_MINUTE: nat := 60000
  const MS_PER_DAY: nat := 86400000
  const DAYS_PER_WEEK: nat := 7
  /** Seven weekday bits; bit 7 is never used. */
  const ALL_DAYS: bv8 := 0x7F

  datatype IntervalRecord = IntervalRecord(
    id: string,
    startMin: u16,
    endMin: u16,
    daysMask: bv8,
    enabled: bool)

  type Table = seq<IntervalRecord>

  /** `strncmp(a, b, n) == 0` for two NUL-free C strings. */
  predicate StrnEqual(a: string, b: string, n: nat)
  {
    if |a| >= n && |b| >= n then a[..n] == b[..n] else a == b
  }

  /** The comparison `findIndexById` makes between a stored id and a query. */
  predicate IdMatches(stored: string, query: string)
  {
    StrnEqual(stored, query, ID_BUFFER)
  }

  /** What `strncpy(rec.id, id, 11)` followed by `rec.id[11] = '\0'` keeps. */
  function StoredId(id: string): (r: string)
    ensures |r| <= ID_MAX_LENGTH && |r| <= |id|
    ensures r == id[..|r|]
    ensures |id| <= ID_MAX_LENGTH ==> r == id
  {
    if |id| <= ID_MAX_LENGTH then id else id[..ID_MAX_LENGTH]
  }

  /** Every stored id fits its buffer; the table fits its capacity. */
  ghost predicate WellFormed(tbl: Table)
  {
    |tbl| <= MAX_INTERVALS && forall i :: 0 <= i < |tbl| ==> |tbl[i].id| <= ID_MAX_LENGTH
  }

  ghost predicate UniqueIds(tbl: Table)
  {
    forall i, j :: 0 <= i < j < |tbl| ==> tbl[i].id != tbl[j].id
  }

  /** The index `findIndexById` returns: the first match, or -1. */
  function FindIndex(tbl: Table, id: string): (r: int)
    ensures -1 <= r < |tbl|
    ensures r >= 0 ==> IdMatches(tbl[r].id, id)
    ensures r >= 0 ==> forall j :: 0 <= j < r ==> !IdMatches(tbl[j].id, id)
    ensures r == -1 <==> forall j :: 0 <= j < |tbl| ==> !IdMatches(tbl[j].id, id)
  {
    if |tbl| == 0 then -1
    else if IdMatches(tbl[0].id, id) then 0
    else
      var k := FindIndex(tbl[1..], id);
      if k < 0 then -1 else k + 1
  }

  /** A short id (at most 11 characters) is matched exactly by its own text. */
  lemma ShortIdMatchesExactly(stored: string, query: string)
    requires |stored| <= ID_MAX_LENGTH
    ensures IdMatches(stored, query) <==> stored == query
  {
  }

  /** `addInterval`: refused when full or when the id is already present. */
  function Add(tbl: Table, id: string, startMin: u16, endMin: u16, daysMask: bv8): (r: Option<Table>)
    ensures r.Some? <==> |tbl| < MAX_INTERVALS && FindIndex(tbl, id) == -1
    ensures r.Some? ==>
      && |r.value| == |tbl| + 1 && r.value[..|tbl|] == tbl
      && r.value[|tbl|].id == StoredId(id)
      && r.value[|tbl|].startMin == startMin && r.value[|tbl|].endMin == endMin
      && r.value[|tbl|].daysMask == daysMask && r.value[|tbl|].enabled
  {
    if |tbl| >= MAX_INTERVALS then None
    else if FindIndex(tbl, id) >= 0 then None
    else Some(tbl + [IntervalRecord(StoredId(id), startMin, endMin, daysMask, true)])
  }

  /** `deleteInterval`: the matching record is cut out, the rest close up in order. */
  function Delete(tbl: Table, id: string): (r: Option<Table>)
    ensures r.Some? <==> FindIndex(tbl, id) != -1
    ensures r.Some? ==> |r.value| == |tbl| - 1
  {
    var i := FindIndex(tbl, id);
    if i < 0 then None else Some(tbl[..i] + tbl[i + 1..])
  }

  /** The field updates offered by the coordinator's setters. */
  datatype Edit =
    | SetTimes(startMin: u16, endMin: u16, daysMask: bv8)   // updateIntervalTime
    | SetStatus(enabled: bool)                               // setIntervalStatus / setIntervalEnabled
    | SetStart(startMin: u16)                                // setIntervalStart
    | SetEnd(endMin: u16)                                    // setIntervalEnd
    | SetDays(daysMask: bv8)                                 // setIntervalDays

  function ApplyEdit(rec: IntervalRecord, e: Edit): IntervalRecord
  {
    match e
    case SetTimes(s, t, m) => rec.(startMin := s, endMin := t, daysMask := m)
    case SetStatus(b) => rec.(enabled := b)
    case SetStart(s) => rec.(startMin := s)
    case SetEnd(t) => rec.(endMin := t)
    case SetDays(m) => rec.(daysMask := m)
  }

  /** A setter: the matching record is edited in place, or nothing happens. */
  function Modify(tbl: Table, id: string, e: Edit): (r: Option<Table>)
    ensures r.Some? <==> FindIndex(tbl, id) != -1
    ensures r.Some? ==> |r.value| == |tbl|
  {
    var i := FindIndex(tbl, id);
    if i < 0 then None else Some(tbl[i := ApplyEdit(tbl[i], e)])
  }

  // ---------------------------------------------------------------------------
  // Evaluation
  // ---------------------------------------------------------------------------

  /**
   * Whether minute `nowMin` lies in the record's window: half-open
   * `[start, end)` for a daytime window, and the wrap-around union
   * `[start, 1440) + [0, end)` when start is after end.
   */
  predicate InWindow(rec: IntervalRecord, nowMin: int)
  {
    if rec.startMin <= rec.endMin then rec.startMin <= nowMin < rec.endMin
    else nowMin >= rec.startMin || nowMin < rec.endMin
  }

  /** One record admits reading: enabled, scheduled today, and inside its window. */
  predicate Admits(rec: IntervalRecord, nowMin: int, todayBit: bv8)
    ensures Admits(rec, nowMin, todayBit) ==> rec.enabled && rec.startMin != rec.endMin
  {
    rec.enabled && rec.daysMask & todayBit != 0 && InWindow(rec, nowMin)
  }

  /** The value `evaluateNow` stores in `rfidEnabled`. */
  predicate Active(tbl: Table, nowMin: int, todayBit: bv8)
  {
    exists i :: 0 <= i < |tbl| && Admits(tbl[i], nowMin, todayBit)
  }

  /** `getCurrentMinutes`: minute of the day, counted from boot. */
  function MinuteOfDay(ms: u32): (m: nat)
    ensures m < MINUTES_PER_DAY
  {
    (ms / MS_PER_MINUTE) % MINUTES_PER_DAY
  }

  /** The weekday index (0 = the boot day) that `getTodayMaskBit` shifts by. */
  function Weekday(ms: u32): (d: nat)
    ensures d < DAYS_PER_WEEK
  {
    (ms / MS_PER_DAY) % DAYS_PER_WEEK
  }

  /** `getTodayMaskBit`: exactly one of the seven weekday bits. */
  function TodayBit(ms: u32): (b: bv8)
    ensures b != 0 && b & (b - 1) == 0
    ensures b & ALL_DAYS == b
  {
    (1 as bv8) << Weekday(ms)
  }

  /** What `evaluateNow` computes at uptime `ms`. */
  predicate ReadingAllowed(tbl: Table, ms: u32)
    ensures ReadingAllowed(tbl, ms) ==>
      exists i :: 0 <= i < |tbl| && tbl[i].enabled && tbl[i].startMin != tbl[i].endMin
  {
    Active(tbl, MinuteOfDay(ms), TodayBit(ms))
  }

  // ---------------------------------------------------------------------------
  // Properties of the table operations
  // ---------------------------------------------------------------------------

  /** With no records there is no admission, at any time of any day. */
  lemma EmptyScheduleNeverAdmits(ms: u32)
    ensures !ReadingAllowed([], ms)
  {
  }

  /**
   * A successful add of a short id keeps the table well formed and ids unique,
   * and the new record is the one a later lookup of that id finds.
   */
  lemma {:induction false} AddKeepsIdsUnique(tbl: Table, id: string, s: u16, e: u16, m: bv8)
    requires WellFormed(tbl) && UniqueIds(tbl)
    requires |id| <= ID_MAX_LENGTH
    requires Add(tbl, id, s, e, m).Some?
    ensures WellFormed(Add(tbl, id, s, e, m).value)
    ensures UniqueIds(Add(tbl, id, s, e, m).value)
    ensures FindIndex(Add(tbl, id, s, e, m).value, id) == |tbl|
  {
    var t := Add(tbl, id, s, e, m).value;
    assert t[|tbl|].id == id;
    forall j | 0 <= j < |tbl|
      ensures t[j].id != id
    {
      ShortIdMatchesExactly(tbl[j].id, id);
    }
    forall j | 0 <= j < |tbl|
      ensures !IdMatches(t[j].id, id)
    {
      ShortIdMatchesExactly(t[j].id, id);
    }
    ShortIdMatchesExactly(t[|tbl|].id, id);
  }

  /**
   * Ids longer than 11 characters defeat the duplicate check: the stored copy
   * is cut to 11 characters, but `strncmp` compares 12, so the same long id is
   * accepted twice and two records end up with the same stored id.
   */
  lemma LongIdIsAcceptedTwice()
    ensures Add([], "abcdefghijkl", 420, 540, ALL_DAYS).Some?
    ensures var t := Add([], "abcdefghijkl", 420, 540, ALL_DAYS).value;
            Add(t, "abcdefghijkl", 420, 540, ALL_DAYS).Some? &&
            !UniqueIds(Add(t, "abcdefghijkl", 420, 540, ALL_DAYS).value)
  {
    var t := Add([], "abcdefghijkl", 420, 540, ALL_DAYS).value;
    assert t[0].id == "abcdefghijk";
    assert !IdMatches(t[0].id, "abcdefghijkl");
    var u := Add(t, "abcdefghijkl", 420, 540, ALL_DAYS).value;
    assert u[0].id == u[1].id;
  }

  /** Deleting a record just added under a short id restores the table. */
  lemma {:induction false} AddThenDelete(tbl: Table, id: string, s: u16, e: u16, m: bv8)
    requires |id| <= ID_MAX_LENGTH
    requires Add(tbl, id, s, e, m).Some?
    ensures Delete(Add(tbl, id, s, e, m).value, id) == Some(tbl)
  {
    var t := Add(tbl, id, s, e, m).value;
    assert t[..|tbl|] == tbl;
    ShortIdMatchesExactly(t[|tbl|].id, id);
    forall j | 0 <= j < |tbl|
      ensures !IdMatches(t[j].id, id)
    {
      assert t[j] == tbl[j];
    }
    assert FindIndex(t, id) == |tbl|;
    assert t[..|tbl|] + t[|tbl| + 1..] == tbl;
  }

  /** Where each surviving record of a successful delete came from. */
  lemma DeleteShifts(tbl: Table, id: string)
    requires Delete(tbl, id).Some?
    ensures var t := Delete(tbl, id).value; var i := FindIndex(tbl, id);
      && 0 <= i < |tbl| && |t| == |tbl| - 1
      && (forall k :: 0 <= k < i ==> t[k] == tbl[k])
      && (forall k :: i <= k < |t| ==> t[k] == tbl[k + 1])
  {
  }

  /** A delete keeps every stored id within its buffer. */
  lemma DeleteKeepsWellFormed(tbl: Table, id: string)
    requires WellFormed(tbl)
    requires Delete(tbl, id).Some?
    ensures WellFormed(Delete(tbl, id).value)
  {
    DeleteShifts(tbl, id);
  }

  /**
   * A successful delete in a table with unique ids removes the one record with
   * that id and keeps every other record.
   */
  lemma {:induction false} DeleteRemovesOnlyThatId(tbl: Table, id: string)
    requires WellFormed(tbl) && UniqueIds(tbl)
    requires Delete(tbl, id).Some?
    ensures var t := Delete(tbl, id).value;
      && |t| == |tbl| - 1
      && WellFormed(t) && UniqueIds(t)
      && FindIndex(t, id) == -1
      && (forall r :: r in tbl && !IdMatches(r.id, id) ==> r in t)
      && (forall r :: r in t ==> r in tbl)
  {
    var i := FindIndex(tbl, id);
    var t := Delete(tbl, id).value;
    DeleteShifts(tbl, id);
    forall k | 0 <= k < |t|
      ensures !IdMatches(t[k].id, id)
    {
      var src := if k < i then k else k + 1;
      assert t[k] == tbl[src];
      ShortIdMatchesExactly(tbl[src].id, id);
      ShortIdMatchesExactly(tbl[i].id, id);
    }
    forall k1, k2 | 0 <= k1 < k2 < |t|
      ensures t[k1].id != t[k2].id
    {
      var s1 := if k1 < i then k1 else k1 + 1;
      var s2 := if k2 < i then k2 else k2 + 1;
      assert t[k1] == tbl[s1] && t[k2] == tbl[s2] && s1 < s2;
    }
    forall r | r in tbl && !IdMatches(r.id, id)
      ensures r in t
    {
      var k :| 0 <= k < |tbl| && tbl[k] == r;
      assert k != i;
      var dst := if k < i then k else k - 1;
      assert t[dst] == r;
    }
    forall r | r in t
      ensures r in tbl
    {
      var k :| 0 <= k < |t| && t[k] == r;
      var src := if k < i then k else k + 1;
      assert tbl[src] == r;
    }
  }

  /**
   * A successful setter changes the one record the id names, never an id and
   * never another record.
   */
  lemma {:induction false} ModifyTouchesOneRecord(tbl: Table, id: string, e: Edit)
    requires Modify(tbl, id, e).Some?
    ensures var t := Modify(tbl, id, e).value;
      var i := FindIndex(tbl, id);
      && |t| == |tbl|
      && (forall k :: 0 <= k < |t| ==> t[k].id == tbl[k].id)
      && (forall k :: 0 <= k < |t| && k != i ==> t[k] == tbl[k])
      && 0 <= i < |tbl| && t[i] == ApplyEdit(tbl[i], e)
      && (WellFormed(tbl) ==> WellFormed(t))
      && (UniqueIds(tbl) ==> UniqueIds(t))
  {
  }

  /** A setter on an unknown id, and a delete of one, leave nothing to apply. */
  lemma UnknownIdIsRejected(tbl: Table, id: string, e: Edit)
    requires forall k :: 0 <= k < |tbl| ==> !IdMatches(tbl[k].id, id)
    ensures Modify(tbl, id, e).None? && Delete(tbl, id).None?
  {
  }

  // ---------------------------------------------------------------------------
  // Properties of the evaluator
  // ---------------------------------------------------------------------------

  /** A single daytime record admits exactly on its day bit and in `[start, end)`. */
  lemma DaytimeWindow(rec: IntervalRecord, nowMin: int, todayBit: bv8)
    requires rec.startMin <= rec.endMin
    ensures Active([rec], nowMin, todayBit) <==>
      rec.enabled && rec.daysMask & todayBit != 0 && rec.startMin <= nowMin < rec.endMin
  {
    if Active([rec], nowMin, todayBit) {
      var i :| 0 <= i < 1 && Admits([rec][i], nowMin, todayBit);
    } else {
      assert !Admits([rec][0], nowMin, todayBit);
    }
  }

  /** A single overnight record admits from `start` to midnight and from midnight to `end`. */
  lemma OvernightWindow(rec: IntervalRecord, nowMin: int, todayBit: bv8)
    requires rec.startMin > rec.endMin
    ensures Active([rec], nowMin, todayBit) <==>
      rec.enabled && rec.daysMask & todayBit != 0 && (nowMin >= rec.startMin || nowMin < rec.endMin)
  {
    if Active([rec], nowMin, todayBit) {
      var i :| 0 <= i < 1 && Admits([rec][i], nowMin, todayBit);
    } else {
      assert !Admits([rec][0], nowMin, todayBit);
    }
  }

  /** Adding a record can open a window but never closes one. */
  lemma AddNeverNarrows(tbl: Table, id: string, s: u16, e: u16, m: bv8, nowMin: int, todayBit: bv8)
    requires Add(tbl, id, s, e, m).Some?
    requires Active(tbl, nowMin, todayBit)
    ensures Active(Add(tbl, id, s, e, m).value, nowMin, todayBit)
  {
    var i :| 0 <= i < |tbl| && Admits(tbl[i], nowMin, todayBit);
    assert Add(tbl, id, s, e, m).value[i] == tbl[i];
  }

  /** Deleting a record can close a window but never opens one. */
  lemma DeleteNeverWidens(tbl: Table, id: string, nowMin: int, todayBit: bv8)
    requires Delete(tbl, id).Some?
    requires Active(Delete(tbl, id).value, nowMin, todayBit)
    ensures Active(tbl, nowMin, todayBit)
  {
    var t := Delete(tbl, id).value;
    var i := FindIndex(tbl, id);
    var k :| 0 <= k < |t| && Admits(t[k], nowMin, todayBit);
    if k < i {
      assert t[k] == tbl[k];
    } else {
      assert t[k] == tbl[k + 1];
    }
  }

  /** Disabling a record can close a window but never opens one. */
  lemma DisableNeverWidens(tbl: Table, id: string, nowMin: int, todayBit: bv8)
    requires Modify(tbl, id, SetStatus(false)).Some?
    requires Active(Modify(tbl, id, SetStatus(false)).value, nowMin, todayBit)
    ensures Active(tbl, nowMin, todayBit)
  {
    var t := Modify(tbl, id, SetStatus(false)).value;
    var k :| 0 <= k < |t| && Admits(t[k], nowMin, todayBit);
    assert t[k] == tbl[k];
  }

  /** A disabled record is ignored: disabling the only record closes every window. */
  lemma DisabledRecordIsIgnored(rec: IntervalRecord, nowMin: int, todayBit: bv8)
    requires |rec.id| <= ID_MAX_LENGTH
    ensures Modify([rec], rec.id, SetStatus(false)).Some?
    ensures !Active(Modify([rec], rec.id, SetStatus(false)).value, nowMin, todayBit)
  {
    ShortIdMatchesExactly(rec.id, rec.id);
    var t := Modify([rec], rec.id, SetStatus(false)).value;
    assert t[0].enabled == false;
  }
}
