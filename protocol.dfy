/**
 * The text command protocol of the Bluetooth link (`BluetoothManager`), as
 * values: trimming, the 12-hour time tokens, the days lists, the tokenizer
 * and the verb dispatch, each with the text it inverts.
 *
 * A line is `s <id> <start> <end> [days]`, `upd <id> <field> <value>` or
 * `d <id>`; verbs and field names are matched without regard to case.
 * Strings are the characters of a C string (no NUL inside). The firmware
 * walks them with a pointer; here a pointer is an index into the string.
 */
module Protocol {
  import opened Common
  import opened Schedule

  /** The tokenizer cuts at most this many words; the rest of the line is one more token. */
  const MAX_SPLIT_TOKENS: nat := 4

  // ---------------------------------------------------------------------------
  // Pointer walks
  // ---------------------------------------------------------------------------

  predicate NoSpaces(s: string)
  {
    forall i :: 0 <= i < |s| ==> !IsSpace(s[i])
  }

  /** `while (*p && isspace(*p)) ++p;` from index `i`. */
  function SkipSpaces(s: string, i: nat): (j: nat)
    requires i <= |s|
    ensures i <= j <= |s|
    ensures forall k :: i <= k < j ==> IsSpace(s[k])
    ensures j < |s| ==> !IsSpace(s[j])
    decreases |s| - i
  {
    if i < |s| && IsSpace(s[i]) then SkipSpaces(s, i + 1) else i
  }

  /** `while (*p && !isspace(*p)) ++p;` from index `i`: the end of a word. */
  function SkipWord(s: string, i: nat): (j: nat)
    requires i <= |s|
    ensures i <= j <= |s|
    ensures forall k :: i <= k < j ==> !IsSpace(s[k])
    ensures j < |s| ==> IsSpace(s[j])
    decreases |s| - i
  {
    if i < |s| && !IsSpace(s[i]) then SkipWord(s, i + 1) else i
  }

  /** `while (*p && isdigit(*p)) ++p;` from index `i`: the end of a digit run. */
  function SkipDigits(s: string, i: nat): (j: nat)
    requires i <= |s|
    ensures i <= j <= |s|
    ensures forall k :: i <= k < j ==> IsDigit(s[k])
    ensures j < |s| ==> !IsDigit(s[j])
    decreases |s| - i
  {
    if i < |s| && IsDigit(s[i]) then SkipDigits(s, i + 1) else i
  }

  /** The opening skip of the days parser: blanks and `[`. */
  function SkipOpening(s: string, i: nat): (j: nat)
    requires i <= |s|
    ensures i <= j <= |s|
    ensures j < |s| ==> s[j] != ' ' && s[j] != '['
    decreases |s| - i
  {
    if i < |s| && (s[i] == ' ' || s[i] == '[') then SkipOpening(s, i + 1) else i
  }

  /** Between two numbers of a days list: everything up to the next digit or `]`. */
  function SkipSeparator(s: string, i: nat): (j: nat)
    requires i <= |s|
    ensures i <= j <= |s|
    ensures forall k :: i <= k < j ==> !IsDigit(s[k]) && s[k] != ']'
    ensures j < |s| ==> IsDigit(s[j]) || s[j] == ']'
    decreases |s| - i
  {
    if i < |s| && !IsDigit(s[i]) && s[i] != ']' then SkipSeparator(s, i + 1) else i
  }

  /** The trailing-blank loop: back from `j` over white space, never below `lo`. */
  function BackOverSpaces(s: string, lo: nat, j: nat): (r: nat)
    requires lo <= j <= |s|
    ensures lo <= r <= j
    ensures forall k :: r <= k < j ==> IsSpace(s[k])
    ensures r > lo ==> !IsSpace(s[r - 1])
    decreases j
  {
    if j > lo && IsSpace(s[j - 1]) then BackOverSpaces(s, lo, j - 1) else j
  }

  /** What `trimInPlace` leaves in the buffer: no white space at either end. */
  function Trim(s: string): (r: string)
    ensures |r| <= |s|
    ensures |r| > 0 ==> !IsSpace(r[0]) && !IsSpace(r[|r| - 1])
  {
    var start := SkipSpaces(s, 0);
    s[start..BackOverSpaces(s, start, |s|)]
  }

  // ---------------------------------------------------------------------------
  // Numbers
  // ---------------------------------------------------------------------------

  /** The digit loop of `atoi` and of the days parser: `n = n * 10 + digit` while digits last. */
  function Accumulate(s: string, i: nat, acc: int): (r: int)
    requires i <= |s|
    ensures acc >= 0 ==> r >= acc
    decreases |s| - i
  {
    if i < |s| && IsDigit(s[i]) then Accumulate(s, i + 1, acc * 10 + DigitValue(s[i])) else acc
  }

  /** `atoi`: leading white space, an optional sign, then the digit run; 0 when there is none. */
  function Atoi(s: string): (r: int)
    ensures |s| == 0 ==> r == 0
    ensures r < 0 ==> exists k :: 0 <= k < |s| && s[k] == '-'
  {
    var t := SkipSpaces(s, 0);
    if t < |s| && s[t] == '-' then -Accumulate(s, t + 1, 0)
    else if t < |s| && s[t] == '+' then Accumulate(s, t + 1, 0)
    else Accumulate(s, t, 0)
  }

  function DigitChar(d: nat): (c: char)
    requires d < 10
    ensures IsDigit(c) && DigitValue(c) == d
  {
    (('0' as int) + d) as char
  }

  /** The decimal text of `n`, without leading zeros. */
  function NatText(n: nat): (r: string)
    ensures |r| > 0 && IsDigit(r[0])
    ensures forall i :: 0 <= i < |r| ==> IsDigit(r[i])
    ensures n < 10 ==> |r| == 1
    ensures n < 100 ==> |r| <= 2
    ensures n < 1000 ==> |r| <= 3
    ensures n < 10000 ==> |r| <= 4
  {
    if n < 10 then [DigitChar(n)] else NatText(n / 10) + [DigitChar(n % 10)]
  }

  // ---------------------------------------------------------------------------
  // Time tokens
  // ---------------------------------------------------------------------------

  /** At most this many characters before the suffix are read as the number. */
  const TIME_DIGITS: nat := 4

  /**
   * `parse12hToMinutes`: the last character is the `a`/`p` suffix (any case),
   * and up to four characters before it are read with `atoi` as `hhmm`.
   */
  function ParseTime(token: string): (r: u16)
    ensures |token| == 0 ==> r == 0
    ensures |token| > 0 && (forall k :: 0 <= k < |token| ==> token[k] != '-') ==>
      && r < MINUTES_PER_DAY
      && (ToLower(token[|token| - 1]) == 'a' ==> r < MINUTES_PER_DAY / 2)
      && (ToLower(token[|token| - 1]) == 'p' ==> r >= MINUTES_PER_DAY / 2)
  {
    if |token| == 0 then 0
    else
      var digitCount := if |token| - 1 > TIME_DIGITS then TIME_DIGITS else |token| - 1;
      ClockMinutes(Atoi(token[..digitCount]), ToLower(token[|token| - 1]))
  }

  /**
   * The arithmetic of `parse12hToMinutes` once the number and the suffix are
   * read: the hour is capped at 12 and the minute at 59, `p` adds twelve hours
   * except to 12, `a` turns 12 into 0, and the result is cast to `uint16_t`.
   */
  function ClockMinutes(value: int, suffix: char): (r: u16)
    ensures value >= 0 ==> r < MINUTES_PER_DAY
    ensures value >= 0 && suffix == 'a' ==> r < MINUTES_PER_DAY / 2
    ensures value >= 0 && suffix == 'p' ==> r >= MINUTES_PER_DAY / 2
  {
    var minute := if CRem(value, 100) > 59 then 59 else CRem(value, 100);
    var capped := if CDiv(value, 100) > 12 then 12 else CDiv(value, 100);
    var shifted := if suffix == 'p' && capped != 12 then capped + 12 else capped;
    var hour := if suffix == 'a' && shifted == 12 then 0 else shifted;
    ToU16(hour * 60 + minute)
  }

  /** A minute of the day as a time token: `1200a` for midnight, `730a`, `1230p`. */
  function FormatTime(m: nat): (r: string)
    requires m < MINUTES_PER_DAY
    ensures 2 <= |r| <= 5
    ensures NoSpaces(r)
  {
    var h := m / 60;
    var h12 := if h % 12 == 0 then 12 else h % 12;
    NatText(h12 * 100 + m % 60) + [if h < 12 then 'a' else 'p']
  }

  // ---------------------------------------------------------------------------
  // Days lists
  // ---------------------------------------------------------------------------

  /** The weekday bit of day number `n`: 1..6 are bits 1..6 and 7 is bit 0. */
  function DayBit(n: int): (b: bv8)
    requires 1 <= n <= DAYS_PER_WEEK
    ensures b != 0 && b & 0x80 == 0
  {
    if n == 7 then 1 else (1 as bv8) << (n as bv8)
  }

  /**
   * The loop of `parseDaysListToMask` from index `i`, with `mask` set so far:
   * skip white space, read one digit run as a number, set its day when it is
   * 1..7, skip to the next digit or `]`; `]` or the end stops it.
   */
  function DaysFrom(s: string, i: nat, mask: bv8): (r: bv8)
    requires i <= |s|
    ensures mask & 0x80 == 0 ==> r & 0x80 == 0
    decreases |s| - i
  {
    if i == |s| || s[i] == ']' then mask
    else
      var a := SkipSpaces(s, i);
      var b := SkipDigits(s, a);
      var n := Accumulate(s, a, 0);
      var m := if a < b && 1 <= n <= 7 then mask | DayBit(n) else mask;
      DaysFrom(s, SkipSeparator(s, b), m)
  }

  /** `parseDaysListToMask`; bit 7 is never set. */
  function ParseDays(token: string): (r: bv8)
    ensures r & 0x80 == 0
  {
    DaysFrom(token, SkipOpening(token, 0), 0)
  }

  /** The weekday bits of days `k..7`. */
  function DaysFromBits(k: nat): bv8
    decreases 8 - k
  {
    if k > DAYS_PER_WEEK || k == 0 then 0 else DayBit(k) | DaysFromBits(k + 1)
  }

  /** The list items for days `k..7` of `mask`, each written `d,`. */
  function DayItems(mask: bv8, k: nat): (r: string)
    ensures |r| > 0 ==> IsDigit(r[0])
    ensures NoSpaces(r)
    decreases 8 - k
  {
    if k > DAYS_PER_WEEK || k == 0 then []
    else (if mask & DayBit(k) != 0 then [DigitChar(k), ','] else []) + DayItems(mask, k + 1)
  }

  /** A mask as a days list: `[1,2,7,]`. */
  function RenderDays(mask: bv8): (r: string)
    ensures |r| >= 2 && NoSpaces(r)
  {
    Bracketed(DayItems(mask, 1));
    "[" + DayItems(mask, 1) + "]"
  }

  /** Brackets around a text without blanks add none. */
  lemma Bracketed(d: string)
    requires NoSpaces(d)
    ensures NoSpaces("[" + d + "]")
  {
    var r := "[" + d + "]";
    forall k | 0 <= k < |r|
      ensures !IsSpace(r[k])
    {
      if 0 < k <= |d| {
        assert r[k] == d[k - 1];
      }
    }
  }

  // ---------------------------------------------------------------------------
  // Tokens
  // ---------------------------------------------------------------------------

  /**
   * The tokenizer of `loop` from index `i`, with `count` tokens already cut:
   * a word, then the white space after it; once four are cut, the rest of
   * the line without its trailing white space is the last token.
   */
  function SplitFrom(s: string, i: nat, count: nat): (r: seq<string>)
    requires i <= |s| && count <= MAX_SPLIT_TOKENS
    ensures |r| <= MAX_SPLIT_TOKENS + 1 - count
    decreases |s| - i
  {
    if i == |s| then []
    else if count == MAX_SPLIT_TOKENS then [s[i..BackOverSpaces(s, i, |s|)]]
    else
      var e := SkipWord(s, i);
      [s[i..e]] + (if e == |s| then [] else SplitFrom(s, SkipSpaces(s, e), count + 1))
  }

  function Tokenize(line: string): (ws: seq<string>)
    ensures |ws| <= MAX_SPLIT_TOKENS + 1
    ensures ws == [] <==> Trim(line) == ""
  {
    SplitFrom(line, SkipSpaces(line, 0), 0)
  }

  /** Words joined with single blanks. */
  function Join(ws: seq<string>): string
  {
    if |ws| == 0 then ""
    else if |ws| == 1 then ws[0]
    else ws[0] + " " + Join(ws[1..])
  }

  /**
   * Tokens the tokenizer gives back unchanged when joined: nonempty, the ones
   * in the first four places without white space, the fifth without white
   * space at either end.
   */
  predicate Words(ws: seq<string>, count: nat)
  {
    && count + |ws| <= MAX_SPLIT_TOKENS + 1
    && forall k :: 0 <= k < |ws| ==> IsToken(ws[k], count + k == MAX_SPLIT_TOKENS)
  }

  /** One such token; only the rest-of-line token may hold white space inside. */
  predicate IsToken(w: string, restOfLine: bool)
  {
    |w| > 0 && !IsSpace(w[0]) && !IsSpace(w[|w| - 1]) && (!restOfLine ==> NoSpaces(w))
  }

  // ---------------------------------------------------------------------------
  // Commands
  // ---------------------------------------------------------------------------

  /** `strcasecmp(a, b) == 0`. */
  predicate EqualsIgnoreCase(a: string, b: string)
  {
    |a| == |b| && forall i :: 0 <= i < |a| ==> ToLower(a[i]) == ToLower(b[i])
  }

  /** A request for the coordinator. */
  datatype Command =
    | Create(id: string, startMin: u16, endMin: u16, daysMask: bv8)   // addInterval
    | Update(id: string, edit: Edit)                                 // setInterval*
    | Remove(id: string)                                              // deleteInterval

  /** `handleCreateTokens`: all days unless a fifth token gives the list. */
  function CreateCommand(tokens: seq<string>): (c: Option<Command>)
    ensures c.Some? <==> |tokens| >= 4
    ensures c.Some? ==> c.value.Create? && c.value.id == tokens[1]
    ensures |tokens| == 4 || (|tokens| >= 5 && tokens[4] == "") ==>
      c == Some(Create(tokens[1], ParseTime(tokens[2]), ParseTime(tokens[3]), ALL_DAYS))
  {
    if |tokens| < 4 then None
    else
      var days := if |tokens| >= 5 && tokens[4] != "" then ParseDays(tokens[4]) else ALL_DAYS;
      Some(Create(tokens[1], ParseTime(tokens[2]), ParseTime(tokens[3]), days))
  }

  /** The value of an `st` update: `true`, `on` (any case) or `1` enable. */
  predicate EnablesWith(value: string)
  {
    EqualsIgnoreCase(value, "true") || value == "1" || EqualsIgnoreCase(value, "on")
  }

  /** The fields an `upd` line can name. */
  predicate KnownField(f: string)
  {
    EqualsIgnoreCase(f, "st") || EqualsIgnoreCase(f, "t1") || EqualsIgnoreCase(f, "t2") || EqualsIgnoreCase(f, "dt")
  }

  /** `handleUpdateTokens`: fields `st`, `t1`, `t2` and `dt`; any other field is ignored. */
  function UpdateCommand(tokens: seq<string>): (c: Option<Command>)
    ensures c.Some? <==> |tokens| >= 4 && KnownField(tokens[2])
    ensures c.Some? ==> c.value.Update? && c.value.id == tokens[1]
    ensures c.Some? && c.value.edit.SetStatus? ==> (c.value.edit.enabled <==> EnablesWith(tokens[3]))
  {
    if |tokens| < 4 then None
    else
      var field := tokens[2];
      var value := tokens[3];
      if EqualsIgnoreCase(field, "st") then Some(Update(tokens[1], SetStatus(EnablesWith(value))))
      else if EqualsIgnoreCase(field, "t1") then Some(Update(tokens[1], SetStart(ParseTime(value))))
      else if EqualsIgnoreCase(field, "t2") then Some(Update(tokens[1], SetEnd(ParseTime(value))))
      else if EqualsIgnoreCase(field, "dt") then Some(Update(tokens[1], SetDays(ParseDays(value))))
      else None
  }

  /** `handleDeleteTokens`. */
  function DeleteCommand(tokens: seq<string>): (c: Option<Command>)
    ensures c.Some? <==> |tokens| >= 2
    ensures c.Some? ==> c.value.Remove? && c.value.id == tokens[1]
  {
    if |tokens| < 2 then None else Some(Remove(tokens[1]))
  }

  /** The verb dispatch of `loop`. */
  function Decode(tokens: seq<string>): (c: Option<Command>)
    ensures c.Some? ==> |tokens| >= 2 && c.value.id == tokens[1]
    ensures c.Some? <==>
      || (|tokens| >= 4 && EqualsIgnoreCase(tokens[0], "s"))
      || (|tokens| >= 4 && EqualsIgnoreCase(tokens[0], "upd") && !EqualsIgnoreCase(tokens[0], "s") &&
          KnownField(tokens[2]))
      || (|tokens| >= 2 && EqualsIgnoreCase(tokens[0], "d"))
  {
    if |tokens| == 0 then None
    else if EqualsIgnoreCase(tokens[0], "s") then VerbsDiffer(tokens[0]); CreateCommand(tokens)
    else if EqualsIgnoreCase(tokens[0], "upd") then UpdateCommand(tokens)
    else if EqualsIgnoreCase(tokens[0], "d") then DeleteCommand(tokens)
    else None
  }

  /** No word is two of the verbs at once. */
  lemma VerbsDiffer(v: string)
    ensures !(EqualsIgnoreCase(v, "s") && EqualsIgnoreCase(v, "d"))
  {
    if |v| == 1 {
      assert ToLower("s"[0]) != ToLower("d"[0]);
      assert ToLower(v[0]) == ToLower(v[0]);
    }
  }

  /** The command one received line carries, if any. */
  function ParseLine(line: string): Option<Command>
  {
    Decode(Tokenize(line))
  }

  /** The coordinator's interval table after the command, or `None` when it is refused. */
  function Apply(tbl: Table, c: Command): Option<Table>
  {
    match c
    case Create(id, s, t, m) => Add(tbl, id, s, t, m)
    case Update(id, e) => Modify(tbl, id, e)
    case Remove(id) => Delete(tbl, id)
  }

  /** The table after a decoded command, or `None` when there is none or it is refused. */
  function Outcome(tbl: Table, c: Option<Command>): Option<Table>
  {
    if c.Some? then Apply(tbl, c.value) else None
  }

  /** The table after one received line, or `None` when it carries no accepted command. */
  function LineEffect(tbl: Table, line: string): (u: Option<Table>)
    ensures u.Some? ==> ParseLine(line).Some?
    ensures u.Some? ==> |tbl| - 1 <= |u.value| <= |tbl| + 1
  {
    Outcome(tbl, ParseLine(line))
  }

  /**
   * A session of received lines against the table `tbl`: each nonblank line
   * in turn, up to the first blank one. The flag tells whether some command
   * was accepted (and the read gate therefore re-evaluated).
   */
  function Session(tbl: Table, lines: seq<string>): (r: (Table, bool))
    ensures !r.1 ==> r.0 == tbl
    ensures |lines| == 0 ==> r == (tbl, false)
    decreases |lines|
  {
    if |lines| == 0 || Trim(lines[0]) == "" then (tbl, false)
    else
      var u := LineEffect(tbl, Trim(lines[0]));
      var rest := Session(if u.Some? then u.value else tbl, lines[1..]);
      (rest.0, u.Some? || rest.1)
  }

  // ---------------------------------------------------------------------------
  // The text of a command
  // ---------------------------------------------------------------------------

  /** The commands a line can carry with an id that is one word. */
  predicate Sendable(c: Command)
  {
    && |c.id| > 0 && NoSpaces(c.id)
    && match c
       case Create(_, s, t, m) => s < MINUTES_PER_DAY && t < MINUTES_PER_DAY && m & 0x80 == 0
       case Update(_, e) => (
         match e
         case SetTimes(_, _, _) => false
         case SetStatus(_) => true
         case SetStart(s) => s < MINUTES_PER_DAY
         case SetEnd(t) => t < MINUTES_PER_DAY
         case SetDays(m) => m & 0x80 == 0)
       case Remove(_) => true
  }

  /** The line that sends `c`. */
  function Encode(c: Command): string
    requires Sendable(c)
  {
    match c
    case Create(id, s, t, m) => Join(["s", id, FormatTime(s), FormatTime(t), RenderDays(m)])
    case Update(id, e) => (
      match e
      case SetStatus(b) => Join(["upd", id, "st", if b then "on" else "off"])
      case SetStart(s) => Join(["upd", id, "t1", FormatTime(s)])
      case SetEnd(t) => Join(["upd", id, "t2", FormatTime(t)])
      case SetDays(m) => Join(["upd", id, "dt", RenderDays(m)]))
    case Remove(id) => Join(["d", id])
  }


  // ---------------------------------------------------------------------------
  // Properties: trimming
  // ---------------------------------------------------------------------------

  /**
   * `trimInPlace` keeps one contiguous piece of its input: all that precedes
   * it and all that follows it is white space, and it neither starts nor
   * ends with white space.
   */
  lemma TrimShape(s: string)
    ensures var r := Trim(s); var a := SkipSpaces(s, 0);
      && a + |r| <= |s| && r == s[a..a + |r|]
      && (forall k :: 0 <= k < a ==> IsSpace(s[k]))
      && (forall k :: a + |r| <= k < |s| ==> IsSpace(s[k]))
      && (|r| > 0 ==> !IsSpace(r[0]) && !IsSpace(r[|r| - 1]))
  {
  }

  /** Text without white space at either end is left as it is. */
  lemma TrimKeepsTrimmed(s: string)
    requires |s| > 0 ==> !IsSpace(s[0]) && !IsSpace(s[|s| - 1])
    ensures Trim(s) == s
  {
    assert SkipSpaces(s, 0) == 0;
    assert BackOverSpaces(s, 0, |s|) == |s|;
    assert s[0..|s|] == s;
  }

  /** Trimming twice is trimming once. */
  lemma TrimIdempotent(s: string)
    ensures Trim(Trim(s)) == Trim(s)
  {
    TrimShape(s);
    TrimKeepsTrimmed(Trim(s));
  }

  // ---------------------------------------------------------------------------
  // Properties: numbers and time tokens
  // ---------------------------------------------------------------------------

  /** One more digit after a run of digits: the loop multiplies by ten and adds it. */
  lemma {:induction false} AccumulateSnoc(p: string, d: char, i: nat, acc: int)
    requires i <= |p| && IsDigit(d)
    requires forall k :: i <= k < |p| ==> IsDigit(p[k])
    ensures Accumulate(p + [d], i, acc) == Accumulate(p, i, acc) * 10 + DigitValue(d)
    decreases |p| - i
  {
    if i < |p| {
      assert (p + [d])[i] == p[i];
      AccumulateSnoc(p, d, i + 1, acc * 10 + DigitValue(p[i]));
    } else {
      assert (p + [d])[i] == d;
    }
  }

  /** The digit loop reads the decimal text of `n` back as `n`. */
  lemma {:induction false} NatTextValue(n: nat)
    ensures Accumulate(NatText(n), 0, 0) == n
  {
    if n >= 10 {
      NatTextValue(n / 10);
      AccumulateSnoc(NatText(n / 10), DigitChar(n % 10), 0, 0);
    }
  }

  /** `atoi` of unsigned digits is their decimal value. */
  lemma AtoiOfDigits(s: string)
    requires forall i :: 0 <= i < |s| ==> IsDigit(s[i])
    ensures Atoi(s) == Accumulate(s, 0, 0) && Atoi(s) >= 0
  {
    assert SkipSpaces(s, 0) == 0;
  }

  /** A time token whose number is unsigned digits names a minute of the day. */
  lemma TimeIsInDay(token: string)
    requires forall i :: 0 <= i < |token| - 1 ==> IsDigit(token[i])
    ensures ParseTime(token) < MINUTES_PER_DAY
  {
    if |token| > 0 {
      var digitCount := if |token| - 1 > TIME_DIGITS then TIME_DIGITS else |token| - 1;
      AtoiOfDigits(token[..digitCount]);
    }
  }

  /** Splitting `h * 100 + mm` back into hour and minute. */
  lemma HundredsSplit(h: nat, mm: nat)
    requires mm < 100
    ensures CDiv(h * 100 + mm, 100) == h && CRem(h * 100 + mm, 100) == mm
  {
    var v := h * 100 + mm;
    assert v / 100 == h && v % 100 == mm by {
      assert v == 100 * h + mm;
    }
  }

  /** The number a time token carries is the decimal text before its suffix. */
  lemma TokenValue(text: string, c: char)
    requires 1 <= |text| <= TIME_DIGITS
    requires forall i :: 0 <= i < |text| ==> IsDigit(text[i])
    ensures var token := text + [c];
      Atoi(token[..if |token| - 1 > TIME_DIGITS then TIME_DIGITS else |token| - 1]) == Accumulate(text, 0, 0)
  {
    assert (text + [c])[..|text|] == text;
    AtoiOfDigits(text);
  }

  /** The clock arithmetic undoes the 12-hour split of a minute of the day. */
  lemma ClockOfTwelveHour(m: nat)
    requires m < MINUTES_PER_DAY
    ensures var h := m / 60; var h12 := if h % 12 == 0 then 12 else h % 12;
      ClockMinutes(h12 * 100 + m % 60, if h < 12 then 'a' else 'p') == m
  {
    var h := m / 60;
    var h12 := if h % 12 == 0 then 12 else h % 12;
    HundredsSplit(h12, m % 60);
    assert m == h * 60 + m % 60;
  }

  /** Formatting a minute of the day and parsing the token gives the minute back. */
  lemma TimeRoundTrip(m: nat)
    requires m < MINUTES_PER_DAY
    ensures ParseTime(FormatTime(m)) == m
  {
    var h := m / 60;
    var h12 := if h % 12 == 0 then 12 else h % 12;
    var v := h12 * 100 + m % 60;
    var c := if h < 12 then 'a' else 'p';
    TokenValue(NatText(v), c);
    NatTextValue(v);
    assert ToLower(c) == c;
    ClockOfTwelveHour(m);
  }

  /** Noon and midnight are both written with hour 12. */
  lemma TwelveTexts()
    ensures FormatTime(0) == "1200a" && FormatTime(720) == "1200p"
  {
    assert NatText(12) == "12";
    assert NatText(120) == "120";
    assert NatText(1200) == "1200";
  }

  lemma HalfPastSevenText()
    ensures FormatTime(450) == "730a"
  {
    assert NatText(73) == "73";
    assert NatText(730) == "730";
  }

  lemma HalfPastTwelveText()
    ensures FormatTime(750) == "1230p"
  {
    assert NatText(12) == "12";
    assert NatText(123) == "123";
    assert NatText(1230) == "1230";
  }

  /** The examples the time parser is documented with. */
  lemma TimeExamples()
    ensures ParseTime("1200a") == 0
    ensures ParseTime("1200p") == 720
    ensures ParseTime("730a") == 450
    ensures ParseTime("1230p") == 750
    ensures ParseTime("") == 0
  {
    TwelveTexts();
    HalfPastSevenText();
    HalfPastTwelveText();
    TimeRoundTrip(0);
    TimeRoundTrip(720);
    TimeRoundTrip(450);
    TimeRoundTrip(750);
  }

  /** `atoi` takes a sign, so a negative number wraps around in the `uint16_t` result. */
  lemma SignedTimeWraps()
    ensures ParseTime("-5a") == TWO_POW_16 - 5
  {
    var digits := "-5a"[..2];
    assert digits == "-5";
    assert SkipSpaces(digits, 0) == 0;
    assert Accumulate(digits, 1, 0) == 5;
    assert CDiv(-5, 100) == 0 && CRem(-5, 100) == -5;
  }

  /**
   * The clamps of the clock arithmetic: the minute is the last two digits,
   * capped at 59, and the hour the digits before them, capped at 12; `a` puts
   * that hour in the morning, `p` in the afternoon, and any other suffix
   * leaves it as it is.
   */
  lemma ClockClamps(value: nat, suffix: char)
    ensures var hh := if value / 100 > 12 then 12 else value / 100;
      && ClockMinutes(value, suffix) % 60 == (if value % 100 > 59 then 59 else value % 100)
      && ClockMinutes(value, suffix) / 60 ==
           (if suffix == 'a' then hh % 12 else if suffix == 'p' then hh % 12 + 12 else hh)
  {
    assert CDiv(value, 100) == value / 100 && CRem(value, 100) == value % 100;
  }

  /** The digit loop stops at the first character that is not a digit. */
  lemma {:induction false} AccumulateStops(d: string, q: string, i: nat, acc: int)
    requires i <= |d| && forall k :: i <= k < |d| ==> IsDigit(d[k])
    requires |q| == 0 || !IsDigit(q[0])
    ensures Accumulate(d + q, i, acc) == Accumulate(d, i, acc)
    decreases |d| - i
  {
    if i < |d| {
      assert (d + q)[i] == d[i];
      AccumulateStops(d, q, i + 1, acc * 10 + DigitValue(d[i]));
    } else if |q| > 0 {
      assert (d + q)[i] == q[0];
    }
  }

  /**
   * `atoi` reads the digits a text starts with and ignores what follows them;
   * a text that starts with neither a digit, a blank nor a sign reads as 0.
   */
  lemma AtoiReadsLeadingDigits(d: string, q: string)
    requires forall k :: 0 <= k < |d| ==> IsDigit(d[k])
    requires |q| == 0 || !IsDigit(q[0])
    requires |d| == 0 && |q| > 0 ==> !IsSpace(q[0]) && q[0] != '-' && q[0] != '+'
    ensures Atoi(d + q) == Accumulate(d, 0, 0)
  {
    var s := d + q;
    if |d| > 0 {
      assert s[0] == d[0];
    } else if |q| > 0 {
      assert s[0] == q[0];
    }
    assert SkipSpaces(s, 0) == 0;
    AccumulateStops(d, q, 0, 0);
  }

  /** Only the four characters before the suffix are read; the rest of a longer token is ignored. */
  lemma ParseTimeReadsFour(t: string)
    requires |t| > TIME_DIGITS + 1
    ensures ParseTime(t) == ParseTime(t[..TIME_DIGITS] + [t[|t| - 1]])
  {
    var u := t[..TIME_DIGITS] + [t[|t| - 1]];
    assert u[..TIME_DIGITS] == t[..TIME_DIGITS];
  }

  /** A token of up to four digits and a suffix reads as the clock arithmetic of their value. */
  lemma DigitsThenSuffix(d: string, c: char)
    requires 1 <= |d| <= TIME_DIGITS
    requires forall k :: 0 <= k < |d| ==> IsDigit(d[k])
    ensures ParseTime(d + [c]) == ClockMinutes(Accumulate(d, 0, 0), ToLower(c))
  {
    TokenValue(d, c);
    assert (d + [c])[|d|] == c;
  }

  /** The digit loop over three digits. */
  lemma AccumulateThree(s: string)
    requires |s| == 3 && forall k :: 0 <= k < 3 ==> IsDigit(s[k])
    ensures Accumulate(s, 0, 0) == (DigitValue(s[0]) * 10 + DigitValue(s[1])) * 10 + DigitValue(s[2])
  {
    var v1 := DigitValue(s[0]);
    var v2 := v1 * 10 + DigitValue(s[1]);
    assert Accumulate(s, 0, 0) == Accumulate(s, 1, v1);
    assert Accumulate(s, 1, v1) == Accumulate(s, 2, v2);
  }

  /** The digit loop over four digits. */
  lemma AccumulateFour(s: string)
    requires |s| == 4 && forall k :: 0 <= k < 4 ==> IsDigit(s[k])
    ensures Accumulate(s, 0, 0) ==
      ((DigitValue(s[0]) * 10 + DigitValue(s[1])) * 10 + DigitValue(s[2])) * 10 + DigitValue(s[3])
  {
    var v1 := DigitValue(s[0]);
    var v2 := v1 * 10 + DigitValue(s[1]);
    var v3 := v2 * 10 + DigitValue(s[2]);
    assert Accumulate(s, 0, 0) == Accumulate(s, 1, v1);
    assert Accumulate(s, 1, v1) == Accumulate(s, 2, v2);
    assert Accumulate(s, 2, v2) == Accumulate(s, 3, v3);
  }

  /** A token of digits and a suffix whose value `v` the clock arithmetic turns into `r`. */
  lemma TimeOfDigits(d: string, c: char, v: nat, r: u16)
    requires 1 <= |d| <= TIME_DIGITS
    requires forall k :: 0 <= k < |d| ==> IsDigit(d[k])
    requires Accumulate(d, 0, 0) == v && ClockMinutes(v, ToLower(c)) == r
    ensures ParseTime(d + [c]) == r
  {
    DigitsThenSuffix(d, c);
  }

  /** A minute past its cap reads as 59, and hour 12 with `a` as midnight. */
  lemma MinuteCapped()
    ensures ParseTime("1375a") == 59
  {
    AccumulateFour("1375");
    ClockClamps(1375, 'a');
    TimeOfDigits("1375", 'a', 1375, 59);
    assert "1375" + ['a'] == "1375a";
  }

  /** An hour past its cap reads as 12, which `p` leaves as it is. */
  lemma HourCapped()
    ensures ParseTime("9999p") == 779
  {
    AccumulateFour("9999");
    ClockClamps(9999, 'p');
    TimeOfDigits("9999", 'p', 9999, 779);
    assert "9999" + ['p'] == "9999p";
  }

  /** Digits past the fourth are not read. */
  lemma FifthDigitIgnored()
    ensures ParseTime("12345p") == 754
  {
    AccumulateFour("1234");
    ClockClamps(1234, 'p');
    TimeOfDigits("1234", 'p', 1234, 754);
    ParseTimeReadsFour("12345p");
    assert "12345p"[..TIME_DIGITS] + ['p'] == "1234" + ['p'];
  }

  /** A suffix that is neither `a` nor `p` leaves the hour as written. */
  lemma UnknownSuffixKeepsHour()
    ensures ParseTime("730q") == 450
  {
    AccumulateThree("730");
    ClockClamps(730, 'q');
    TimeOfDigits("730", 'q', 730, 450);
    assert "730" + ['q'] == "730q";
  }

  /** Text that is not a number reads as 0, and a number stops at its first non-digit. */
  lemma NonNumericTimes()
    ensures ParseTime("xya") == 0
    ensures ParseTime("7xp") == 727
  {
    AtoiReadsLeadingDigits("", "xy");
    assert "xya"[..2] == "" + "xy";
    ClockClamps(0, 'a');
    AtoiReadsLeadingDigits("7", "x");
    assert "7xp"[..2] == "7" + "x";
    ClockClamps(7, 'p');
  }

  // ---------------------------------------------------------------------------
  // Properties: days lists
  // ---------------------------------------------------------------------------

  /**
   * One number of a days list: the digit run `s[a..b]`, then the separator
   * `s[b..c]`, then the rest of the list from `c`. A number from 1 to 7 sets
   * its day; any other number is dropped.
   */
  lemma DaysNumber(s: string, a: nat, b: nat, c: nat, acc: bv8)
    requires a < b <= c <= |s|
    requires forall k :: a <= k < b ==> IsDigit(s[k])
    requires b < |s| ==> !IsDigit(s[b])
    requires forall k :: b <= k < c ==> !IsDigit(s[k]) && s[k] != ']'
    requires c < |s| ==> IsDigit(s[c]) || s[c] == ']'
    ensures var n := Accumulate(s, a, 0);
      DaysFrom(s, a, acc) == DaysFrom(s, c, if 1 <= n <= 7 then acc | DayBit(n) else acc)
  {
    assert IsDigit(s[a]);
    assert SkipSpaces(s, a) == a;
    assert SkipDigits(s, a) == b;
    assert SkipSeparator(s, b) == c;
  }

  /** A day bit is a single bit: the mask either holds all of it or none of it. */
  lemma DayBitIsOneBit(mask: bv8, k: nat)
    requires 1 <= k <= 7
    ensures mask & DayBit(k) != 0 ==> mask & DayBit(k) == DayBit(k)
  {
  }

  /** Folding one more single-bit day into a masked accumulator. */
  lemma MaskStep(mask: bv8, acc: bv8, bit: bv8, rest: bv8)
    requires mask & bit == 0 || mask & bit == bit
    ensures acc | (mask & (bit | rest)) == (if mask & bit != 0 then acc | bit else acc) | (mask & rest)
  {
  }

  /**
   * `s` holds, from index `i`, the list items for days `k..7` of `mask` and
   * then the closing `]`.
   */
  ghost predicate ItemsAt(s: string, i: nat, mask: bv8, k: nat)
    decreases 8 - k
  {
    if k > DAYS_PER_WEEK || k == 0 then i < |s| && s[i] == ']'
    else if mask & DayBit(k) != 0 then
      i + 2 <= |s| && s[i] == DigitChar(k) && s[i + 1] == ',' && ItemsAt(s, i + 2, mask, k + 1)
    else ItemsAt(s, i, mask, k + 1)
  }

  /** The rendered items are laid out as `ItemsAt` says. */
  lemma {:induction false} ItemsAtRendered(s: string, i: nat, mask: bv8, k: nat)
    requires 1 <= k <= 8
    requires i <= |s| && s[i..] == DayItems(mask, k) + "]"
    ensures ItemsAt(s, i, mask, k)
    decreases 8 - k
  {
    if k == 8 {
      assert s[i] == s[i..][0];
    } else if mask & DayBit(k) != 0 {
      RenderedItemHead(s, i, mask, k);
      ItemsAtRendered(s, i + 2, mask, k + 1);
    } else {
      ItemsAtRendered(s, i, mask, k + 1);
    }
  }

  /** A rendered item of a day in `mask`: its digit, a comma, then the later items. */
  lemma RenderedItemHead(s: string, i: nat, mask: bv8, k: nat)
    requires 1 <= k <= 7 && mask & DayBit(k) != 0
    requires i <= |s| && s[i..] == DayItems(mask, k) + "]"
    ensures i + 2 <= |s| && s[i] == DigitChar(k) && s[i + 1] == ','
    ensures s[i + 2..] == DayItems(mask, k + 1) + "]"
  {
    var item, rest := [DigitChar(k), ','], DayItems(mask, k + 1) + "]";
    assert s[i..] == item + rest;
    SliceSplit(s, i, item, rest);
  }

  /** Where items are laid out, the text starts with a digit or the closing `]`. */
  lemma {:induction false} ItemsAtStart(s: string, i: nat, mask: bv8, k: nat)
    requires 1 <= k <= 8 && ItemsAt(s, i, mask, k)
    ensures i < |s| && (IsDigit(s[i]) || s[i] == ']')
    decreases 8 - k
  {
    if k < 8 && mask & DayBit(k) == 0 {
      ItemsAtStart(s, i, mask, k + 1);
    }
  }

  /** Past the item `k,` of a day in `mask`, the items of the later days follow. */
  lemma ItemsAtNext(s: string, i: nat, mask: bv8, k: nat)
    requires 1 <= k <= 7 && mask & DayBit(k) != 0
    requires ItemsAt(s, i, mask, k)
    ensures i + 2 <= |s| && ItemsAt(s, i + 2, mask, k + 1)
  {
  }

  /** The first item `k,` of a days list sets day `k` and moves on past its comma. */
  lemma DayItemStep(s: string, i: nat, mask: bv8, k: nat, acc: bv8)
    requires 1 <= k <= 7 && mask & DayBit(k) != 0
    requires ItemsAt(s, i, mask, k)
    ensures i + 2 <= |s| && ItemsAt(s, i + 2, mask, k + 1)
    ensures DaysFrom(s, i, acc) == DaysFrom(s, i + 2, acc | DayBit(k))
  {
    ItemsAtStart(s, i + 2, mask, k + 1);
    assert Accumulate(s, i, 0) == k by {
      assert !IsDigit(s[i + 1]);
    }
    DaysNumber(s, i, i + 1, i + 2, acc);
  }

  /** The closing `]` ends the parse: nothing is left to set. */
  lemma DaysAtClose(s: string, i: nat, mask: bv8, acc: bv8)
    requires i <= |s| && ItemsAt(s, i, mask, 8)
    ensures DaysFrom(s, i, acc) == acc | (mask & DaysFromBits(8))
  {
    assert acc | (mask & DaysFromBits(8)) == acc by {
      assert DaysFromBits(8) == 0;
    }
  }

  /** A day of `mask` is read from its item and joins the accumulated days. */
  lemma DaysAtSetItem(s: string, i: nat, mask: bv8, k: nat, acc: bv8)
    requires 1 <= k <= 7 && mask & DayBit(k) != 0
    requires i <= |s| && ItemsAt(s, i, mask, k)
    requires DaysFrom(s, i + 2, acc | DayBit(k)) == (acc | DayBit(k)) | (mask & DaysFromBits(k + 1))
    ensures DaysFrom(s, i, acc) == acc | (mask & DaysFromBits(k))
  {
    var bit, rest := DayBit(k), DaysFromBits(k + 1);
    DayItemStep(s, i, mask, k, acc);
    DayBitIsOneBit(mask, k);
    assert DaysFromBits(k) == bit | rest;
    MaskStep(mask, acc, bit, rest);
  }

  /** A day missing from `mask` has no item and adds nothing. */
  lemma DaysAtUnsetItem(s: string, i: nat, mask: bv8, k: nat, acc: bv8)
    requires 1 <= k <= 7 && mask & DayBit(k) == 0
    requires i <= |s| && DaysFrom(s, i, acc) == acc | (mask & DaysFromBits(k + 1))
    ensures DaysFrom(s, i, acc) == acc | (mask & DaysFromBits(k))
  {
    var bit, rest := DayBit(k), DaysFromBits(k + 1);
    assert DaysFromBits(k) == bit | rest;
    MaskStep(mask, acc, bit, rest);
  }

  /**
   * The parse of the list items for days `k..7` of `mask`, closed by `]`, from
   * index `i`: exactly the days of `mask` from `k` on join the accumulated days.
   */
  lemma DayItemsParse(s: string, i: nat, mask: bv8, k: nat, acc: bv8)
    requires 1 <= k <= 8 && i <= |s| && ItemsAt(s, i, mask, k)
    ensures DaysFrom(s, i, acc) == acc | (mask & DaysFromBits(k))
    decreases 8 - k, 1
  {
    if k == 8 {
      DaysAtClose(s, i, mask, acc);
    } else if mask & DayBit(k) != 0 {
      SetItemParse(s, i, mask, k, acc);
    } else {
      UnsetItemParse(s, i, mask, k, acc);
    }
  }

  /** `DayItemsParse` when day `k` is in `mask`: its item is read, then the rest. */
  lemma SetItemParse(s: string, i: nat, mask: bv8, k: nat, acc: bv8)
    requires 1 <= k <= 7 && mask & DayBit(k) != 0 && i <= |s| && ItemsAt(s, i, mask, k)
    ensures DaysFrom(s, i, acc) == acc | (mask & DaysFromBits(k))
    decreases 8 - k, 0
  {
    ItemsAtNext(s, i, mask, k);
    DayItemsParse(s, i + 2, mask, k + 1, acc | DayBit(k));
    DaysAtSetItem(s, i, mask, k, acc);
  }

  /** `DayItemsParse` when day `k` is not in `mask`: the rest is read from the same place. */
  lemma UnsetItemParse(s: string, i: nat, mask: bv8, k: nat, acc: bv8)
    requires 1 <= k <= 7 && mask & DayBit(k) == 0 && i <= |s| && ItemsAt(s, i, mask, k)
    ensures DaysFrom(s, i, acc) == acc | (mask & DaysFromBits(k))
    decreases 8 - k, 0
  {
    DayItemsParse(s, i, mask, k + 1, acc);
    DaysAtUnsetItem(s, i, mask, k, acc);
  }

  /** The seven weekday bits are all the bits but the eighth. */
  lemma AllDayBits()
    ensures DaysFromBits(1) == ALL_DAYS
  {
    assert DaysFromBits(7) == 0x01;
    assert DaysFromBits(6) == 0x41;
    assert DaysFromBits(5) == 0x61;
    assert DaysFromBits(4) == 0x71;
    assert DaysFromBits(3) == 0x79;
    assert DaysFromBits(2) == 0x7D;
  }

  /** A rendered days list opens with exactly one `[`. */
  lemma RenderedOpening(mask: bv8)
    ensures SkipOpening(RenderDays(mask), 0) == 1
  {
    var s := RenderDays(mask);
    assert s[0] == '[';
    assert s[1] != ' ' && s[1] != '[';
  }

  /** After its `[`, a rendered days list lays out its items. */
  lemma RenderedItems(mask: bv8)
    ensures |RenderDays(mask)| >= 1 && ItemsAt(RenderDays(mask), 1, mask, 1)
  {
    AfterOpening(DayItems(mask, 1));
    ItemsAtRendered(RenderDays(mask), 1, mask, 1);
  }

  /** Past the `[` of a bracketed text come its contents and the `]`. */
  lemma AfterOpening(d: string)
    ensures ("[" + d + "]")[1..] == d + "]"
  {
    assert "[" + d + "]" == ['['] + (d + "]");
  }

  /** Rendering a mask as a days list and parsing it back gives its seven weekday bits. */
  lemma DaysRoundTrip(mask: bv8)
    ensures ParseDays(RenderDays(mask)) == mask & ALL_DAYS
  {
    var s := RenderDays(mask);
    RenderedOpening(mask);
    RenderedItems(mask);
    DayItemsParse(s, 1, mask, 1, 0);
    AllDayBits();
  }

  /** A single digit is read as its value. */
  lemma AccumulateDigit(s: string, i: nat)
    requires i < |s| && IsDigit(s[i])
    requires i + 1 < |s| ==> !IsDigit(s[i + 1])
    ensures Accumulate(s, i, 0) == DigitValue(s[i])
  {
  }

  /** A run of two or more digits that does not start with 0 is at least 10. */
  lemma AccumulateAtLeastTen(s: string, i: nat)
    requires i + 2 <= |s| && IsDigit(s[i]) && IsDigit(s[i + 1]) && s[i] != '0'
    ensures Accumulate(s, i, 0) >= 10
  {
    assert Accumulate(s, i, 0) == Accumulate(s, i + 2, DigitValue(s[i]) * 10 + DigitValue(s[i + 1]));
  }

  /** A single-digit number of a days list, then its separator up to index `c`. */
  lemma DaysDigit(s: string, a: nat, c: nat, acc: bv8)
    requires a < c <= |s| && IsDigit(s[a])
    requires a + 1 < |s| ==> !IsDigit(s[a + 1])
    requires forall k :: a < k < c ==> !IsDigit(s[k]) && s[k] != ']'
    requires c < |s| ==> IsDigit(s[c]) || s[c] == ']'
    ensures var n := DigitValue(s[a]);
      DaysFrom(s, a, acc) == DaysFrom(s, c, if 1 <= n <= 7 then acc | DayBit(n) else acc)
  {
    AccumulateDigit(s, a);
    DaysNumber(s, a, a + 1, c, acc);
  }

  /** `s` is `[1,7]`, the documented list for Monday and Sunday. */
  predicate IsMondaySundayList(s: string)
  {
    |s| == 5 && s[0] == '[' && s[1] == '1' && s[2] == ',' && s[3] == '7' && s[4] == ']'
  }

  lemma MondayItem(s: string)
    requires IsMondaySundayList(s)
    ensures ParseDays(s) == DaysFrom(s, 3, 0x02)
  {
    assert SkipOpening(s, 0) == 1;
    DaysDigit(s, 1, 3, 0);
  }

  lemma SundayItem(s: string)
    requires IsMondaySundayList(s)
    ensures DaysFrom(s, 3, 0x02) == 0x03
  {
    DaysDigit(s, 3, 4, 0x02);
  }

  /** The documented list `[1,7]`: Monday and Sunday. */
  lemma MondayAndSunday()
    ensures ParseDays("[1,7]") == 0x03
  {
    var s := "[1,7]";
    assert IsMondaySundayList(s);
    MondayItem(s);
    SundayItem(s);
  }

  /** A number outside 1..7 names no day: `[9]` is the empty mask. */
  lemma DayNineIgnored(s: string)
    requires |s| == 3 && s[0] == '[' && s[1] == '9' && s[2] == ']'
    ensures ParseDays(s) == 0
  {
    assert SkipOpening(s, 0) == 1;
    DaysDigit(s, 1, 2, 0);
  }

  /** `s` is `1, 2, 3`: no brackets, and a comma and a blank between numbers. */
  predicate IsBareList(s: string)
  {
    |s| == 7 && s[0] == '1' && s[1] == ',' && s[2] == ' ' && s[3] == '2' &&
    s[4] == ',' && s[5] == ' ' && s[6] == '3'
  }

  lemma BareFirst(s: string)
    requires IsBareList(s)
    ensures ParseDays(s) == DaysFrom(s, 3, 0x02)
  {
    assert SkipOpening(s, 0) == 0;
    DaysDigit(s, 0, 3, 0);
  }

  lemma BareSecond(s: string)
    requires IsBareList(s)
    ensures DaysFrom(s, 3, 0x02) == DaysFrom(s, 6, 0x06)
  {
    DaysDigit(s, 3, 6, 0x02);
  }

  lemma BareThird(s: string)
    requires IsBareList(s)
    ensures DaysFrom(s, 6, 0x06) == 0x0E
  {
    DaysDigit(s, 6, 7, 0x06);
  }

  /** Brackets are optional and any run of non-digits separates the numbers. */
  lemma BareList()
    ensures ParseDays("1, 2, 3") == 0x0E
  {
    var s := "1, 2, 3";
    assert IsBareList(s);
    BareFirst(s);
    BareSecond(s);
    BareThird(s);
  }

  /**
   * A run of digits without separators is one number, so `12345` names no
   * day at all (not Monday to Friday).
   */
  lemma DigitRunIsOneNumber(s: string)
    requires |s| == 5 && s[0] == '1' && s[1] == '2' && s[2] == '3' && s[3] == '4' && s[4] == '5'
    ensures ParseDays(s) == 0
  {
    assert SkipOpening(s, 0) == 0;
    AccumulateAtLeastTen(s, 0);
    DaysNumber(s, 0, 5, 5, 0);
  }

  // ---------------------------------------------------------------------------
  // Properties: tokens
  // ---------------------------------------------------------------------------

  /** Text laid out from index `i` as `x` followed by `y`. */
  lemma SliceSplit(s: string, i: nat, x: string, y: string)
    requires i <= |s| && s[i..] == x + y
    ensures i + |x| <= |s| && s[i + |x|..] == y
    ensures forall k :: 0 <= k < |x| ==> s[i + k] == x[k]
  {
    assert s[i + |x|..] == s[i..][|x|..];
    forall k | 0 <= k < |x|
      ensures s[i + k] == x[k]
    {
      assert s[i + k] == s[i..][k];
    }
  }

  /** The word loop stops exactly at the first white space after `i`. */
  lemma {:induction false} SkipWordTo(s: string, i: nat, j: nat)
    requires i <= j <= |s|
    requires forall k :: i <= k < j ==> !IsSpace(s[k])
    requires j < |s| ==> IsSpace(s[j])
    ensures SkipWord(s, i) == j
    decreases j - i
  {
    if i < j {
      SkipWordTo(s, i + 1, j);
    }
  }

  /** Joined words: the first one, a blank, and the rest. */
  lemma JoinCons(ws: seq<string>)
    requires |ws| >= 2
    ensures Join(ws) == ws[0] + ([' '] + Join(ws[1..]))
  {
  }

  /** The tokenizer from index `i`, with `count` tokens cut, gives `ws`. */
  ghost predicate SplitsAs(s: string, i: nat, count: nat, ws: seq<string>)
    requires i <= |s| && count <= MAX_SPLIT_TOKENS
  {
    SplitFrom(s, i, count) == ws
  }

  /** The tokenizer from index `i` cuts `w` and goes on at `j`. */
  ghost predicate CutsFirst(s: string, i: nat, count: nat, w: string, j: nat)
    requires i <= |s| && j <= |s| && count < MAX_SPLIT_TOKENS
  {
    SplitFrom(s, i, count) == [w] + SplitFrom(s, j, count + 1)
  }

  /** The tokenizer from index `i` gives back the words joined there. */
  lemma SplitJoin(s: string, i: nat, ws: seq<string>, count: nat)
    requires count <= MAX_SPLIT_TOKENS && Words(ws, count)
    requires i <= |s| && s[i..] == Join(ws)
    ensures SplitsAs(s, i, count, ws) == true
    decreases |ws|, 1
  {
    if |ws| == 0 {
      assert |s[i..]| == 0;
    } else if |ws| == 1 {
      SplitJoinLast(s, i, ws[0], count);
      assert ws == [ws[0]];
    } else {
      SplitAtJoined(s, i, ws, count);
      SplitJoinCons(s, i, ws, count);
    }
  }

  /** `SplitJoin` for the last word, which runs to the end of the text. */
  lemma SplitJoinLast(s: string, i: nat, w: string, count: nat)
    requires count <= MAX_SPLIT_TOKENS && IsToken(w, count == MAX_SPLIT_TOKENS)
    requires i <= |s| && s[i..] == w
    ensures SplitsAs(s, i, count, [w]) == true
  {
    assert i + |w| == |s| && s[i..|s|] == w by {
      SliceSplit(s, i, w, []);
    }
    if count == MAX_SPLIT_TOKENS {
      assert BackOverSpaces(s, i, |s|) == |s| by {
        assert s[|s| - 1] == w[|w| - 1];
      }
    } else {
      SkipWordTo(s, i, |s|);
    }
  }

  /** Joined words start where their first word starts. */
  lemma JoinStart(ws: seq<string>)
    requires |ws| >= 1 && |ws[0]| > 0
    ensures |Join(ws)| > 0 && Join(ws)[0] == ws[0][0]
  {
    if |ws| >= 2 {
      JoinCons(ws);
    }
  }

  /** Text holding joined words from `i`: the first word, a blank, the rest. */
  lemma JoinedAt(s: string, i: nat, ws: seq<string>)
    requires |ws| >= 2 && i <= |s| && s[i..] == Join(ws)
    ensures var e := i + |ws[0]|;
      e < |s| && s[i..e] == ws[0] && s[e] == ' ' && s[e + 1..] == Join(ws[1..])
  {
    var w, rest := ws[0], Join(ws[1..]);
    JoinCons(ws);
    SliceSplit(s, i, w, [' '] + rest);
    SliceSplit(s, i + |w|, [' '], rest);
    assert s[i..i + |w|] == s[i..][..|w|];
  }

  /** The tokenizer cuts the word `w == s[i..e]` and goes on at `e + 1`. */
  lemma SplitFromWord(s: string, i: nat, e: nat, count: nat, w: string)
    requires count < MAX_SPLIT_TOKENS && i < e < |s| && s[i..e] == w
    requires SkipWord(s, i) == e && SkipSpaces(s, e) == e + 1
    ensures CutsFirst(s, i, count, w, e + 1) == true
  {
  }

  /**
   * `SplitJoin` for a word followed by a blank and more words, once the
   * tokenizer is known to cut the first word and go on past the blank.
   */
  lemma SplitJoinCons(s: string, i: nat, ws: seq<string>, count: nat)
    requires |ws| >= 2 && count < MAX_SPLIT_TOKENS && Words(ws, count)
    requires var e := i + |ws[0]|;
      && i < e < |s| && s[i..e] == ws[0]
      && SkipWord(s, i) == e && SkipSpaces(s, e) == e + 1
      && s[e + 1..] == Join(ws[1..])
    ensures SplitsAs(s, i, count, ws) == true
    decreases |ws|, 0
  {
    WordsTail(ws, count);
    SplitJoin(s, i + |ws[0]| + 1, ws[1..], count + 1);
    CutThenRest(s, i, ws, count);
  }

  /** The first word cut at its blank, then the rest of the words from past the blank. */
  lemma CutThenRest(s: string, i: nat, ws: seq<string>, count: nat)
    requires |ws| >= 2 && count < MAX_SPLIT_TOKENS
    requires var e := i + |ws[0]|;
      && i < e < |s| && s[i..e] == ws[0]
      && SkipWord(s, i) == e && SkipSpaces(s, e) == e + 1
      && SplitsAs(s, e + 1, count + 1, ws[1..]) == true
    ensures SplitsAs(s, i, count, ws) == true
  {
    SplitFromWord(s, i, i + |ws[0]|, count, ws[0]);
    SplitsCons(s, i, ws, count);
  }

  /** A first cut followed by the rest of the words gives all of them. */
  lemma SplitsCons(s: string, i: nat, ws: seq<string>, count: nat)
    requires |ws| >= 2 && count < MAX_SPLIT_TOKENS && i + |ws[0]| < |s|
    requires CutsFirst(s, i, count, ws[0], i + |ws[0]| + 1) == true
    requires SplitsAs(s, i + |ws[0]| + 1, count + 1, ws[1..]) == true
    ensures SplitsAs(s, i, count, ws) == true
  {
    assert ws == [ws[0]] + ws[1..];
  }

  /**
   * Joined words seen by the tokenizer: the first word, ending where a single
   * blank starts, then the remaining words joined.
   */
  lemma SplitAtJoined(s: string, i: nat, ws: seq<string>, count: nat)
    requires |ws| >= 2 && count <= MAX_SPLIT_TOKENS && Words(ws, count)
    requires i <= |s| && s[i..] == Join(ws)
    ensures var e := i + |ws[0]|;
      && count < MAX_SPLIT_TOKENS && i < e < |s| && s[i..e] == ws[0]
      && SkipWord(s, i) == e && SkipSpaces(s, e) == e + 1
      && s[e + 1..] == Join(ws[1..])
  {
    JoinedAt(s, i, ws);
    WordThenBlank(s, i, ws, count);
  }

  /** The words after the first are words one place further on. */
  lemma WordsTail(ws: seq<string>, count: nat)
    requires |ws| >= 1 && Words(ws, count)
    ensures Words(ws[1..], count + 1)
  {
    forall k | 0 <= k < |ws[1..]|
      ensures IsToken(ws[1..][k], count + 1 + k == MAX_SPLIT_TOKENS)
    {
      assert ws[1..][k] == ws[k + 1];
    }
  }

  /** Where joined words start, the word loop stops at the blank after the first word. */
  lemma WordThenBlank(s: string, i: nat, ws: seq<string>, count: nat)
    requires |ws| >= 2 && count <= MAX_SPLIT_TOKENS && Words(ws, count)
    requires i <= |s| && s[i..] == Join(ws)
    ensures var e := i + |ws[0]|;
      count < MAX_SPLIT_TOKENS && i < e < |s| && SkipWord(s, i) == e && SkipSpaces(s, e) == e + 1
  {
    var w := ws[0];
    var e := i + |w|;
    assert IsToken(w, count == MAX_SPLIT_TOKENS) && count < MAX_SPLIT_TOKENS;
    JoinedAt(s, i, ws);
    assert SkipWord(s, i) == e by {
      forall k | i <= k < e
        ensures !IsSpace(s[k])
      {
        assert s[k] == s[i..e][k - i];
      }
      SkipWordTo(s, i, e);
    }
    assert SkipSpaces(s, e) == e + 1 by {
      assert IsToken(ws[1], count + 1 == MAX_SPLIT_TOKENS);
      JoinStart(ws[1..]);
      assert s[e + 1] == s[e + 1..][0];
    }
  }

  /**
   * Words joined with single blanks are cut back into the same words: the
   * first four at the blanks, a fifth as the rest of the line.
   */
  lemma TokenizeJoin(ws: seq<string>)
    requires Words(ws, 0)
    ensures Tokenize(Join(ws)) == ws
  {
    var s := Join(ws);
    assert SkipSpaces(s, 0) == 0 by {
      if |ws| >= 1 {
        assert IsToken(ws[0], false);
        JoinStart(ws);
      }
    }
    SplitJoin(s, 0, ws, 0);
  }

  // ---------------------------------------------------------------------------
  // Properties: commands
  // ---------------------------------------------------------------------------

  /** Up to five nonempty words without white space are tokens in any place. */
  lemma PlainWords(ws: seq<string>)
    requires |ws| <= MAX_SPLIT_TOKENS + 1
    requires forall k :: 0 <= k < |ws| ==> |ws[k]| > 0 && NoSpaces(ws[k])
    ensures Words(ws, 0)
  {
    forall k | 0 <= k < |ws|
      ensures IsToken(ws[k], k == MAX_SPLIT_TOKENS)
    {
      assert !IsSpace(ws[k][0]) && !IsSpace(ws[k][|ws[k]| - 1]);
    }
  }

  /** The line of plain words `ws` is tokenized back into `ws`. */
  lemma ParsePlainLine(ws: seq<string>)
    requires |ws| <= MAX_SPLIT_TOKENS + 1
    requires forall k :: 0 <= k < |ws| ==> |ws[k]| > 0 && NoSpaces(ws[k])
    ensures ParseLine(Join(ws)) == Decode(ws)
  {
    PlainWords(ws);
    TokenizeJoin(ws);
  }

  /** A days mask without the eighth bit keeps all its bits under `ALL_DAYS`. */
  lemma WeekdayMask(m: bv8)
    requires m & 0x80 == 0
    ensures m & ALL_DAYS == m
  {
  }

  /** A rendered days list is parsed back into its mask. */
  lemma DaysTextRoundTrip(m: bv8)
    requires m & 0x80 == 0
    ensures ParseDays(RenderDays(m)) == m
  {
    DaysRoundTrip(m);
    WeekdayMask(m);
  }

  /** The line of a `Create` command is decoded back into it. */
  lemma CreateRoundTrip(c: Command)
    requires c.Create? && Sendable(c)
    ensures ParseLine(Encode(c)) == Some(c)
  {
    var ws := ["s", c.id, FormatTime(c.startMin), FormatTime(c.endMin), RenderDays(c.daysMask)];
    assert Encode(c) == Join(ws);
    ParsePlainLine(ws);
    assert EqualsIgnoreCase(ws[0], "s");
    TimeRoundTrip(c.startMin);
    TimeRoundTrip(c.endMin);
    DaysTextRoundTrip(c.daysMask);
  }

  /** A create line of four words, with no days list, admits every day of the week. */
  lemma CreateWithoutDays(id: string, startMin: nat, endMin: nat)
    requires |id| > 0 && NoSpaces(id)
    requires startMin < MINUTES_PER_DAY && endMin < MINUTES_PER_DAY
    ensures ParseLine(Join(["s", id, FormatTime(startMin), FormatTime(endMin)])) ==
      Some(Create(id, startMin, endMin, ALL_DAYS))
  {
    var ws := ["s", id, FormatTime(startMin), FormatTime(endMin)];
    ParsePlainLine(ws);
    assert EqualsIgnoreCase(ws[0], "s");
    TimeRoundTrip(startMin);
    TimeRoundTrip(endMin);
  }

  /** The line of an `Update` command is decoded back into it. */
  lemma UpdateRoundTrip(c: Command)
    requires c.Update? && Sendable(c)
    ensures ParseLine(Encode(c)) == Some(c)
  {
    match c.edit
    case SetStatus(b) => StatusRoundTrip(c.id, b);
    case SetStart(t) => StartRoundTrip(c.id, t);
    case SetEnd(t) => EndRoundTrip(c.id, t);
    case SetDays(m) => DaysEditRoundTrip(c.id, m);
  }

  /** `upd` is the update verb and not the create verb. */
  lemma UpdateVerb(v: string)
    requires v == "upd"
    ensures EqualsIgnoreCase(v, "upd") && !EqualsIgnoreCase(v, "s")
  {
  }

  /** `upd <id> st on` enables and `upd <id> st off` disables. */
  lemma StatusRoundTrip(id: string, b: bool)
    requires Sendable(Update(id, SetStatus(b)))
    ensures ParseLine(Encode(Update(id, SetStatus(b)))) == Some(Update(id, SetStatus(b)))
  {
    var value := if b then "on" else "off";
    var ws := ["upd", id, "st", value];
    ParsePlainLine(ws);
    UpdateVerb(ws[0]);
    assert EqualsIgnoreCase(ws[2], "st");
    if b {
      assert EqualsIgnoreCase(value, "on");
    } else {
      assert !EqualsIgnoreCase(value, "on") && !EqualsIgnoreCase(value, "true") by {
        assert |value| == 3 && ToLower(value[0]) != 't';
      }
    }
  }

  /** `upd <id> t1 <time>` sets the start again. */
  lemma StartRoundTrip(id: string, t: u16)
    requires Sendable(Update(id, SetStart(t)))
    ensures ParseLine(Encode(Update(id, SetStart(t)))) == Some(Update(id, SetStart(t)))
  {
    var ws := ["upd", id, "t1", FormatTime(t)];
    ParsePlainLine(ws);
    UpdateVerb(ws[0]);
    assert !EqualsIgnoreCase(ws[2], "st") && EqualsIgnoreCase(ws[2], "t1") by {
      assert ToLower(ws[2][0]) != ToLower("st"[0]);
    }
    TimeRoundTrip(t);
  }

  /** `upd <id> t2 <time>` sets the end again. */
  lemma EndRoundTrip(id: string, t: u16)
    requires Sendable(Update(id, SetEnd(t)))
    ensures ParseLine(Encode(Update(id, SetEnd(t)))) == Some(Update(id, SetEnd(t)))
  {
    var ws := ["upd", id, "t2", FormatTime(t)];
    ParsePlainLine(ws);
    UpdateVerb(ws[0]);
    assert !EqualsIgnoreCase(ws[2], "st") && !EqualsIgnoreCase(ws[2], "t1") && EqualsIgnoreCase(ws[2], "t2") by {
      assert ToLower(ws[2][0]) != ToLower("st"[0]);
      assert ToLower(ws[2][1]) != ToLower("t1"[1]);
    }
    TimeRoundTrip(t);
  }

  /** `upd <id> dt <days>` sets the days again. */
  lemma DaysEditRoundTrip(id: string, m: bv8)
    requires Sendable(Update(id, SetDays(m)))
    ensures ParseLine(Encode(Update(id, SetDays(m)))) == Some(Update(id, SetDays(m)))
  {
    var ws := ["upd", id, "dt", RenderDays(m)];
    ParsePlainLine(ws);
    UpdateVerb(ws[0]);
    DaysField(ws[2]);
    DaysTextRoundTrip(m);
  }

  /** `dt` names the days field and none of the others. */
  lemma DaysField(f: string)
    requires f == "dt"
    ensures !EqualsIgnoreCase(f, "st") && !EqualsIgnoreCase(f, "t1") && !EqualsIgnoreCase(f, "t2")
    ensures EqualsIgnoreCase(f, "dt")
  {
    assert ToLower(f[0]) != ToLower("st"[0]);
    assert ToLower(f[0]) != ToLower("t1"[0]);
  }

  /** The line of a `Remove` command is decoded back into it. */
  lemma RemoveRoundTrip(c: Command)
    requires c.Remove? && Sendable(c)
    ensures ParseLine(Encode(c)) == Some(c)
  {
    var ws := ["d", c.id];
    assert Encode(c) == Join(ws);
    ParsePlainLine(ws);
    assert EqualsIgnoreCase(ws[0], "d") && !EqualsIgnoreCase(ws[0], "s") && !EqualsIgnoreCase(ws[0], "upd");
  }

  /** Every command a line can carry is read back from the line that sends it. */
  lemma CommandRoundTrip(c: Command)
    requires Sendable(c)
    ensures ParseLine(Encode(c)) == Some(c)
  {
    match c
    case Create(_, _, _, _) => CreateRoundTrip(c);
    case Update(_, _) => UpdateRoundTrip(c);
    case Remove(_) => RemoveRoundTrip(c);
  }

  /** Case-insensitive equality is an equivalence: equal words compare alike to any third. */
  lemma EqualsIgnoreCaseAlike(v: string, w: string, x: string)
    requires EqualsIgnoreCase(v, w)
    ensures EqualsIgnoreCase(v, x) == EqualsIgnoreCase(w, x)
  {
  }

  /** The verb is matched without regard to case: `S`, `Upd` and `D` work as well. */
  lemma VerbCaseIgnored(v: string, w: string, rest: seq<string>)
    requires EqualsIgnoreCase(v, w)
    ensures Decode([v] + rest) == Decode([w] + rest)
  {
    EqualsIgnoreCaseAlike(v, w, "s");
    EqualsIgnoreCaseAlike(v, w, "upd");
    EqualsIgnoreCaseAlike(v, w, "d");
    var a, b := [v] + rest, [w] + rest;
    assert a[1..] == b[1..];
  }

  // ---------------------------------------------------------------------------
  // Properties: sessions
  // ---------------------------------------------------------------------------

  /** An accepted command keeps every stored id within its buffer and the table within its capacity. */
  lemma ApplyKeepsWellFormed(tbl: Table, c: Command)
    requires WellFormed(tbl) && Apply(tbl, c).Some?
    ensures WellFormed(Apply(tbl, c).value)
  {
    match c
    case Create(id, s, t, m) =>
      var u := Add(tbl, id, s, t, m).value;
      assert u[|tbl|].id == StoredId(id);
    case Update(id, e) => ModifyTouchesOneRecord(tbl, id, e);
    case Remove(id) => DeleteKeepsWellFormed(tbl, id);
  }

  /** A whole session keeps the table well formed. */
  lemma {:induction false} SessionKeepsWellFormed(tbl: Table, lines: seq<string>)
    requires WellFormed(tbl)
    ensures WellFormed(Session(tbl, lines).0)
    decreases |lines|
  {
    if |lines| > 0 && Trim(lines[0]) != "" {
      var u := LineEffect(tbl, Trim(lines[0]));
      if u.Some? {
        ApplyKeepsWellFormed(tbl, ParseLine(Trim(lines[0])).value);
      }
      SessionKeepsWellFormed(if u.Some? then u.value else tbl, lines[1..]);
    }
  }

  /** A blank line ends the session: nothing after it is read. */
  lemma {:induction false} SessionStopsAtBlank(tbl: Table, lines: seq<string>, k: nat)
    requires k < |lines| && Trim(lines[k]) == ""
    ensures Session(tbl, lines) == Session(tbl, lines[..k])
    decreases k, 1
  {
    if k > 0 && Trim(lines[0]) != "" {
      SessionStopsLater(tbl, lines, k);
    } else {
      SessionStopsAtFirst(tbl, lines, k);
    }
  }

  /** A session whose first line is blank reads nothing, and neither does any prefix of it. */
  lemma SessionStopsAtFirst(tbl: Table, lines: seq<string>, k: nat)
    requires k < |lines| && Trim(lines[k]) == "" && (k == 0 || Trim(lines[0]) == "")
    ensures Session(tbl, lines) == Session(tbl, lines[..k]) == (tbl, false)
  {
    if k > 0 {
      assert lines[..k][0] == lines[0];
    }
  }

  /** The blank line comes after a line that is read: that line is applied, then the rest stops. */
  lemma {:induction false} SessionStopsLater(tbl: Table, lines: seq<string>, k: nat)
    requires 0 < k < |lines| && Trim(lines[k]) == "" && Trim(lines[0]) != ""
    ensures Session(tbl, lines) == Session(tbl, lines[..k])
    decreases k, 0
  {
    var u := LineEffect(tbl, Trim(lines[0]));
    var next := if u.Some? then u.value else tbl;
    assert lines[1..][k - 1] == lines[k];
    SessionStopsAtBlank(next, lines[1..], k - 1);
    SessionPrefixStep(tbl, lines, k);
  }

  /** A session and its prefix agree once they agree after the shared first line. */
  lemma SessionPrefixStep(tbl: Table, lines: seq<string>, k: nat)
    requires 0 < k < |lines| && Trim(lines[0]) != ""
    requires var u := LineEffect(tbl, Trim(lines[0]));
      var next := if u.Some? then u.value else tbl;
      Session(next, lines[1..]) == Session(next, lines[1..][..k - 1])
    ensures Session(tbl, lines) == Session(tbl, lines[..k])
  {
    PrefixParts(lines, k);
    SessionSameAfterFirst(tbl, lines, lines[..k]);
  }

  /** A nonempty prefix starts with the same line, and the rest of it is a prefix of the rest. */
  lemma PrefixParts(lines: seq<string>, k: nat)
    requires 0 < k < |lines|
    ensures lines[..k][0] == lines[0] && lines[..k][1..] == lines[1..][..k - 1]
  {
  }

  /** Two sessions that open with the same line and agree afterwards agree. */
  lemma SessionSameAfterFirst(tbl: Table, lines: seq<string>, lines': seq<string>)
    requires |lines| > 0 && |lines'| > 0 && lines'[0] == lines[0] && Trim(lines[0]) != ""
    requires var u := LineEffect(tbl, Trim(lines[0]));
      var next := if u.Some? then u.value else tbl;
      Session(next, lines[1..]) == Session(next, lines'[1..])
    ensures Session(tbl, lines) == Session(tbl, lines')
  {
  }
}
