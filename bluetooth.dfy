/**
 * `BluetoothManager`: the serial link that reads text commands, one line at a
 * time, and hands them to the coordinator. The receive side of the serial
 * port is the character sequence `rx`; the line buffer is a `char` array
 * holding a C string (the characters before its first NUL).
 *
 * `millis()` is the parameter `nowMs`, fixed for one call of `Loop`.
 */
module Bluetooth {
  import opened Common
  import opened Schedule
  import opened Coordinator
  import opened Protocol

  /** Size of the line buffer of `loop`, terminating NUL included. */
  const LINE_BUF: nat := 64

  const NUL: char := '\0'

  // ---------------------------------------------------------------------------
  // C strings
  // ---------------------------------------------------------------------------

  /** `strlen`: the index of the first NUL, or the whole length when there is none. */
  function Strlen(a: seq<char>): (n: nat)
    ensures n <= |a|
    ensures forall k :: 0 <= k < n ==> a[k] != NUL
    ensures n < |a| ==> a[n] == NUL
  {
    if |a| == 0 || a[0] == NUL then 0 else 1 + Strlen(a[1..])
  }

  /** The C string a buffer holds. */
  function CString(a: seq<char>): (s: string)
    ensures NUL !in s
  {
    a[..Strlen(a)]
  }

  /** A buffer holding `s` and then a NUL holds the C string `s`. */
  lemma CStringOfTerminated(a: seq<char>, s: string)
    requires NUL !in s && |s| < |a| && a[..|s|] == s && a[|s|] == NUL
    ensures CString(a) == s
  {
    StrlenAt(a, |s|);
  }

  /** The first NUL of a buffer is where `strlen` stops. */
  lemma {:induction false} StrlenAt(a: seq<char>, n: nat)
    requires n < |a| && a[n] == NUL
    requires forall k :: 0 <= k < n ==> a[k] != NUL
    ensures Strlen(a) == n
  {
    if n > 0 {
      StrlenAt(a[1..], n - 1);
    }
  }

  /** `strlen` on a buffer that holds a NUL. */
  method StrLen(buf: array<char>) returns (n: nat)
    requires NUL in buf[..]
    ensures n == Strlen(buf[..]) && n < buf.Length
  {
    n := 0;
    while buf[n] != NUL
      invariant n < buf.Length
      invariant forall k :: 0 <= k < n ==> buf[k] != NUL
      invariant NUL in buf[n..]
      decreases buf.Length - n
    {
      assert buf[n..] == [buf[n]] + buf[n + 1..];
      n := n + 1;
    }
    StrlenAt(buf[..], n);
  }

  // ---------------------------------------------------------------------------
  // Trimming in place
  // ---------------------------------------------------------------------------

  /**
   * `trimInPlace`: the leading white space is moved out with `memmove`, then
   * trailing white space is overwritten with NULs, one character at a time.
   */
  method TrimInPlace(s: array<char>)
    requires NUL in s[..]
    modifies s
    ensures NUL in s[..]
    ensures CString(s[..]) == Trim(CString(old(s[..])))
  {
    ghost var t := CString(s[..]);
    HoldsCString(s);
    var start := SpacesFrom(s, t, 0);
    if start != 0 {
      var len := StrLen(s);
      MoveDown(s, start, len - start + 1);
      assert s[..len - start] == t[start..] by {
        assert s[..len - start] == s[..len - start + 1][..len - start];
      }
    }
    DropTrailing(s, t, start);
  }

  /** A buffer holding a C string of length `n`: its first NUL is at `n`. */
  ghost predicate Holds(s: array<char>, n: nat)
    reads s
  {
    n < s.Length && s[n] == NUL && NUL !in s[..n]
  }

  /** In a buffer holding the C string `t`, the only NUL up to its end is the terminator. */
  lemma NulOnlyAtEnd(s: array<char>, t: string, i: nat)
    requires Holds(s, |t|) == true && t == s[..|t|] && i <= |t|
    ensures s[i] == NUL <==> i == |t|
  {
    if i < |t| {
      assert s[i] == t[i] && t[i] in t;
    }
  }

  /** Skips blanks on a buffer holding a C string of length `n`, from index `i`. */
  method SpacesFrom(s: array<char>, ghost t: string, i: nat) returns (j: nat)
    requires Holds(s, |t|) == true && t == s[..|t|] && i <= |t|
    ensures j == SkipSpaces(t, i)
  {
    ghost var n := |t|;
    j := i;
    while s[j] != NUL && IsSpace(s[j])
      invariant i <= j <= n
      invariant SkipSpaces(t, j) == SkipSpaces(t, i)
      decreases n - j
    {
      assert s[j] == t[j];
      j := j + 1;
    }
    if j < n {
      assert s[j] == t[j] && t[j] in t;
    }
  }

  /** Skips a word on a buffer holding a C string of length `n`, from index `i`. */
  method WordFrom(s: array<char>, ghost t: string, i: nat) returns (j: nat)
    requires Holds(s, |t|) == true && t == s[..|t|] && i <= |t|
    ensures j == SkipWord(t, i)
  {
    ghost var n := |t|;
    j := i;
    while s[j] != NUL && !IsSpace(s[j])
      invariant i <= j <= n
      invariant SkipWord(t, j) == SkipWord(t, i)
      decreases n - j
    {
      assert s[j] == t[j];
      j := j + 1;
    }
    if j < n {
      assert s[j] == t[j] && t[j] in t;
    }
  }

  /** A buffer holding a NUL holds the C string up to its first one. */
  lemma HoldsCString(s: array<char>)
    requires NUL in s[..]
    ensures Holds(s, Strlen(s[..])) == true && CString(s[..]) == s[..Strlen(s[..])]
  {
    var n := Strlen(s[..]);
    assert NUL !in s[..n] by {
      forall k | 0 <= k < n
        ensures s[..n][k] != NUL
      {
      }
    }
  }

  /**
   * The trailing loop of `trimInPlace`, once the buffer holds `t[start..]`:
   * white space at the end is overwritten until a visible character is last.
   */
  method DropTrailing(s: array<char>, ghost t: string, ghost start: nat)
    requires start <= |t| && Holds(s, |t| - start) == true && s[..|t| - start] == t[start..]
    modifies s
    ensures NUL in s[..]
    ensures CString(s[..]) == t[start..BackOverSpaces(t, start, |t|)]
  {
    HeldString(s, |t| - start);
    var len := StrLen(s);
    assert Trailing(s[..], t, start, len) == true;
    while len > 0 && IsSpace(s[len - 1])
      invariant 0 <= len && Trailing(s[..], t, start, len) == true
      decreases len
    {
      ghost var b := s[..];
      TrailingStep(b, t, start, len);
      len := len - 1;
      s[len] := NUL;
      assert s[..] == b[len := NUL];
    }
    TrailingDone(s[..], t, start, len);
  }

  /**
   * The state of the trailing loop: the buffer `b` holds `t[start..]` cut
   * to `len` characters, and the part cut off is white space.
   */
  ghost predicate Trailing(b: seq<char>, t: string, start: nat, len: nat)
  {
    && start + len <= |t| && len < |b|
    && b[len] == NUL && NUL !in b[..len] && b[..len] == t[start..start + len]
    && BackOverSpaces(t, start, start + len) == BackOverSpaces(t, start, |t|)
  }

  /** Overwriting one trailing blank with NUL. */
  lemma TrailingStep(b: seq<char>, t: string, start: nat, len: nat)
    requires Trailing(b, t, start, len) == true && len > 0 && IsSpace(b[len - 1])
    ensures Trailing(b[len - 1 := NUL], t, start, len - 1) == true
  {
    var c := b[len - 1 := NUL];
    assert b[len - 1] == b[..len][len - 1] == t[start + len - 1];
    assert c[..len - 1] == b[..len][..len - 1] == t[start..start + len - 1];
    assert NUL !in c[..len - 1] by {
      forall k | 0 <= k < len - 1
        ensures c[k] != NUL
      {
        assert b[..len][k] in b[..len];
      }
    }
    assert BackOverSpaces(t, start, start + len) == BackOverSpaces(t, start, start + len - 1);
  }

  /** When the last character is not white space, the buffer holds the trimmed text. */
  lemma TrailingDone(b: seq<char>, t: string, start: nat, len: nat)
    requires Trailing(b, t, start, len) == true && (len == 0 || !IsSpace(b[len - 1]))
    ensures NUL in b && CString(b) == t[start..BackOverSpaces(t, start, |t|)]
  {
    if len > 0 {
      assert b[len - 1] == b[..len][len - 1] == t[start + len - 1];
    }
    assert b[len] in b;
    forall k | 0 <= k < len
      ensures b[k] != NUL
    {
      assert b[..len][k] in b[..len];
    }
    StrlenAt(b, len);
  }

  /** What a buffer holding a C string of length `n` says about `strlen`. */
  lemma HeldString(s: array<char>, n: nat)
    requires Holds(s, n) == true
    ensures NUL in s[..] && Strlen(s[..]) == n && CString(s[..]) == s[..n]
  {
    assert s[..][n] == NUL;
    forall k | 0 <= k < n
      ensures s[..][k] != NUL
    {
      assert s[..n][k] in s[..n];
    }
    StrlenAt(s[..], n);
  }

  /** `memmove(s, s + from, count)` for a move towards the front. */
  method MoveDown(s: array<char>, from: nat, count: nat)
    requires from + count <= s.Length
    modifies s
    ensures s[..count] == old(s[from..from + count])
    ensures s[count..] == old(s[count..])
  {
    var k := 0;
    while k < count
      invariant k <= count
      invariant s[..k] == old(s[from..from + k])
      invariant s[k..] == old(s[k..])
    {
      s[k] := s[from + k];
      k := k + 1;
    }
  }

  /** A buffer holding a NUL at `n` holds the C string of its first `n` characters. */
  lemma {:induction false} CStringAtNul(a: seq<char>, n: nat)
    requires n < |a| && a[n] == NUL
    ensures CString(a) == CString(a[..n])
  {
    if n > 0 && a[0] != NUL {
      assert a[1..][n - 1] == NUL;
      CStringAtNul(a[1..], n - 1);
      assert a[..n][1..] == a[1..][..n - 1];
    }
  }

  // ---------------------------------------------------------------------------
  // Reception
  // ---------------------------------------------------------------------------

  /**
   * The read loop of `readLine` on the waiting characters `rx`, with `stored`
   * already in the buffer and room for `room` characters, terminator included:
   * `\r` is dropped, `\n` ends the line, and a full buffer ends it too. The
   * result is the stored characters and what is left waiting.
   */
  function Collect(rx: seq<char>, stored: seq<char>, room: nat): (r: (seq<char>, seq<char>))
    ensures |r.1| <= |rx|
    ensures |stored| + 1 < room && |rx| > 0 ==> |r.1| < |rx|
    ensures |stored| < room ==> |r.0| < room
    decreases |rx|
  {
    if |stored| + 1 >= room || |rx| == 0 then (stored, rx)
    else if rx[0] == '\r' then Collect(rx[1..], stored, room)
    else if rx[0] == '\n' then (stored, rx[1..])
    else Collect(rx[1..], stored + [rx[0]], room)
  }

  /** What one `readLine` into the line buffer of `loop` receives and leaves waiting. */
  function NextLine(rx: seq<char>): (r: (seq<char>, seq<char>))
    ensures |r.0| < LINE_BUF
    ensures |rx| > 0 ==> |r.1| < |rx|
    ensures |r.1| <= |rx|
  {
    Collect(rx, [], LINE_BUF)
  }

  /** The lines `rx` falls into when read one after another, each as the C string the buffer holds. */
  function Lines(rx: seq<char>): (ls: seq<string>)
    ensures |ls| <= |rx|
    ensures ls == [] <==> |rx| == 0
    ensures forall k :: 0 <= k < |ls| ==> |ls[k]| < LINE_BUF
    decreases |rx|
  {
    if |rx| == 0 then [] else [CString(NextLine(rx).0)] + Lines(NextLine(rx).1)
  }

  /** What `loop` leaves waiting: everything after the first blank line, or nothing. */
  function Unread(rx: seq<char>): (u: seq<char>)
    ensures |u| <= |rx|
    ensures |rx| > 0 ==> |u| < |rx|
    decreases |rx|
  {
    if |rx| == 0 then []
    else if Trim(CString(NextLine(rx).0)) == "" then NextLine(rx).1
    else Unread(NextLine(rx).1)
  }

  /** `readLine` only consumes: what it leaves waiting is a tail of what was waiting. */
  lemma {:induction false} CollectLeavesTail(rx: seq<char>, stored: seq<char>, room: nat)
    ensures Collect(rx, stored, room).1 == rx[|rx| - |Collect(rx, stored, room).1|..]
    decreases |rx|
  {
    if |stored| + 1 >= room || |rx| == 0 {
    } else if rx[0] == '\r' {
      CollectLeavesTail(rx[1..], stored, room);
    } else if rx[0] == '\n' {
    } else {
      CollectLeavesTail(rx[1..], stored + [rx[0]], room);
    }
  }

  /** What `loop` leaves waiting is a tail of the characters that were waiting. */
  lemma {:induction false} UnreadIsTail(rx: seq<char>)
    ensures Unread(rx) == rx[|rx| - |Unread(rx)|..]
    decreases |rx|
  {
    if |rx| > 0 {
      var rest := NextLine(rx).1;
      CollectLeavesTail(rx, [], LINE_BUF);
      if Trim(CString(NextLine(rx).0)) != "" {
        UnreadIsTail(rest);
        assert rest[|rest| - |Unread(rest)|..] == rx[|rx| - |Unread(rest)|..];
      }
    }
  }

  /** Text that holds no line end. */
  predicate OneLine(x: seq<char>)
  {
    forall k :: 0 <= k < |x| ==> x[k] != '\r' && x[k] != '\n'
  }

  /** Characters without a line end go into the buffer as long as they fit. */
  lemma {:induction false} CollectPlain(x: seq<char>, more: seq<char>, stored: seq<char>, room: nat)
    requires OneLine(x) && |stored| + |x| < room
    ensures Collect(x + more, stored, room) == Collect(more, stored + x, room)
    decreases |x|
  {
    if |x| > 0 {
      assert (x + more)[0] == x[0];
      assert (x + more)[1..] == x[1..] + more;
      assert stored + [x[0]] + x[1..] == stored + x;
      CollectPlain(x[1..], more, stored + [x[0]], room);
    } else {
      assert x + more == more && stored + x == stored;
    }
  }

  /**
   * A line of at most 62 characters, ended by `\n` or `\r\n`, is received
   * exactly, and the next read starts right after its end.
   */
  lemma LineReceived(l: seq<char>, ending: seq<char>, more: seq<char>)
    requires OneLine(l) && |l| + 1 < LINE_BUF
    requires ending == "\n" || ending == "\r\n"
    ensures NextLine(l + ending + more) == (l, more)
  {
    CollectPlain(l, ending + more, [], LINE_BUF);
    assert l + ending + more == l + (ending + more);
    assert [] + l == l;
    if ending == "\r\n" {
      assert (ending + more)[1..] == "\n" + more;
    }
  }

  /**
   * A longer line is cut after 63 characters: the buffer is full, and the
   * rest, line end included, is read as the next line.
   */
  lemma LongLineCut(l: seq<char>, more: seq<char>)
    requires OneLine(l) && |l| == LINE_BUF - 1
    ensures NextLine(l + more) == (l, more)
  {
    CollectPlain(l, more, [], LINE_BUF);
    assert [] + l == l;
  }

  /** A string without NUL is the C string a buffer holding it alone holds. */
  lemma {:induction false} CStringOfPlain(s: string)
    requires NUL !in s
    ensures CString(s) == s
  {
    if |s| > 0 {
      assert s[0] in s;
      assert NUL !in s[1..] by {
        forall k | 0 <= k < |s| - 1
          ensures s[1..][k] != NUL
        {
          assert s[k + 1] in s;
        }
      }
      CStringOfPlain(s[1..]);
      assert s == [s[0]] + s[1..];
    }
  }

  /**
   * The tokenizer's progress on `s`: the tokens cut so far, followed by what
   * it cuts from index `p` on, are the tokens `all`.
   */
  ghost predicate CutSoFar(s: string, tokens: seq<string>, p: nat, all: seq<string>)
    requires p <= |s| && |tokens| <= MAX_SPLIT_TOKENS
  {
    tokens + SplitFrom(s, p, |tokens|) == all
  }

  /** Cutting one word: it ends the line, or the blanks after it are skipped. */
  lemma CutWord(s: string, tokens: seq<string>, p: nat, e: nat, w: string, all: seq<string>)
    requires p < |s| && |tokens| < MAX_SPLIT_TOKENS && CutSoFar(s, tokens, p, all) == true
    requires e == SkipWord(s, p) && w == s[p..e]
    ensures e == |s| ==> tokens + [w] == all
    ensures e < |s| ==> CutSoFar(s, tokens + [w], SkipSpaces(s, e + 1), all) == true
  {
    if e < |s| {
      assert SkipSpaces(s, e) == SkipSpaces(s, e + 1);
      var q := SkipSpaces(s, e + 1);
      var more := tokens + [w];
      var after := SplitFrom(s, q, |more|);
      assert SplitFrom(s, p, |tokens|) == [w] + after;
      assert tokens + ([w] + after) == more + after;
    } else {
      assert SplitFrom(s, p, |tokens|) == [w];
    }
  }

  /** Nothing is left to cut once the tokens are complete. */
  lemma CutDone(s: string, tokens: seq<string>, all: seq<string>)
    requires |tokens| <= MAX_SPLIT_TOKENS && tokens == all
    ensures CutSoFar(s, tokens, |s|, all) == true
  {
    assert tokens + [] == tokens;
  }

  /** Where the word loop stops: at the end of the line, or with the rest of the line as the last token. */
  lemma CutEnd(s: string, tokens: seq<string>, p: nat, all: seq<string>)
    requires p <= |s| && |tokens| <= MAX_SPLIT_TOKENS && CutSoFar(s, tokens, p, all) == true
    requires p == |s| || |tokens| == MAX_SPLIT_TOKENS
    ensures p == |s| ==> tokens == all
    ensures p < |s| ==> tokens + [s[p..BackOverSpaces(s, p, |s|)]] == all
  {
    if p == |s| {
      assert tokens + [] == tokens;
    }
  }

  /** The characters sent for `ls`, each line ended by `\n`. */
  function Framed(ls: seq<string>): (rx: seq<char>)
  {
    if |ls| == 0 then [] else ls[0] + "\n" + Framed(ls[1..])
  }

  /** Lines that fit the buffer and carry no line end and no NUL. */
  predicate Transmittable(ls: seq<string>)
  {
    forall i :: 0 <= i < |ls| ==> OneLine(ls[i]) && |ls[i]| + 1 < LINE_BUF && NUL !in ls[i]
  }

  /** Lines sent one after another are received one by one, unchanged. */
  lemma {:induction false} FramedLines(ls: seq<string>)
    requires Transmittable(ls)
    ensures Lines(Framed(ls)) == ls
    decreases |ls|
  {
    if |ls| > 0 {
      LineReceived(ls[0], "\n", Framed(ls[1..]));
      CStringOfPlain(ls[0]);
      FramedLines(ls[1..]);
    }
  }

  /** After the lines of a session and a blank line, exactly what follows is left waiting. */
  lemma {:induction false} FramedUnread(ls: seq<string>, more: seq<char>)
    requires Transmittable(ls)
    requires forall i :: 0 <= i < |ls| ==> Trim(ls[i]) != ""
    ensures Unread(Framed(ls) + "\n" + more) == more
    decreases |ls|
  {
    if |ls| == 0 {
      assert Framed(ls) + "\n" + more == [] + "\n" + more;
      LineReceived([], "\n", more);
      assert Trim(CString([])) == "";
    } else {
      var rest := Framed(ls[1..]) + "\n" + more;
      assert Framed(ls) + "\n" + more == ls[0] + "\n" + rest;
      LineReceived(ls[0], "\n", rest);
      CStringOfPlain(ls[0]);
      FramedUnread(ls[1..], more);
    }
  }

  /**
   * One read of `loop`: a blank line ends the session and leaves the rest
   * waiting; any other line takes effect and the session goes on after it.
   */
  lemma SessionOfNext(tbl: Table, rx: seq<char>)
    requires |rx| > 0
    ensures var l := Trim(CString(NextLine(rx).0));
      && (l == "" ==> Session(tbl, Lines(rx)) == (tbl, false) && Unread(rx) == NextLine(rx).1)
      && (l != "" ==>
            var u := LineEffect(tbl, l);
            var rest := Session(if u.Some? then u.value else tbl, Lines(NextLine(rx).1));
            Session(tbl, Lines(rx)) == (rest.0, u.Some? || rest.1) && Unread(rx) == Unread(NextLine(rx).1))
  {
    var ls := Lines(rx);
    assert ls[0] == CString(NextLine(rx).0);
    assert ls[1..] == Lines(NextLine(rx).1);
  }

  /**
   * One pass of `loop`: `l` is the line `readLine` leaves in the buffer and
   * `rest` what stays waiting. A failed read means a blank line, which ends
   * the session; otherwise the session is this line's effect followed by the
   * session of what stays.
   */
  lemma LoopStep(tbl: Table, rx: seq<char>, rest: seq<char>, l: string, ok: bool)
    requires |rx| > 0
    requires rest == Collect(rx, [], LINE_BUF).1 && l == Trim(CString(Collect(rx, [], LINE_BUF).0))
    requires ok == (|rest| < |rx| && l != "")
    ensures !ok ==> Session(tbl, Lines(rx)) == (tbl, false) && Unread(rx) == rest
    ensures ok ==>
      var u := Outcome(tbl, Decode(Tokenize(l)));
      var after := Session(if u.Some? then u.value else tbl, Lines(rest));
      && |rest| < |rx|
      && Session(tbl, Lines(rx)) == (after.0, u.Some? || after.1)
      && Unread(rx) == Unread(rest)
  {
    SessionOfNext(tbl, rx);
  }

  /**
   * One item of a days list: from `p`, past blanks, one number, and what
   * separates it from the next item. The walk moves forward, and the number,
   * when it is a day, sets that day's bit.
   */
  lemma DaysStep(s: string, p: nat, mask: bv8, n: int, has: bool, next: bv8)
    requires p < |s| && s[p] != ']'
    requires var a := SkipSpaces(s, p);
      && n == Accumulate(s, a, 0) && has == (a < SkipDigits(s, a))
      && next == (if has && 1 <= n <= 7 then mask | DayBit(n) else mask)
    ensures var q := SkipSeparator(s, SkipDigits(s, SkipSpaces(s, p)));
      p < q && DaysFrom(s, p, mask) == DaysFrom(s, q, next)
  {
  }

  /** Lines that are not blank are all read, and nothing is left waiting. */
  lemma {:induction false} FramedAllRead(ls: seq<string>)
    requires Transmittable(ls)
    requires forall i :: 0 <= i < |ls| ==> Trim(ls[i]) != ""
    ensures Unread(Framed(ls)) == []
    decreases |ls|
  {
    if |ls| > 0 {
      LineReceived(ls[0], "\n", Framed(ls[1..]));
      CStringOfPlain(ls[0]);
      FramedAllRead(ls[1..]);
    }
  }

  // ---------------------------------------------------------------------------
  // Commands over the link
  // ---------------------------------------------------------------------------

  /** Text of printable characters only: no blank, no control character, no NUL. */
  predicate Visible(s: string)
  {
    forall k :: 0 <= k < |s| ==> ' ' < s[k]
  }

  /** A command whose line the link carries whole: an id of printable characters, a line that fits the buffer. */
  predicate Fits(c: Command)
    requires Sendable(c)
  {
    Visible(c.id) && |Encode(c)| + 1 < LINE_BUF
  }

  /** The lines that send `cs`, in order. */
  function Sent(cs: seq<Command>): (ls: seq<string>)
    requires forall i :: 0 <= i < |cs| ==> Sendable(cs[i])
    ensures |ls| == |cs|
  {
    if |cs| == 0 then [] else [Encode(cs[0])] + Sent(cs[1..])
  }

  /** Each command of `cs` applied in turn; the flag tells whether any was accepted. */
  function Replay(tbl: Table, cs: seq<Command>): (Table, bool)
    decreases |cs|
  {
    if |cs| == 0 then (tbl, false)
    else
      var u := Apply(tbl, cs[0]);
      var rest := Replay(if u.Some? then u.value else tbl, cs[1..]);
      (rest.0, u.Some? || rest.1)
  }

  /** Words of printable characters, joined with blanks: one line, no NUL, nothing to trim. */
  lemma {:induction false} JoinShape(ws: seq<string>)
    requires |ws| > 0
    requires forall i :: 0 <= i < |ws| ==> |ws[i]| > 0 && Visible(ws[i])
    ensures var j := Join(ws);
      && OneLine(j) && NUL !in j && |j| > 0
      && !IsSpace(j[0]) && !IsSpace(j[|j| - 1])
    decreases |ws|
  {
    var j := Join(ws);
    if |ws| == 1 {
      assert j == ws[0];
    } else {
      JoinShape(ws[1..]);
      JoinCons(ws);
      var r := Join(ws[1..]);
      assert j == ws[0] + ([' '] + r);
      forall k | 0 <= k < |j|
        ensures j[k] != '\r' && j[k] != '\n' && j[k] != NUL
      {
        if k < |ws[0]| {
          assert j[k] == ws[0][k];
        } else if k > |ws[0]| {
          assert j[k] == r[k - |ws[0]| - 1];
        }
      }
      assert j[|j| - 1] == r[|r| - 1];
    }
  }

  /** The items of a days list are digits and commas. */
  lemma {:induction false} DayItemsVisible(mask: bv8, k: nat)
    ensures Visible(DayItems(mask, k))
    decreases 8 - k
  {
    if 1 <= k <= DAYS_PER_WEEK {
      DayItemsVisible(mask, k + 1);
    }
  }

  /** A time token is printable. */
  lemma TimeVisible(m: nat)
    requires m < MINUTES_PER_DAY
    ensures Visible(FormatTime(m))
  {
    var h := m / 60;
    var h12 := if h % 12 == 0 then 12 else h % 12;
    var d := NatText(h12 * 100 + m % 60);
    assert FormatTime(m) == d + [if h < 12 then 'a' else 'p'];
  }

  /** A days list is printable. */
  lemma DaysVisible(m: bv8)
    ensures Visible(RenderDays(m))
  {
    DayItemsVisible(m, 1);
    BracketedVisible(DayItems(m, 1));
  }

  /** Brackets around printable text keep it printable. */
  lemma BracketedVisible(d: string)
    requires Visible(d)
    ensures Visible("[" + d + "]")
  {
    var r := "[" + d + "]";
    forall k | 0 <= k < |r|
      ensures ' ' < r[k]
    {
      if 0 < k <= |d| {
        assert r[k] == d[k - 1];
      }
    }
  }

  /** Printable words joined with blanks: one line, no NUL, nothing to trim. */
  lemma WordsLine(ws: seq<string>)
    requires |ws| > 0
    requires forall i :: 0 <= i < |ws| ==> |ws[i]| > 0 && Visible(ws[i])
    ensures var l := Join(ws); OneLine(l) && NUL !in l && |l| > 0 && Trim(l) == l
  {
    JoinShape(ws);
    TrimKeepsTrimmed(Join(ws));
  }

  /** The line of a command with a printable id is one trimmed line without NUL. */
  lemma EncodeShape(c: Command)
    requires Sendable(c) && Visible(c.id)
    ensures var l := Encode(c); OneLine(l) && NUL !in l && |l| > 0 && Trim(l) == l
  {
    match c
    case Create(id, s, t, m) =>
      TimeVisible(s);
      TimeVisible(t);
      DaysVisible(m);
      WordsLine(["s", id, FormatTime(s), FormatTime(t), RenderDays(m)]);
    case Update(id, e) => UpdateShape(id, e);
    case Remove(id) => WordsLine(["d", id]);
  }

  /** The line of an update with a printable id is one trimmed line without NUL. */
  lemma UpdateShape(id: string, e: Edit)
    requires Sendable(Update(id, e)) && Visible(id)
    ensures var l := Encode(Update(id, e)); OneLine(l) && NUL !in l && |l| > 0 && Trim(l) == l
  {
    match e
    case SetStatus(b) => WordsLine(["upd", id, "st", if b then "on" else "off"]);
    case SetStart(s) => TimeVisible(s); WordsLine(["upd", id, "t1", FormatTime(s)]);
    case SetEnd(t) => TimeVisible(t); WordsLine(["upd", id, "t2", FormatTime(t)]);
    case SetDays(m) => DaysVisible(m); WordsLine(["upd", id, "dt", RenderDays(m)]);
  }

  /** Lines of commands that fit are transmittable and none is blank. */
  lemma {:induction false} SentShape(cs: seq<Command>)
    requires forall i :: 0 <= i < |cs| ==> Sendable(cs[i]) && Fits(cs[i])
    ensures Transmittable(Sent(cs))
    ensures forall i :: 0 <= i < |cs| ==> Trim(Sent(cs)[i]) == Sent(cs)[i] != ""
    decreases |cs|
  {
    if |cs| > 0 {
      EncodeShape(cs[0]);
      SentShape(cs[1..]);
      assert forall i :: 0 < i < |cs| ==> Sent(cs)[i] == Sent(cs[1..])[i - 1];
    }
  }

  /** A session over the lines of commands applies each command in turn. */
  lemma {:induction false} SessionOfSent(tbl: Table, cs: seq<Command>)
    requires forall i :: 0 <= i < |cs| ==> Sendable(cs[i]) && Fits(cs[i])
    ensures Session(tbl, Sent(cs)) == Replay(tbl, cs)
    decreases |cs|
  {
    if |cs| > 0 {
      var u := Apply(tbl, cs[0]);
      SessionOfSent(if u.Some? then u.value else tbl, cs[1..]);
      SessionOfSentStep(tbl, cs);
    }
  }

  /** The first command's line is read back as that command, and the rest follow. */
  lemma SessionOfSentStep(tbl: Table, cs: seq<Command>)
    requires |cs| > 0 && forall i :: 0 <= i < |cs| ==> Sendable(cs[i]) && Fits(cs[i])
    requires var u := Apply(tbl, cs[0]);
      var next := if u.Some? then u.value else tbl;
      Session(next, Sent(cs[1..])) == Replay(next, cs[1..])
    ensures Session(tbl, Sent(cs)) == Replay(tbl, cs)
  {
    var l := Encode(cs[0]);
    EncodeShape(cs[0]);
    CommandRoundTrip(cs[0]);
    assert Sent(cs)[0] == l && Sent(cs)[1..] == Sent(cs[1..]);
    assert LineEffect(tbl, Trim(l)) == Apply(tbl, cs[0]);
  }

  /**
   * Commands sent over the link, one line each, are received and applied in
   * the order they were sent, and nothing is left waiting.
   */
  lemma CommandsApplied(tbl: Table, cs: seq<Command>)
    requires forall i :: 0 <= i < |cs| ==> Sendable(cs[i]) && Fits(cs[i])
    ensures Session(tbl, Lines(Framed(Sent(cs)))) == Replay(tbl, cs)
    ensures Unread(Framed(Sent(cs))) == []
  {
    SentShape(cs);
    FramedLines(Sent(cs));
    SessionOfSent(tbl, cs);
    FramedAllRead(Sent(cs));
  }

  // ---------------------------------------------------------------------------
  // The manager
  // ---------------------------------------------------------------------------

  class BluetoothManager {
    const coordinator: SystemCoordinator
    /** The characters waiting on the serial port, oldest first. */
    var rx: seq<char>

    /** A manager for `coord`; nothing has arrived yet. */
    constructor (coord: SystemCoordinator)
      ensures coordinator == coord && rx == []
    {
      coordinator := coord;
      rx := [];
    }

    /** Characters arriving on the serial port. */
    method Deliver(chars: seq<char>)
      modifies this`rx
      ensures rx == old(rx) + chars
    {
      rx := rx + chars;
    }

    /**
     * The coordinator holds the table `u` names and re-evaluated the read
     * gate at `nowMs`, or, when `u` is `None`, still holds `before` with the
     * gate as it was.
     */
    ghost predicate Shows(before: Table, wasEnabled: bool, u: Option<Table>, nowMs: u32)
      reads coordinator, coordinator.intervals
      requires coordinator.intervalCount <= coordinator.intervals.Length
    {
      && coordinator.Intervals() == (if u.Some? then u.value else before)
      && coordinator.rfidEnabled == (if u.Some? then ReadingAllowed(coordinator.Intervals(), nowMs) else wasEnabled)
    }

    /**
     * `loop`: while characters are waiting, read a line; a blank line ends
     * the session, any other line is tokenized and dispatched. The table and
     * the read gate end as the session of the lines read says, and what
     * follows a blank line stays waiting.
     */
    method Loop(nowMs: u32)
      requires coordinator.Valid()
      modifies this`rx, coordinator`intervalCount, coordinator`rfidEnabled, coordinator.intervals
      ensures coordinator.Valid()
      ensures var r := Session(old(coordinator.Intervals()), Lines(old(rx)));
        && coordinator.Intervals() == r.0
        && coordinator.rfidEnabled == (if r.1 then ReadingAllowed(r.0, nowMs) else old(coordinator.rfidEnabled))
      ensures rx == Unread(old(rx))
    {
      var line := new char[LINE_BUF];
      ghost var goal := Session(coordinator.Intervals(), Lines(rx));
      ghost var accepted := false;
      while |rx| > 0
        invariant coordinator.Valid()
        invariant fresh(line) && line.Length == LINE_BUF
        invariant Unread(rx) == Unread(old(rx))
        invariant Session(coordinator.Intervals(), Lines(rx)).0 == goal.0
        invariant (accepted || Session(coordinator.Intervals(), Lines(rx)).1) == goal.1
        invariant accepted ==> coordinator.rfidEnabled == ReadingAllowed(coordinator.Intervals(), nowMs)
        invariant !accepted ==> coordinator.rfidEnabled == old(coordinator.rfidEnabled)
        decreases |rx|
      {
        var ok;
        ghost var changed;
        ok, changed := ServeLine(line, nowMs);
        if !ok {
          break;
        }
        accepted := accepted || changed;
      }
    }

    /**
     * One pass of `loop`: read a line into `line` and, unless it is blank,
     * dispatch it. A blank line leaves the coordinator alone and the session
     * of the waiting lines empty; any other line contributes its effect,
     * `changed` telling whether a command was accepted, ahead of the
     * session of what stays waiting.
     */
    method ServeLine(line: array<char>, nowMs: u32) returns (ok: bool, ghost changed: bool)
      requires coordinator.Valid() && |rx| > 0 && line.Length == LINE_BUF
      modifies this`rx, line, coordinator`intervalCount, coordinator`rfidEnabled, coordinator.intervals
      ensures coordinator.Valid()
      ensures |rx| < |old(rx)|
      ensures !ok ==>
        && Session(old(coordinator.Intervals()), Lines(old(rx))) == (old(coordinator.Intervals()), false)
        && rx == Unread(old(rx))
        && coordinator.Intervals() == old(coordinator.Intervals())
        && coordinator.rfidEnabled == old(coordinator.rfidEnabled)
      ensures ok ==>
        var after := Session(coordinator.Intervals(), Lines(rx));
        && Session(old(coordinator.Intervals()), Lines(old(rx))) == (after.0, changed || after.1)
        && Unread(rx) == Unread(old(rx))
        && (!changed ==> coordinator.Intervals() == old(coordinator.Intervals()))
        && coordinator.rfidEnabled ==
             (if changed then ReadingAllowed(coordinator.Intervals(), nowMs) else old(coordinator.rfidEnabled))
    {
      ghost var before := coordinator.Intervals();
      ghost var waiting := rx;
      ok := ReadLine(line, LINE_BUF);
      LoopStep(before, waiting, rx, CString(line[..]), ok);
      changed := false;
      if !ok {
        return;
      }
      var tokens := SplitLine(line);
      changed := Outcome(before, Decode(tokens)).Some?;
      HandleTokens(tokens, nowMs);
    }

    /** The verb dispatch of `loop`: `s`, `upd` and `d` in any case; nothing else has an effect. */
    method HandleTokens(tokens: seq<string>, nowMs: u32)
      requires coordinator.Valid()
      modifies coordinator`intervalCount, coordinator`rfidEnabled, coordinator.intervals
      ensures coordinator.Valid()
      ensures Shows(old(coordinator.Intervals()), old(coordinator.rfidEnabled),
                    Outcome(old(coordinator.Intervals()), Decode(tokens)), nowMs)
    {
      if |tokens| == 0 {
        return;
      }
      if EqualsIgnoreCase(tokens[0], "s") {
        HandleCreateTokens(tokens, nowMs);
      } else if EqualsIgnoreCase(tokens[0], "upd") {
        HandleUpdateTokens(tokens, nowMs);
      } else if EqualsIgnoreCase(tokens[0], "d") {
        HandleDeleteTokens(tokens, nowMs);
      }
    }

    /** `handleCreateTokens`: an id, two times and, optionally, a days list. */
    method HandleCreateTokens(tokens: seq<string>, nowMs: u32)
      requires coordinator.Valid()
      modifies coordinator`intervalCount, coordinator`rfidEnabled, coordinator.intervals
      ensures coordinator.Valid()
      ensures Shows(old(coordinator.Intervals()), old(coordinator.rfidEnabled),
                    Outcome(old(coordinator.Intervals()), CreateCommand(tokens)), nowMs)
    {
      if |tokens| < 4 {
        return;
      }
      var id := tokens[1];
      var start := ParseTime(tokens[2]);
      var end := ParseTime(tokens[3]);
      var daysMask := ALL_DAYS;
      if |tokens| >= 5 && tokens[4] != "" {
        daysMask := ParseDaysListToMask(tokens[4]);
      }
      var _ := coordinator.AddInterval(id, start, end, daysMask, nowMs);
    }

    /** `handleUpdateTokens`: an id, a field and its new value. */
    method HandleUpdateTokens(tokens: seq<string>, nowMs: u32)
      requires coordinator.Valid()
      modifies coordinator`rfidEnabled, coordinator.intervals
      ensures coordinator.Valid()
      ensures Shows(old(coordinator.Intervals()), old(coordinator.rfidEnabled),
                    Outcome(old(coordinator.Intervals()), UpdateCommand(tokens)), nowMs)
    {
      if |tokens| < 4 {
        return;
      }
      var id, field, value := tokens[1], tokens[2], tokens[3];
      if EqualsIgnoreCase(field, "st") {
        var enabled := EqualsIgnoreCase(value, "true") || value == "1" || EqualsIgnoreCase(value, "on");
        var _ := coordinator.SetIntervalEnabled(id, enabled, nowMs);
      } else if EqualsIgnoreCase(field, "t1") {
        var start := ParseTime(value);
        var _ := coordinator.SetIntervalStart(id, start, nowMs);
      } else if EqualsIgnoreCase(field, "t2") {
        var end := ParseTime(value);
        var _ := coordinator.SetIntervalEnd(id, end, nowMs);
      } else if EqualsIgnoreCase(field, "dt") {
        var mask := ParseDaysListToMask(value);
        var _ := coordinator.SetIntervalDays(id, mask, nowMs);
      }
    }

    /** `handleDeleteTokens`: an id. */
    method HandleDeleteTokens(tokens: seq<string>, nowMs: u32)
      requires coordinator.Valid()
      modifies coordinator`intervalCount, coordinator`rfidEnabled, coordinator.intervals
      ensures coordinator.Valid()
      ensures Shows(old(coordinator.Intervals()), old(coordinator.rfidEnabled),
                    Outcome(old(coordinator.Intervals()), DeleteCommand(tokens)), nowMs)
    {
      if |tokens| < 2 {
        return;
      }
      var _ := coordinator.DeleteInterval(tokens[1], nowMs);
    }

    /**
     * `parseDaysListToMask`: past the opening blanks and `[`, each number
     * 1..7 sets its day (7 is bit 0), anything else between numbers is
     * skipped, and `]` or the end stops it.
     */
    static method ParseDaysListToMask(token: string) returns (mask: bv8)
      ensures mask == ParseDays(token)
    {
      mask := 0;
      var p := 0;
      while p < |token| && (token[p] == ' ' || token[p] == '[')
        invariant p <= |token| && SkipOpening(token, p) == SkipOpening(token, 0)
        decreases |token| - p
      {
        p := p + 1;
      }
      while p < |token| && token[p] != ']'
        invariant p <= |token| && DaysFrom(token, p, mask) == ParseDays(token)
        decreases |token| - p
      {
        ghost var p0, mask0 := p, mask;
        p := BlanksIn(token, p);
        var n, has;
        n, has, p := ReadNumber(token, p);
        if has && n >= 1 && n <= 7 {
          mask := mask | DayBit(n);
        }
        p := SeparatorIn(token, p);
        DaysStep(token, p0, mask0, n, has, mask);
      }
    }

    /** Skips the leading blanks of a token. */
    static method BlanksIn(token: string, p0: nat) returns (p: nat)
      requires p0 <= |token|
      ensures p == SkipSpaces(token, p0)
    {
      p := p0;
      while p < |token| && IsSpace(token[p])
        invariant p0 <= p <= |token| && SkipSpaces(token, p) == SkipSpaces(token, p0)
        decreases |token| - p
      {
        p := p + 1;
      }
    }

    /** The skip to the next number of `parseDaysListToMask`: up to a digit or `]`. */
    static method SeparatorIn(token: string, p0: nat) returns (p: nat)
      requires p0 <= |token|
      ensures p == SkipSeparator(token, p0)
    {
      p := p0;
      while p < |token| && !IsDigit(token[p]) && token[p] != ']'
        invariant p0 <= p <= |token| && SkipSeparator(token, p) == SkipSeparator(token, p0)
        decreases |token| - p
      {
        p := p + 1;
      }
    }

    /** The digit loop of `parseDaysListToMask`: `n = n * 10 + digit` while digits last. */
    static method ReadNumber(token: string, p0: nat) returns (n: int, has: bool, p: nat)
      requires p0 <= |token|
      ensures p == SkipDigits(token, p0) && n == Accumulate(token, p0, 0)
      ensures has == (p0 < p)
    {
      p := p0;
      n := 0;
      has := false;
      while p < |token| && IsDigit(token[p])
        invariant p0 <= p <= |token| && has == (p0 < p)
        invariant SkipDigits(token, p) == SkipDigits(token, p0)
        invariant Accumulate(token, p, n) == Accumulate(token, p0, 0)
        decreases |token| - p
      {
        has := true;
        n := n * 10 + DigitValue(token[p]);
        p := p + 1;
      }
    }

    /**
     * `readLine(buf, maxLen, timeout)`: characters are taken while they are
     * waiting and the buffer has room; the line is NUL-terminated and
     * trimmed. It reports whether anything was read and the line is not blank.
     */
    method ReadLine(buf: array<char>, maxLen: nat) returns (ok: bool)
      requires maxLen <= buf.Length
      modifies this`rx, buf
      ensures maxLen == 0 ==> !ok && rx == old(rx) && buf[..] == old(buf[..])
      ensures maxLen > 0 ==>
        && rx == Collect(old(rx), [], maxLen).1
        && NUL in buf[..]
        && CString(buf[..]) == Trim(CString(Collect(old(rx), [], maxLen).0))
        && ok == (|rx| < |old(rx)| && CString(buf[..]) != "")
    {
      if maxLen == 0 {
        return false;
      }
      var idx: nat := 0;
      var sawChar := false;
      ghost var stored: seq<char> := [];
      while idx + 1 < maxLen && |rx| > 0
        invariant idx < maxLen && idx == |stored| && buf[..idx] == stored
        invariant Collect(rx, stored, maxLen) == Collect(old(rx), [], maxLen)
        invariant sawChar == (|rx| < |old(rx)|)
        decreases |rx|
      {
        var c := rx[0];
        rx := rx[1..];
        sawChar := true;
        if c == '\r' {
          continue;
        }
        if c == '\n' {
          break;
        }
        buf[idx] := c;
        idx := idx + 1;
        stored := stored + [c];
      }
      assert Collect(old(rx), [], maxLen) == (stored, rx);
      buf[idx] := NUL;
      assert buf[..idx] == stored;
      CStringAtNul(buf[..], idx);
      TrimInPlace(buf);
      ok := sawChar && buf[0] != NUL;
    }

    /**
     * The end of the last token: back from the end of the line over white
     * space, never before the token's start `p`.
     */
    static method TextEnd(line: array<char>, p: nat, n: nat) returns (end: nat)
      requires n <= line.Length && p <= n
      ensures end == BackOverSpaces(line[..n], p, n)
    {
      ghost var s := line[..n];
      end := n;
      while end > p && IsSpace(line[end - 1])
        invariant p <= end <= n
        invariant BackOverSpaces(s, p, end) == BackOverSpaces(s, p, n)
        decreases end
      {
        assert line[end - 1] == s[end - 1];
        end := end - 1;
      }
    }

    /**
     * The tokenizer of `loop` on the line buffer: up to four words cut at
     * white space, then the rest of the line, without its trailing white
     * space, as one more token.
     */
    static method SplitLine(line: array<char>) returns (tokens: seq<string>)
      requires NUL in line[..]
      ensures tokens == Tokenize(CString(line[..]))
    {
      var n := StrLen(line);
      HoldsCString(line);
      var text := line[..n];
      var p;
      tokens, p := CutWords(line, n, text);
      CutEnd(text, tokens, p, Tokenize(text));
      if line[p] != NUL {
        var end := TextEnd(line, p, n);
        tokens := tokens + [text[p..end]];
      }
    }

    /**
     * The word loop of the tokenizer: it stops at the end of the line, or
     * with four words cut and `p` at the start of the rest of the line.
     */
    static method CutWords(line: array<char>, n: nat, text: string) returns (tokens: seq<string>, p: nat)
      requires Holds(line, n) == true && text == line[..n]
      ensures p <= n && |tokens| <= MAX_SPLIT_TOKENS
      ensures CutSoFar(text, tokens, p, Tokenize(text)) == true
      ensures p == n || |tokens| == MAX_SPLIT_TOKENS
    {
      p := SpacesFrom(line, text, 0);
      tokens := [];
      ghost var all := Tokenize(text);
      assert CutSoFar(text, tokens, p, all) == true;
      while line[p] != NUL && |tokens| < MAX_SPLIT_TOKENS
        invariant p <= n && |tokens| <= MAX_SPLIT_TOKENS
        invariant CutSoFar(text, tokens, p, all) == true
        decreases n - p
      {
        var last;
        tokens, p, last := CutOne(line, n, text, tokens, p, all);
        if last {
          break;
        }
      }
    }

    /**
     * One pass of the word loop: the word at `p` becomes a token; then either
     * the line has ended, or `p` moves past the blanks after the word.
     */
    static method CutOne(line: array<char>, n: nat, text: string, tokens: seq<string>, p: nat, ghost all: seq<string>)
      returns (tokens': seq<string>, p': nat, last: bool)
      requires Holds(line, n) == true && text == line[..n]
      requires p < n && |tokens| < MAX_SPLIT_TOKENS && CutSoFar(text, tokens, p, all) == true
      ensures |tokens'| == |tokens| + 1 && p' <= n
      ensures CutSoFar(text, tokens', p', all) == true
      ensures last ==> p' == n
      ensures !last ==> p < p'
    {
      var e := WordFrom(line, text, p);
      CutWord(text, tokens, p, e, text[p..e], all);
      NulOnlyAtEnd(line, text, e);
      tokens' := tokens + [text[p..e]];
      if line[e] == NUL {
        p', last := e, true;
        CutDone(text, tokens', all);
      } else {
        p' := SpacesFrom(line, text, e + 1);
        last := false;
      }
    }
  }
}
