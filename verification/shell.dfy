/**
 * The sequential parts of shell.c: the ten-slot command history, its
 * newest-first listing, the `!!` recall, and the tokenizer with trailing
 * `&` detection at the start of `parse_and_exec`.
 *
 * C strings are modelled by their contents (the characters before the
 * terminating NUL).
 */
module Shell {
  import opened Wrappers

  const HISTORY_MAX: nat := 10
  const CMDLEN_MAX: nat := 4096
  /** `argv` holds 128 pointers, the last one reserved for the NULL terminator. */
  const MAX_ARGS: nat := 127

  function Min(a: nat, b: nat): nat {
    if a < b then a else b
  }

  /**
   * `strncpy(dst, s, CMDLEN_MAX - 1); dst[CMDLEN_MAX - 1] = '\0'`: the
   * string as stored, cut to at most CMDLEN_MAX - 1 characters.
   */
  function Clip(s: string): (r: string)
    ensures |r| == Min(|s|, CMDLEN_MAX - 1)
    ensures |s| <= CMDLEN_MAX - 1 ==> r == s
    ensures r <= s
  {
    if |s| <= CMDLEN_MAX - 1 then s else s[..CMDLEN_MAX - 1]
  }

  /** Clipping a stored entry again changes nothing. */
  lemma ClipIdempotent(s: string)
    ensures Clip(Clip(s)) == Clip(s)
  {
  }

  /** The ring slot holding the i-th oldest entry of the window. */
  function SlotOf(start: nat, i: nat): nat {
    (start + i) % HISTORY_MAX
  }

  /**
   * shell.c:160-161: the number the listing gives its first (newest) row,
   * `history_count + (history_count >= HISTORY_MAX ? history_start : 0) - 1`.
   */
  function StartNum(count: nat, start: nat): int {
    count + (if count >= HISTORY_MAX then start else 0) - 1
  }

  /**
   * After n commands the history holds min(n, 10) entries and, once full,
   * starts at slot n % 10. The listing then numbers the newest entry n - 1,
   * its position in the session, exactly while n < 20: from the twentieth
   * command on the numbers start again from 9 every ten commands.
   */
  lemma StartNumCountsCommands(n: nat)
    ensures StartNum(Min(n, HISTORY_MAX), if n < HISTORY_MAX then 0 else n % HISTORY_MAX) == n - 1
            <==> n < 2 * HISTORY_MAX
  {
  }

  /** Once the ring is full its window starts one slot further on. */
  lemma SlotShift(s: nat, i: nat, full: bool)
    requires s < HISTORY_MAX
    ensures SlotOf(if full then (s + 1) % HISTORY_MAX else s, i)
            == SlotOf(s, if full then i + 1 else i)
  {
  }

  /** Distinct positions of the window lie in distinct slots. */
  lemma SlotsDistinct(s: nat, i: nat, j: nat)
    requires i < j <= HISTORY_MAX && (i > 0 || j < HISTORY_MAX)
    ensures SlotOf(s, i) != SlotOf(s, j)
  {
  }

  /**
   * The ring `sl` with `count` entries from slot `start` holds the last
   * min(|log|, 10) entries of `log`, oldest first; the window starts at
   * slot 0 until the ring first fills and then at |log| % 10.
   */
  ghost predicate Window(sl: seq<string>, count: nat, start: nat, log: seq<string>) {
    && |sl| == HISTORY_MAX
    && count == Min(|log|, HISTORY_MAX)
    && start == (if |log| < HISTORY_MAX then 0 else |log| % HISTORY_MAX)
    && (forall k :: 0 <= k < |log| ==> |log[k]| <= CMDLEN_MAX - 1)
    && (forall i :: 0 <= i < count ==> sl[SlotOf(start, i)] == log[|log| - count + i])
  }

  /** Writing the next slot as add_history does keeps the window in step with the log. */
  lemma WindowAdd(sl: seq<string>, count: nat, start: nat, log: seq<string>, entry: string)
    requires Window(sl, count, start, log) && |entry| <= CMDLEN_MAX - 1
    ensures
      var full := count == HISTORY_MAX;
      Window(sl[SlotOf(start, count) := entry],
             if full then count else count + 1,
             if full then (start + 1) % HISTORY_MAX else start,
             log + [entry])
  {
    var full := count == HISTORY_MAX;
    var sl', count', start', log' := sl[SlotOf(start, count) := entry],
      if full then count else count + 1, if full then (start + 1) % HISTORY_MAX else start, log + [entry];
    forall i | 0 <= i < count'
      ensures sl'[SlotOf(start', i)] == log'[|log'| - count' + i]
    {
      if i < count' - 1 {
        WindowKeeps(sl, count, start, log, entry, i);
      }
    }
  }

  /** An entry that stays in the window keeps its slot's contents. */
  lemma WindowKeeps(sl: seq<string>, count: nat, start: nat, log: seq<string>, entry: string, i: nat)
    requires Window(sl, count, start, log)
    requires i + 1 < (if count == HISTORY_MAX then count else count + 1)
    ensures var full := count == HISTORY_MAX;
      var j := if full then i + 1 else i;
      && SlotOf(if full then (start + 1) % HISTORY_MAX else start, i) == SlotOf(start, j)
      && SlotOf(start, j) != SlotOf(start, count)
      && j < count
      && sl[SlotOf(start, j)] == log[|log| - count + j]
  {
    var full := count == HISTORY_MAX;
    var j := if full then i + 1 else i;
    SlotShift(start, i, full);
    SlotsDistinct(start, j, count);
  }

  /** One row of the `history` listing: a command number and the entry. */
  datatype Row = Row(number: int, command: string)

  /**
   * The globals `history`, `history_count` and `history_start`. The ghost
   * `log` is every entry ever added, oldest first; the ring keeps its last
   * ten.
   */
  class History {
    const slots: array<string>
    var count: nat
    var start: nat
    ghost var log: seq<string>

    ghost predicate Valid()
      reads this, slots
    {
      Window(slots[..], count, start, log)
    }

    /** The zero-initialised globals: ten empty slots, nothing recorded. */
    constructor ()
      ensures Valid() && count == 0 && start == 0 && log == []
      ensures fresh(slots)
    {
      slots := new string[HISTORY_MAX](_ => "");
      count := 0;
      start := 0;
      log := [];
    }

    /**
     * shell.c:20-40. While there is room the entry goes to slot
     * `(start + count) % 10` and the count grows; once full it overwrites the
     * oldest entry at `start`, which moves on by one. The newline-stripped
     * copy `clean` that the source computes is never used, so a trailing
     * newline is stored.
     */
    method AddHistory(cmdline: string)
      requires Valid()
      modifies this, slots
      ensures Valid()
      ensures log == old(log) + [Clip(cmdline)]
      ensures old(count) < HISTORY_MAX ==> count == old(count) + 1 && start == old(start)
      ensures old(count) == HISTORY_MAX ==>
        count == HISTORY_MAX && start == (old(start) + 1) % HISTORY_MAX
      ensures slots[SlotOf(old(start), old(count))] == Clip(cmdline)
      ensures slots[SlotOf(start, count - 1)] == Clip(cmdline)
      ensures forall j :: 0 <= j < HISTORY_MAX && j != SlotOf(old(start), old(count)) ==>
        slots[j] == old(slots[j])
    {
      var entry := Clip(cmdline);
      WindowAdd(slots[..], count, start, log, entry);
      var x := (start + count) % HISTORY_MAX;
      if count < HISTORY_MAX {
        slots[x] := entry;
        count := count + 1;
      } else {
        slots[start] := entry;
        start := (start + 1) % HISTORY_MAX;
      }
      log := log + [entry];
    }

    /**
     * shell.c:159-171 without the output: `min(count, 10)` rows, newest
     * first, row i showing slot `(start + total - i - 1) % 10` under the
     * number `start_num - i`.
     */
    method Listing() returns (rows: seq<Row>)
      requires Valid()
      ensures |rows| == count
      ensures forall i :: 0 <= i < |rows| ==> rows[i].command == log[|log| - 1 - i]
      ensures forall i :: 0 <= i < |rows| ==> rows[i].number == StartNum(count, start) - i
    {
      var total := if count < HISTORY_MAX then count else HISTORY_MAX;
      var startNum := StartNum(count, start);
      rows := [];
      var i := 0;
      while i < total
        invariant i <= total && |rows| == i
        invariant forall r :: 0 <= r < i ==> rows[r] == Row(startNum - r, log[|log| - 1 - r])
      {
        var x := (start + total - i - 1) % HISTORY_MAX;
        assert x == SlotOf(start, total - 1 - i);
        rows := rows + [Row(startNum - i, slots[x])];
        i := i + 1;
      }
    }

    /**
     * shell.c:258-288 without the output and the execution, ended by the
     * `continue` that the `!n` branch has (shell.c:321): `!!` fails on an
     * empty history; otherwise the walk over the window stops at the entry
     * numbered `start_num`, the newest one, which is recorded again and
     * returned.
     */
    method Recall() returns (cmd: Option<string>)
      requires Valid()
      modifies this, slots
      ensures Valid()
      ensures old(count) == 0 ==> cmd.None? && log == old(log)
      ensures old(count) == 0 ==> count == old(count) && start == old(start) && unchanged(slots)
      ensures old(count) > 0 ==> cmd == Some(old(log)[|old(log)| - 1])
      ensures old(count) > 0 ==> log == old(log) + [cmd.value]
    {
      if count == 0 {
        return None;
      }
      var startNum := StartNum(count, start);
      var i := 0;
      while startNum - (count - 1) + i != startNum
        invariant i <= count - 1
        decreases count - 1 - i
      {
        i := i + 1;
      }
      var x := (start + i) % HISTORY_MAX;
      assert x == SlotOf(start, count - 1);
      var temp := Clip(slots[x]);
      AddHistory(temp);
      cmd := Some(temp);
    }

    /**
     * shell.c:258-324 for the line "!!" as written: the `!!` branch has no
     * `continue`, so after a successful recall control falls through the
     * `!n` test (shell.c:290, false since the second character is '!') to
     * `add_history(buffer)` (shell.c:323), and "!!" itself becomes the
     * newest entry. A second `!!` then recalls "!!" rather than the command.
     */
    method RecallAsWritten() returns (cmd: Option<string>)
      requires Valid()
      modifies this, slots
      ensures Valid()
      ensures old(count) == 0 ==> cmd.None? && log == old(log)
      ensures old(count) == 0 ==> count == old(count) && start == old(start) && unchanged(slots)
      ensures old(count) > 0 ==> cmd == Some(old(log)[|old(log)| - 1])
      ensures old(count) > 0 ==> log == old(log) + [cmd.value, "!!"]
      ensures old(count) > 0 ==> slots[SlotOf(start, count - 1)] == "!!"
    {
      cmd := Recall();
      if cmd.Some? {
        AddHistory("!!");
      }
    }
  }

  // ---------------------------------------------------------------------------
  // shell.c:61-91 — tokenizing and background detection
  // ---------------------------------------------------------------------------

  /** The delimiter set "\t\n" given to strtok_r; a space is not a delimiter. */
  predicate IsDelim(c: char) {
    c == '\t' || c == '\n'
  }

  /** The length of the run of non-delimiters at the front of s. */
  function RunLength(s: string): (n: nat)
    ensures n <= |s|
    ensures forall i :: 0 <= i < n ==> !IsDelim(s[i])
    ensures n < |s| ==> IsDelim(s[n])
  {
    if s == [] || IsDelim(s[0]) then 0 else 1 + RunLength(s[1..])
  }

  /** The maximal runs of non-delimiter characters of s, in order. */
  function Tokens(s: string): seq<string>
    decreases |s|
  {
    if s == [] then []
    else if IsDelim(s[0]) then Tokens(s[1..])
    else
      var n := RunLength(s);
      [s[..n]] + Tokens(s[n..])
  }

  /** s with its delimiters removed. */
  function Strip(s: string): string {
    if s == [] then [] else (if IsDelim(s[0]) then [] else [s[0]]) + Strip(s[1..])
  }

  function Concat(ts: seq<string>): string {
    if ts == [] then [] else ts[0] + Concat(ts[1..])
  }

  lemma {:induction false} StripConcat(a: string, b: string)
    ensures Strip(a + b) == Strip(a) + Strip(b)
  {
    if a != [] {
      assert (a + b)[1..] == a[1..] + b;
      StripConcat(a[1..], b);
    } else {
      assert a + b == b;
    }
  }

  lemma {:induction false} StripRun(s: string)
    requires forall i :: 0 <= i < |s| ==> !IsDelim(s[i])
    ensures Strip(s) == s
  {
    if s != [] {
      StripRun(s[1..]);
    }
  }

  /** Every token is non-empty and holds no delimiter. */
  lemma {:induction false} TokensAreRuns(s: string)
    ensures forall t :: t in Tokens(s) ==> |t| > 0 && forall i :: 0 <= i < |t| ==> !IsDelim(t[i])
    decreases |s|
  {
    if s != [] {
      if IsDelim(s[0]) {
        TokensAreRuns(s[1..]);
      } else {
        TokensAreRuns(s[RunLength(s)..]);
      }
    }
  }

  /** The tokens, put back together, are the line without its delimiters. */
  lemma {:induction false} TokensCover(s: string)
    ensures Concat(Tokens(s)) == Strip(s)
    decreases |s|
  {
    if s != [] {
      if IsDelim(s[0]) {
        TokensCover(s[1..]);
      } else {
        var n := RunLength(s);
        TokensCover(s[n..]);
        assert s == s[..n] + s[n..];
        StripConcat(s[..n], s[n..]);
        StripRun(s[..n]);
        assert ([s[..n]] + Tokens(s[n..]))[1..] == Tokens(s[n..]);
      }
    }
  }

  /** strtok_r's skip over leading delimiters; they contribute no token. */
  method SkipDelims(line: string, pos: nat) returns (p: nat)
    requires pos <= |line|
    ensures pos <= p <= |line|
    ensures p < |line| ==> !IsDelim(line[p])
    ensures Tokens(line[p..]) == Tokens(line[pos..])
  {
    p := pos;
    while p < |line| && IsDelim(line[p])
      invariant pos <= p <= |line|
      invariant Tokens(line[p..]) == Tokens(line[pos..])
    {
      assert line[p..][1..] == line[p + 1..];
      p := p + 1;
    }
  }

  /** strtok_r's search for the delimiter that ends the current token. */
  method RunEnd(line: string, pos: nat) returns (end: nat)
    requires pos <= |line|
    ensures pos <= end <= |line|
    ensures end - pos == RunLength(line[pos..])
  {
    end := pos;
    while end < |line| && !IsDelim(line[end])
      invariant pos <= end <= |line|
      invariant forall i :: pos <= i < end ==> !IsDelim(line[i])
    {
      end := end + 1;
    }
    RunLengthIs(line[pos..], end - pos);
  }

  /** A run of m non-delimiters ended by a delimiter or by the end has length m. */
  lemma {:induction false} RunLengthIs(s: string, m: nat)
    requires m <= |s|
    requires forall i :: 0 <= i < m ==> !IsDelim(s[i])
    requires m < |s| ==> IsDelim(s[m])
    ensures RunLength(s) == m
  {
    if m > 0 {
      RunLengthIs(s[1..], m - 1);
    }
  }

  /**
   * shell.c:62-70: the strtok_r loop. Leading delimiters are skipped, each
   * token is cut at the next delimiter, and collection stops after 127
   * tokens.
   */
  method Tokenize(line: string) returns (argv: seq<string>)
    ensures argv == Tokens(line)[..Min(|Tokens(line)|, MAX_ARGS)]
  {
    argv := [];
    var pos := 0;
    while |argv| < MAX_ARGS
      invariant pos <= |line| && |argv| <= MAX_ARGS
      invariant argv + Tokens(line[pos..]) == Tokens(line)
      decreases |line| - pos
    {
      pos := SkipDelims(line, pos);
      if pos == |line| {
        break;
      }
      var end := RunEnd(line, pos);
      TokenAt(line, pos, end);
      argv := argv + [line[pos..end]];
      pos := end;
    }
    TokenizeDone(line, argv, pos);
  }

  /** The token starting at a non-delimiter at pos runs up to `end`. */
  lemma TokenAt(line: string, pos: nat, end: nat)
    requires pos < end <= |line| && !IsDelim(line[pos])
    requires end - pos == RunLength(line[pos..])
    ensures Tokens(line[pos..]) == [line[pos..end]] + Tokens(line[end..])
  {
    var rest := line[pos..];
    assert rest[..end - pos] == line[pos..end] && rest[end - pos..] == line[end..];
  }

  /** When the loop stops, the collected tokens are the first ones of the line. */
  lemma TokenizeDone(line: string, argv: seq<string>, pos: nat)
    requires pos <= |line| && |argv| <= MAX_ARGS
    requires argv + Tokens(line[pos..]) == Tokens(line)
    requires |argv| < MAX_ARGS ==> pos == |line|
    ensures argv == Tokens(line)[..Min(|Tokens(line)|, MAX_ARGS)]
  {
    var ts := Tokens(line);
    assert argv == ts[..|argv|];
    if |argv| < MAX_ARGS {
      assert line[pos..] == [];
    }
  }

  /** What `parse_and_exec` goes on to run: the arguments and whether in the background. */
  datatype Command = Command(args: seq<string>, background: bool)

  /**
   * shell.c:72-91: a last argument "&" is dropped, a longer last argument
   * ending in '&' loses that character, and either way the command runs in
   * the background. No arguments, before or after dropping "&", means
   * nothing to run.
   */
  function Background(argv: seq<string>): (r: Option<Command>)
  {
    if |argv| == 0 then None
    else
      var n := |argv| - 1;
      var last := argv[n];
      if last == "&" then
        if n == 0 then None else Some(Command(argv[..n], true))
      else if |last| > 1 && last[|last| - 1] == '&' then
        Some(Command(argv[..n] + [last[..|last| - 1]], true))
      else
        Some(Command(argv, false))
  }

  lemma {:induction false} ConcatAppend(ts: seq<string>, t: string)
    ensures Concat(ts + [t]) == Concat(ts) + t
  {
    if ts == [] {
      assert [] + [t] == [t];
      assert [t][1..] == [];
    } else {
      assert (ts + [t])[1..] == ts[1..] + [t];
      ConcatAppend(ts[1..], t);
    }
  }

  /**
   * Background detection loses nothing but the '&': the command's
   * arguments followed by "&" when it runs in the background spell out the
   * original arguments; all arguments but the last are kept as they were;
   * and the command runs in the background exactly when the last argument
   * ends in '&'.
   */
  lemma BackgroundSpec(argv: seq<string>)
    requires forall i :: 0 <= i < |argv| ==> |argv[i]| > 0
    ensures Background(argv).Some? <==> argv != [] && argv != ["&"]
    ensures Background(argv).Some? ==>
      var c := Background(argv).value;
      && Concat(c.args) + (if c.background then "&" else "") == Concat(argv)
      && |c.args| == |argv| - (if argv[|argv| - 1] == "&" then 1 else 0)
      && c.args[..|argv| - 1] == argv[..|argv| - 1]
      && (c.background <==> argv[|argv| - 1][|argv[|argv| - 1]| - 1] == '&')
  {
    if |argv| > 0 {
      var n := |argv| - 1;
      var last := argv[n];
      assert argv == argv[..n] + [last];
      ConcatAppend(argv[..n], last);
      if last != "&" && |last| > 1 && last[|last| - 1] == '&' {
        ConcatAppend(argv[..n], last[..|last| - 1]);
        assert last == last[..|last| - 1] + "&";
      }
      if last == "&" && n > 0 {
        assert Concat(argv) == Concat(argv[..n]) + "&";
      }
      if |last| == 1 && last[0] == '&' {
        assert last == "&";
      }
    }
  }

  /**
   * shell.c:61-91: the line is tokenized and the background marker
   * removed; None when there is nothing to run.
   */
  method Parse(line: string) returns (cmd: Option<Command>)
    ensures cmd == Background(Tokens(line)[..Min(|Tokens(line)|, MAX_ARGS)])
  {
    var argv := Tokenize(line);
    cmd := Background(argv);
  }
}
