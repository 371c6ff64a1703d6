/**
 * client.c: the chat client's byte-level logic. `convert` renders random
 * bytes in base16 (section 8 of RFC 4648, upper-case alphabet), `main`
 * frames each rendering as a type-0 message, and the receiver thread cuts
 * the bytes arriving from the server into frames.
 *
 * Incoming frames are
 *   type 0: 0x00, four address bytes, two port bytes (network order),
 *           the text, '\n';
 *   type 1: 0x01, the server's shutdown signal;
 * and any other leading byte is skipped.
 */
module Client {
  import opened Wrappers

  type Byte = b: int | 0 <= b < 256

  /** `uint8_t recv_buf[1024]`: the most one `read` returns. */
  const RECV_SIZE: nat := 1024
  /** `uint8_t buffer[4096]`: bytes kept between reads. */
  const BUFFER_SIZE: nat := 4096
  /** `char message[1024]`: the text buffer of one printed message. */
  const MESSAGE_SIZE: nat := 1024
  /** Type byte, four address bytes and two port bytes. */
  const FRAME_HEADER: nat := 7
  const NEWLINE: Byte := 10
  const CHAT: Byte := 0
  const SHUTDOWN: Byte := 1

  // ---------------------------------------------------------------------
  // Base16

  /** The upper-case hex digit of a nibble, as `%02X` prints it. */
  function HexDigit(n: nat): (c: char)
    requires n < 16
    ensures ('0' <= c <= '9' || 'A' <= c <= 'F') && c != '\0' && c != '\n'
  {
    if n < 10 then (48 + n) as char else (55 + n) as char
  }

  /** The nibble an upper-case hex digit stands for. */
  function HexValue(c: char): (r: Option<nat>)
    ensures r.Some? <==> ('0' <= c <= '9' || 'A' <= c <= 'F')
    ensures r.Some? ==> r.value < 16 && HexDigit(r.value) == c
  {
    if '0' <= c <= '9' then Some(c as int - 48)
    else if 'A' <= c <= 'F' then Some(c as int - 55)
    else None
  }

  lemma HexValueDigit(n: nat)
    requires n < 16
    ensures HexValue(HexDigit(n)) == Some(n)
  {
  }

  /** Two digits per byte, high nibble first. */
  function Hex(bytes: seq<Byte>): (s: seq<char>)
    ensures |s| == 2 * |bytes|
  {
    if bytes == [] then [] else [HexDigit(bytes[0] / 16), HexDigit(bytes[0] % 16)] + Hex(bytes[1..])
  }

  /** Byte i is rendered at offsets 2i and 2i + 1, high nibble first. */
  lemma {:induction false} HexAt(bytes: seq<Byte>, i: nat)
    requires i < |bytes|
    ensures Hex(bytes)[2 * i] == HexDigit(bytes[i] / 16)
    ensures Hex(bytes)[2 * i + 1] == HexDigit(bytes[i] % 16)
  {
    if i > 0 {
      HexAt(bytes[1..], i - 1);
      assert Hex(bytes)[2 * i] == Hex(bytes[1..])[2 * (i - 1)];
      assert Hex(bytes)[2 * i + 1] == Hex(bytes[1..])[2 * (i - 1) + 1];
    }
  }

  /** Base16 decoding: None unless the text is pairs of upper-case hex digits. */
  function Unhex(s: seq<char>): (r: Option<seq<Byte>>)
    ensures r.Some? ==> 2 * |r.value| == |s|
    decreases |s|
  {
    if s == [] then Some([])
    else if |s| == 1 then None
    else match (HexValue(s[0]), HexValue(s[1]), Unhex(s[2..]))
      case (Some(hi), Some(lo), Some(rest)) => Some([hi * 16 + lo] + rest)
      case _ => None
  }

  /** Decoding the rendering gives the bytes back. */
  lemma {:induction false} UnhexHex(bytes: seq<Byte>)
    ensures Unhex(Hex(bytes)) == Some(bytes)
  {
    if bytes != [] {
      var b := bytes[0];
      var s := Hex(bytes);
      HexValueDigit(b / 16);
      HexValueDigit(b % 16);
      assert s[2..] == Hex(bytes[1..]);
      UnhexHex(bytes[1..]);
      assert [b] + bytes[1..] == bytes;
    }
  }

  /** Every text that decodes is the rendering of what it decodes to. */
  lemma {:induction false} HexUnhex(s: seq<char>)
    requires Unhex(s).Some?
    ensures Hex(Unhex(s).value) == s
    decreases |s|
  {
    if s != [] {
      var bytes := Unhex(s).value;
      HexUnhex(s[2..]);
      var hi := HexValue(s[0]).value;
      var lo := HexValue(s[1]).value;
      assert bytes[0] == hi * 16 + lo && bytes[1..] == Unhex(s[2..]).value;
      assert bytes[0] / 16 == hi && bytes[0] % 16 == lo;
      assert Hex(bytes) == [s[0], s[1]] + s[2..];
    }
  }

  /** A rendering holds no NUL, so `strlen` of it is twice the byte count; nor a newline. */
  lemma HexIsText(bytes: seq<Byte>)
    ensures forall i :: 0 <= i < |Hex(bytes)| ==>
      Hex(bytes)[i] != '\0' && Hex(bytes)[i] != '\n' && Hex(bytes)[i] as int < 128
  {
    var s := Hex(bytes);
    forall i | 0 <= i < |s|
      ensures s[i] != '\0' && s[i] != '\n' && s[i] as int < 128
    {
      HexAt(bytes, i / 2);
      assert i == 2 * (i / 2) || i == 2 * (i / 2) + 1;
    }
  }

  /** The failure conditions of `convert` (client.c:14-15). */
  predicate ConvertRefuses(bufPresent: bool, bufSize: int, strPresent: bool, strSize: int) {
    !bufPresent || !strPresent || bufSize <= 0 || strSize < bufSize * 2 + 1
  }

  /**
   * client.c:13-22: -1, with `str` untouched, when either pointer is NULL,
   * `buf_size` is not positive or `str` cannot hold the rendering and its
   * NUL; otherwise 0, with the rendering of the first `buf_size` bytes at
   * the front of `str`, a NUL after it and the rest of `str` untouched.
   * Each `%02X` writes two digits and a NUL, the next step overwriting that
   * NUL.
   */
  method Convert(buf: array?<Byte>, bufSize: int, str: array?<char>, strSize: int) returns (rc: int)
    requires !ConvertRefuses(buf != null, bufSize, str != null, strSize) ==>
      bufSize <= buf.Length && strSize <= str.Length
    modifies str
    ensures rc == -1 <==> ConvertRefuses(buf != null, bufSize, str != null, strSize)
    ensures rc == 0 || rc == -1
    ensures rc == -1 && str != null ==> unchanged(str)
    ensures rc == 0 ==>
      && str[..2 * bufSize] == Hex(buf[..bufSize])
      && str[2 * bufSize] == '\0'
      && str[2 * bufSize + 1..] == old(str[2 * bufSize + 1..])
  {
    if buf == null || str == null || bufSize <= 0 || strSize < bufSize * 2 + 1 {
      return -1;
    }
    ghost var hex := Hex(buf[..bufSize]);
    var i := 0;
    while i < bufSize
      invariant 0 <= i <= bufSize
      invariant forall k :: 0 <= k < 2 * i ==> str[k] == hex[k]
      invariant forall k :: 2 * bufSize + 1 <= k < str.Length ==> str[k] == old(str[k])
    {
      HexAt(buf[..bufSize], i);
      str[2 * i] := HexDigit(buf[i] / 16);
      str[2 * i + 1] := HexDigit(buf[i] % 16);
      str[2 * i + 2] := '\0';
      i := i + 1;
    }
    str[bufSize * 2] := '\0';
    assert str[..2 * bufSize] == hex;
    return 0;
  }

  // ---------------------------------------------------------------------
  // Outgoing frame

  /** The frame `main` sends: a 0 byte, the text's bytes and a newline. */
  function Frame(text: seq<char>): (f: seq<Byte>)
    requires forall i :: 0 <= i < |text| ==> text[i] as int < 256
  {
    [CHAT] + seq(|text|, i requires 0 <= i < |text| => text[i] as int as Byte) + [NEWLINE]
  }

  /** What a newline-delimited reader takes from a type-0 frame: the text before the first newline. */
  function FrameText(f: seq<Byte>): (r: Option<seq<char>>)
    ensures r.Some? ==> |r.value| + 2 <= |f|
  {
    if |f| < 2 || f[0] != CHAT then None
    else match NewlineFrom(f, 1)
      case None => None
      case Some(nl) => Some(seq(nl - 1, i requires 0 <= i < nl - 1 => f[i + 1] as char))
  }

  /** A frame of a base16 rendering is two bytes longer and gives the rendering back. */
  lemma FrameRoundTrip(bytes: seq<Byte>)
    ensures forall i :: 0 <= i < |Hex(bytes)| ==> Hex(bytes)[i] as int < 256
    ensures |Frame(Hex(bytes))| == |Hex(bytes)| + 2
    ensures FrameText(Frame(Hex(bytes))) == Some(Hex(bytes))
  {
    var s := Hex(bytes);
    HexIsText(bytes);
    var f := Frame(s);
    forall i | 1 <= i < |f| - 1
      ensures f[i] == s[i - 1] as int && f[i] != NEWLINE && f[i] as char == s[i - 1]
    {
      assert f[i] == seq(|s|, j requires 0 <= j < |s| => s[j] as int as Byte)[i - 1];
    }
    assert f[|f| - 1] == NEWLINE;
    NewlineFromFirst(f, 1);
    assert NewlineFrom(f, 1) == Some(|f| - 1);
    assert seq(|f| - 2, i requires 0 <= i < |f| - 2 => f[i + 1] as char) == s;
  }

  /**
   * client.c:181-187: the frame is built in `send_buf[64]` and
   * `1 + hex_len + 1` bytes of it are sent.
   */
  method BuildFrame(hex: seq<char>) returns (sendBuf: array<Byte>, totalLen: nat)
    requires |hex| + 2 <= 64
    requires forall i :: 0 <= i < |hex| ==> hex[i] as int < 256
    ensures fresh(sendBuf) && sendBuf.Length == 64
    ensures totalLen == |hex| + 2 && sendBuf[..totalLen] == Frame(hex)
  {
    sendBuf := new Byte[64](_ => 0);
    sendBuf[0] := CHAT;
    var i := 0;
    while i < |hex|
      invariant 0 <= i <= |hex|
      invariant sendBuf[0] == CHAT
      invariant forall k :: 0 <= k < i ==> sendBuf[1 + k] == hex[k] as int
    {
      sendBuf[1 + i] := hex[i] as int;
      i := i + 1;
    }
    sendBuf[1 + |hex|] := NEWLINE;
    totalLen := 1 + |hex| + 1;
  }

  // ---------------------------------------------------------------------
  // Incoming frames

  /**
   * A received chat line: sender address and port, and the bytes `message`
   * holds before the terminator written at client.c:99.
   */
  datatype Message = Message(ip: seq<Byte>, port: nat, text: seq<Byte>)

  /** Messages cut from a buffer, how many leading bytes were used, and whether a shutdown byte was met. */
  datatype Scan = Scan(messages: seq<Message>, consumed: nat, shutdown: bool)

  /** What the scan does at one position. */
  datatype Step =
    | Halt(shutdown: bool)         // a shutdown byte, or an unfinished frame
    | Took(m: Message, next: nat)  // a complete type-0 frame, ending before `next`
    | Skipped                      // any other byte

  /** The index of the first newline at or after `from`. */
  function NewlineFrom(buf: seq<Byte>, from: nat): (r: Option<nat>)
    requires from <= |buf|
    ensures r.Some? ==> from <= r.value < |buf| && buf[r.value] == NEWLINE
    decreases |buf| - from
  {
    if from == |buf| then None
    else if buf[from] == NEWLINE then Some(from)
    else NewlineFrom(buf, from + 1)
  }

  /** The newline found is the first one, and None means there is none. */
  lemma {:induction false} NewlineFromFirst(buf: seq<Byte>, from: nat)
    requires from <= |buf|
    ensures NewlineFrom(buf, from).Some? ==>
      forall j :: from <= j < NewlineFrom(buf, from).value ==> buf[j] != NEWLINE
    ensures NewlineFrom(buf, from).None? ==> forall j :: from <= j < |buf| ==> buf[j] != NEWLINE
    decreases |buf| - from
  {
    if from < |buf| && buf[from] != NEWLINE {
      NewlineFromFirst(buf, from + 1);
    }
  }

  /**
   * client.c:71-81: the newline ending the type-0 frame at `pos`, when its
   * 7-byte header is complete and a newline follows the header.
   */
  function FrameEnd(buf: seq<Byte>, pos: nat): (r: Option<nat>)
    requires pos < |buf|
    ensures r.Some? ==> pos + FRAME_HEADER <= r.value < |buf| && buf[r.value] == NEWLINE
    ensures r.Some? ==> forall j :: pos + FRAME_HEADER <= j < r.value ==> buf[j] != NEWLINE
    ensures r.None? <==>
      |buf| - pos < FRAME_HEADER || forall j :: pos + FRAME_HEADER <= j < |buf| ==> buf[j] != NEWLINE
  {
    if |buf| - pos < FRAME_HEADER then None
    else
      NewlineFromFirst(buf, pos + FRAME_HEADER);
      NewlineFrom(buf, pos + FRAME_HEADER)
  }

  /**
   * The index `message[...] = '\0'` writes for a text of `contentLen`
   * bytes, as client.c:99 computes it.
   */
  function TerminatorIndex(contentLen: int): nat {
    if contentLen > 0 then contentLen else 0
  }

  /**
   * For every complete type-0 frame, the terminator of client.c:99 lands
   * outside `char message[1024]` exactly when the frame's text is 1024
   * bytes or longer, although the copy of client.c:96-98 is then skipped.
   */
  lemma TerminatorOutside(buf: seq<Byte>, pos: nat)
    requires pos < |buf| && buf[pos] == CHAT && FrameEnd(buf, pos).Some?
    ensures var nl := FrameEnd(buf, pos).value;
      && Cut(buf, pos).Took?
      && (TerminatorIndex(nl - (pos + FRAME_HEADER)) >= MESSAGE_SIZE
          <==> |buf[pos + FRAME_HEADER..nl]| >= MESSAGE_SIZE)
  {
  }

  /**
   * A text of 1024 bytes or more is not copied, yet its terminator is
   * written at index `content_len`, past the end of `message`. The
   * buffer below fits the 4096-byte receive buffer and holds exactly such
   * a frame.
   */
  lemma TerminatorPastMessage()
    ensures var buf := [CHAT, 127, 0, 0, 1, 0, 80] + seq(MESSAGE_SIZE, _ => 65) + [NEWLINE];
      && |buf| <= BUFFER_SIZE
      && FrameEnd(buf, 0) == Some(FRAME_HEADER + MESSAGE_SIZE)
      && TerminatorIndex(FrameEnd(buf, 0).value - FRAME_HEADER) >= MESSAGE_SIZE
  {
    var buf := [CHAT, 127, 0, 0, 1, 0, 80] + seq(MESSAGE_SIZE, _ => 65) + [NEWLINE];
    assert buf[FRAME_HEADER + MESSAGE_SIZE] == NEWLINE;
    assert forall j :: FRAME_HEADER <= j < FRAME_HEADER + MESSAGE_SIZE ==> buf[j] == 65;
    NewlineFromFirst(buf, FRAME_HEADER);
  }

  /**
   * What `message` holds before its terminator, with the terminator kept
   * inside `message`: the content when it fits with its NUL, and the empty
   * string otherwise (the copy is skipped).
   */
  function MessageText(content: seq<Byte>): (m: seq<Byte>)
    ensures |m| < MESSAGE_SIZE
    ensures |content| < MESSAGE_SIZE ==> m == content
    ensures |content| >= MESSAGE_SIZE ==> m == []
  {
    if 0 < |content| < MESSAGE_SIZE then content else []
  }

  /** client.c:83-99: the type-0 frame at `pos` whose newline is at `nl`. */
  function Decode(buf: seq<Byte>, pos: nat, nl: nat): Message
    requires pos + FRAME_HEADER <= nl < |buf|
  {
    Message(buf[pos + 1..pos + 5], buf[pos + 5] as int * 256 + buf[pos + 6] as int,
            MessageText(buf[pos + FRAME_HEADER..nl]))
  }

  /** client.c:63-107: what the scan does with the byte at `pos`. */
  function Cut(buf: seq<Byte>, pos: nat): (c: Step)
    requires pos < |buf|
    ensures c.Took? ==> pos < c.next <= |buf|
    ensures c == Halt(true) <==> buf[pos] == SHUTDOWN
    ensures c.Skipped? <==> buf[pos] != SHUTDOWN && buf[pos] != CHAT
    ensures c.Took? ==>
      && buf[pos] == CHAT && pos + FRAME_HEADER < c.next && buf[c.next - 1] == NEWLINE
      && forall j :: pos + FRAME_HEADER <= j < c.next - 1 ==> buf[j] != NEWLINE
    ensures c == Halt(false) <==> buf[pos] == CHAT && FrameEnd(buf, pos).None?
  {
    if buf[pos] == SHUTDOWN then Halt(true)
    else if buf[pos] != CHAT then Skipped
    else match FrameEnd(buf, pos)
      case None => Halt(false)
      case Some(nl) => Took(Decode(buf, pos, nl), nl + 1)
  }

  function Prepend(ms: seq<Message>, s: Scan): Scan {
    Scan(ms + s.messages, s.consumed, s.shutdown)
  }

  /** client.c:61-108: the frames from `pos` on. */
  function ScanFrom(buf: seq<Byte>, pos: nat): Scan
    requires pos <= |buf|
    decreases |buf| - pos
  {
    if pos == |buf| then Scan([], pos, false)
    else match Cut(buf, pos)
      case Halt(shutdown) => Scan([], pos, shutdown)
      case Took(m, next) => Prepend([m], ScanFrom(buf, next))
      case Skipped => ScanFrom(buf, pos + 1)
  }

  /** An unfinished type-0 frame: nothing, or a 0 byte with no newline from offset 7 on. */
  predicate Unfinished(t: seq<Byte>) {
    t == [] || (t[0] == CHAT && forall j :: FRAME_HEADER <= j < |t| ==> t[j] != NEWLINE)
  }

  lemma UnfinishedAt(buf: seq<Byte>, pos: nat)
    requires pos < |buf| && Cut(buf, pos) == Halt(false)
    ensures Unfinished(buf[pos..])
  {
    var t := buf[pos..];
    if |buf| - pos >= FRAME_HEADER {
      NewlineFromFirst(buf, pos + FRAME_HEADER);
    }
    assert forall j :: FRAME_HEADER <= j < |t| ==> t[j] == buf[pos + j];
  }

  /**
   * The scan stops at a shutdown byte or keeps exactly an unfinished frame:
   * everything before `consumed` has been cut into frames or skipped.
   */
  lemma {:induction false} ScanLeavesUnfinished(buf: seq<Byte>, pos: nat)
    requires pos <= |buf|
    ensures pos <= ScanFrom(buf, pos).consumed <= |buf|
    ensures ScanFrom(buf, pos).shutdown ==>
      ScanFrom(buf, pos).consumed < |buf| && buf[ScanFrom(buf, pos).consumed] == SHUTDOWN
    ensures !ScanFrom(buf, pos).shutdown ==> Unfinished(buf[ScanFrom(buf, pos).consumed..])
    decreases |buf| - pos
  {
    if pos < |buf| {
      match Cut(buf, pos) {
        case Halt(shutdown) =>
          if !shutdown {
            UnfinishedAt(buf, pos);
          }
        case Took(_, next) =>
          ScanLeavesUnfinished(buf, next);
        case Skipped =>
          ScanLeavesUnfinished(buf, pos + 1);
      }
    }
  }

  lemma {:induction false} NewlineShift(p: seq<Byte>, q: seq<Byte>, j: nat)
    requires j <= |q|
    ensures NewlineFrom(p + q, |p| + j) ==
      (if NewlineFrom(q, j).Some? then Some(|p| + NewlineFrom(q, j).value) else None)
    decreases |q| - j
  {
    if j < |q| {
      assert (p + q)[|p| + j] == q[j];
      NewlineShift(p, q, j + 1);
    }
  }

  lemma DecodeShift(p: seq<Byte>, q: seq<Byte>, k: nat, nl: nat)
    requires k + FRAME_HEADER <= nl < |q|
    ensures Decode(p + q, |p| + k, |p| + nl) == Decode(q, k, nl)
  {
    var b := p + q;
    assert b[|p| + k + 1..|p| + k + 5] == q[k + 1..k + 5];
    assert b[|p| + k + 5] == q[k + 5] && b[|p| + k + 6] == q[k + 6];
    assert b[|p| + k + FRAME_HEADER..|p| + nl] == q[k + FRAME_HEADER..nl];
  }

  function ShiftStep(c: Step, d: nat): Step {
    if c.Took? then Took(c.m, c.next + d) else c
  }

  lemma FrameEndShift(p: seq<Byte>, q: seq<Byte>, k: nat)
    requires k < |q|
    ensures FrameEnd(p + q, |p| + k) ==
      (if FrameEnd(q, k).Some? then Some(|p| + FrameEnd(q, k).value) else None)
  {
    if |q| - k >= FRAME_HEADER {
      NewlineShift(p, q, k + FRAME_HEADER);
    }
  }

  /** Bytes in front do not change what the scan does at a position. */
  lemma CutShift(p: seq<Byte>, q: seq<Byte>, k: nat)
    requires k < |q|
    ensures Cut(p + q, |p| + k) == ShiftStep(Cut(q, k), |p|)
  {
    assert (p + q)[|p| + k] == q[k];
    if q[k] == CHAT {
      FrameEndShift(p, q, k);
      if FrameEnd(q, k).Some? {
        DecodeShift(p, q, k, FrameEnd(q, k).value);
      }
    }
  }

  function Shifted(s: Scan, d: nat): Scan {
    Scan(s.messages, s.consumed + d, s.shutdown)
  }

  /** Bytes in front of the scanned region only shift the consumed count. */
  lemma {:induction false} ScanShift(p: seq<Byte>, q: seq<Byte>, k: nat)
    requires k <= |q|
    ensures ScanFrom(p + q, |p| + k) == Shifted(ScanFrom(q, k), |p|)
    decreases |q| - k
  {
    if k < |q| {
      CutShift(p, q, k);
      var c := Cut(q, k);
      if c.Took? {
        ScanShift(p, q, c.next);
      } else if c.Skipped? {
        ScanShift(p, q, k + 1);
      }
    }
  }

  /** A message the server can relay: 4 address bytes, a 16-bit port, a short text without newline. */
  predicate Relayable(m: Message) {
    && |m.ip| == 4 && m.port < 0x1_0000 && |m.text| < MESSAGE_SIZE
    && (forall i :: 0 <= i < |m.text| ==> m.text[i] != NEWLINE)
  }

  /** The type-0 frame that carries a message. */
  function Wire(m: Message): (w: seq<Byte>)
    requires Relayable(m)
  {
    [CHAT] + m.ip + [m.port / 256, m.port % 256] + m.text + [NEWLINE]
  }

  function WireAll(ms: seq<Message>): seq<Byte>
    requires forall i :: 0 <= i < |ms| ==> Relayable(ms[i])
  {
    if ms == [] then [] else Wire(ms[0]) + WireAll(ms[1..])
  }

  /** The scan cuts a relayed frame back into its message. */
  lemma WireCut(m: Message, rest: seq<Byte>)
    requires Relayable(m)
    ensures Cut(Wire(m) + rest, 0) == Took(m, |Wire(m)|)
  {
    var w := Wire(m);
    var b := w + rest;
    var nl := |w| - 1;
    assert b[nl] == NEWLINE;
    assert forall j :: FRAME_HEADER <= j < nl ==> b[j] == m.text[j - FRAME_HEADER];
    NewlineFromFirst(b, FRAME_HEADER);
    assert FrameEnd(b, 0) == Some(nl);
    assert b[1..5] == m.ip;
    assert b[FRAME_HEADER..nl] == m.text;
    assert Decode(b, 0, nl) == m;
  }

  lemma WireScan(m: Message, rest: seq<Byte>)
    requires Relayable(m)
    ensures ScanFrom(Wire(m) + rest, 0) == Prepend([m], Shifted(ScanFrom(rest, 0), |Wire(m)|))
  {
    WireCut(m, rest);
    ScanShift(Wire(m), rest, 0);
  }

  /**
   * Frames written back to back are cut into exactly their messages, in
   * order; what follows them is scanned as if on its own.
   */
  lemma {:induction false} WireAllScan(ms: seq<Message>, rest: seq<Byte>)
    requires forall i :: 0 <= i < |ms| ==> Relayable(ms[i])
    ensures ScanFrom(WireAll(ms) + rest, 0) == Prepend(ms, Shifted(ScanFrom(rest, 0), |WireAll(ms)|))
  {
    var r := ScanFrom(rest, 0);
    if ms == [] {
      assert WireAll(ms) + rest == rest;
      assert ms + r.messages == r.messages;
    } else {
      var w := Wire(ms[0]);
      var tail := WireAll(ms[1..]) + rest;
      var n := |WireAll(ms[1..])|;
      assert WireAll(ms) + rest == w + tail;
      calc {
        ScanFrom(w + tail, 0);
        == { WireScan(ms[0], tail); }
        Prepend([ms[0]], Shifted(ScanFrom(tail, 0), |w|));
        == { WireAllScan(ms[1..], rest); }
        Prepend([ms[0]], Shifted(Prepend(ms[1..], Shifted(r, n)), |w|));
        == { assert [ms[0]] + (ms[1..] + r.messages) == ms + r.messages; }
        Prepend(ms, Shifted(r, |w| + n));
      }
    }
  }

  /** A run of relayed frames followed by an unfinished one: all frames are taken, the unfinished one is kept. */
  lemma FramesThenUnfinished(ms: seq<Message>, rest: seq<Byte>)
    requires forall i :: 0 <= i < |ms| ==> Relayable(ms[i])
    requires Unfinished(rest)
    ensures ScanFrom(WireAll(ms) + rest, 0) == Scan(ms, |WireAll(ms)|, false)
  {
    WireAllScan(ms, rest);
    if rest != [] {
      assert Cut(rest, 0) == Halt(false);
    }
    assert ms + [] == ms;
  }

  /** Frames followed by a shutdown byte: the frames are taken and the scan stops at that byte. */
  lemma FramesThenShutdown(ms: seq<Message>, rest: seq<Byte>)
    requires forall i :: 0 <= i < |ms| ==> Relayable(ms[i])
    ensures ScanFrom(WireAll(ms) + [SHUTDOWN] + rest, 0) == Scan(ms, |WireAll(ms)|, true)
  {
    WireAllScan(ms, [SHUTDOWN] + rest);
    assert WireAll(ms) + [SHUTDOWN] + rest == WireAll(ms) + ([SHUTDOWN] + rest);
    assert ms + [] == ms;
  }

  /** What one pass of the receiver loop ends in. */
  datatype Outcome =
    | Closed                          // read returned 0
    | Overflow                        // the bytes would not fit the buffer
    | Shutdown(shown: seq<Message>)   // a type-1 byte: the client is told to stop
    | Continue(shown: seq<Message>)   // wait for more bytes

  /** `memcpy(buffer + buf_len, recv_buf, rlen)`. */
  method Append(a: array<Byte>, at: nat, chunk: seq<Byte>)
    requires at + |chunk| <= a.Length
    modifies a
    ensures a[..at + |chunk|] == old(a[..at]) + chunk
  {
    var i := 0;
    while i < |chunk|
      invariant 0 <= i <= |chunk|
      invariant a[..at + i] == old(a[..at]) + chunk[..i]
    {
      a[at + i] := chunk[i];
      assert a[..at + i + 1] == a[..at + i] + [chunk[i]];
      assert chunk[..i + 1] == chunk[..i] + [chunk[i]];
      i := i + 1;
    }
    assert chunk[..|chunk|] == chunk;
  }

  /** `memmove(buffer, buffer + pos, buf_len - pos)`. */
  method ShiftLeft(a: array<Byte>, pos: nat, len: nat)
    requires pos <= len <= a.Length
    modifies a
    ensures a[..len - pos] == old(a[pos..len])
  {
    var k := 0;
    while k < len - pos
      invariant 0 <= k <= len - pos
      invariant forall j :: 0 <= j < k ==> a[j] == old(a[j + pos])
      invariant forall j :: k + pos <= j < len ==> a[j] == old(a[j])
    {
      a[k] := a[k + pos];
      k := k + 1;
    }
  }

  /** The newline search of client.c:73-79. */
  method FindNewline(a: array<Byte>, from: nat, to: nat) returns (r: Option<nat>)
    requires from <= to <= a.Length
    ensures r == NewlineFrom(a[..to], from)
  {
    var j := from;
    while j < to
      invariant from <= j <= to
      invariant NewlineFrom(a[..to], from) == NewlineFrom(a[..to], j)
    {
      if a[j] == NEWLINE {
        return Some(j);
      }
      j := j + 1;
    }
    return None;
  }

  /** One pass of the body of the loop at client.c:62-108, at `pos`. */
  method StepAt(a: array<Byte>, len: nat, pos: nat) returns (step: Step)
    requires pos < len <= a.Length
    ensures step == Cut(a[..len], pos)
  {
    var t := a[pos];
    if t == SHUTDOWN {
      return Halt(true);
    } else if t == CHAT {
      if len - pos < FRAME_HEADER {
        return Halt(false);
      }
      var nl := FindNewline(a, pos + FRAME_HEADER, len);
      if nl.None? {
        return Halt(false);
      }
      return Took(Decode(a[..len], pos, nl.value), nl.value + 1);
    } else {
      return Skipped;
    }
  }

  /**
   * The loop of client.c:61-108 over the first `len` bytes of `a`: the
   * messages it shows, where it stops, and whether it stopped at a
   * shutdown byte.
   */
  method ScanBuffer(a: array<Byte>, len: nat) returns (shown: seq<Message>, pos: nat, stop: bool)
    requires len <= a.Length
    ensures Scan(shown, pos, stop) == ScanFrom(a[..len], 0)
  {
    ghost var data := a[..len];
    pos := 0;
    shown := [];
    while pos < len
      invariant pos <= len
      invariant ScanFrom(data, 0) == Prepend(shown, ScanFrom(data, pos))
      decreases len - pos
    {
      var step := StepAt(a, len, pos);
      if step.Halt? {
        assert shown + [] == shown;
        return shown, pos, step.shutdown;
      } else if step.Took? {
        assert shown + ([step.m] + ScanFrom(data, step.next).messages)
            == (shown + [step.m]) + ScanFrom(data, step.next).messages;
        shown := shown + [step.m];
        pos := step.next;
      } else {
        pos := pos + 1;
      }
    }
    assert shown + [] == shown;
    return shown, pos, false;
  }

  /** The receiver thread's byte buffer (client.c:39-40). */
  class Receiver {
    const buffer: array<Byte>
    var bufLen: nat

    ghost predicate Valid()
      reads this
    {
      buffer.Length == BUFFER_SIZE && bufLen <= BUFFER_SIZE
    }

    /** The bytes received and not yet cut into frames. */
    ghost function Pending(): seq<Byte>
      reads this, buffer
      requires Valid()
    {
      buffer[..bufLen]
    }

    constructor ()
      ensures Valid() && Pending() == [] && fresh(buffer)
    {
      buffer := new Byte[BUFFER_SIZE](_ => 0);
      bufLen := 0;
    }

    /**
     * client.c:41-114, one pass with `chunk` as what `read` returned. An
     * empty chunk means the server closed the connection; a chunk that
     * does not fit behind the pending bytes ends the thread with nothing
     * changed. Otherwise the chunk is appended and the pending bytes are
     * scanned: the messages met are shown, a shutdown byte stops at once,
     * and otherwise the scanned prefix is dropped and the rest kept in
     * order.
     */
    method Feed(chunk: seq<Byte>) returns (outcome: Outcome)
      requires Valid() && |chunk| <= RECV_SIZE
      modifies this, buffer
      ensures Valid()
      ensures chunk == [] ==> outcome == Closed && bufLen == old(bufLen) && unchanged(buffer)
      ensures chunk != [] && old(bufLen) + |chunk| > BUFFER_SIZE ==>
        outcome == Overflow && bufLen == old(bufLen) && unchanged(buffer)
      ensures chunk != [] && old(bufLen) + |chunk| <= BUFFER_SIZE ==>
        var s := ScanFrom(old(buffer[..bufLen]) + chunk, 0);
        && s.consumed <= |old(buffer[..bufLen]) + chunk|
        && outcome == (if s.shutdown then Shutdown(s.messages) else Continue(s.messages))
        && (!s.shutdown ==> buffer[..bufLen] == (old(buffer[..bufLen]) + chunk)[s.consumed..])
    {
      if |chunk| == 0 {
        return Closed;
      }
      if bufLen + |chunk| > BUFFER_SIZE {
        return Overflow;
      }
      ghost var before := buffer[..bufLen];
      Append(buffer, bufLen, chunk);
      bufLen := bufLen + |chunk|;
      ghost var data := buffer[..bufLen];
      assert data == before + chunk;
      var shown, pos, stop := ScanBuffer(buffer, bufLen);
      ScanLeavesUnfinished(data, 0);
      if stop {
        return Shutdown(shown);
      }
      Compact(pos);
      return Continue(shown);
    }

    /** client.c:109-114: the first `pos` pending bytes are dropped and the rest moved to the front. */
    method Compact(pos: nat)
      requires Valid() && pos <= bufLen
      modifies this, buffer
      ensures Valid() && buffer[..bufLen] == old(buffer[pos..bufLen])
    {
      if pos > 0 {
        if pos < bufLen {
          ShiftLeft(buffer, pos, bufLen);
        }
        bufLen := bufLen - pos;
      }
    }
  }
}
